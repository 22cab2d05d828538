/** Shared definitions: an option type, page arithmetic and the ranges of page numbers. */
module Common {

  datatype Option<+T> = None | Some(value: T)

  /** kernel/mm/pmm.h: bytes in a page, and pages described by one byte of the bitmap. */
  const PAGE_SIZE := 4096
  const PAGES_PER_BYTE := 8

  /** Bytes of memory described by one byte of the bitmap. */
  const BYTE_SPAN := 32768

  /** Pages needed to hold `size` bytes. */
  function NumPages(size: nat): nat {
    (size + PAGE_SIZE - 1) / PAGE_SIZE
  }

  /** It is the least number of pages that hold them. */
  lemma NumPagesLeast(size: nat, n: nat)
    ensures size <= n * PAGE_SIZE <==> NumPages(size) <= n
  {
  }

  predicate AtLeast(p: nat, first: nat) { first <= p }

  /** The page numbers first, first + 1, ..., first + n - 1. */
  function Range(first: nat, n: nat): set<nat> {
    set p: nat | p < first + n && AtLeast(p, first)
  }

  lemma RangeStep(first: nat, n: nat)
    ensures Range(first, 0) == {}
    ensures Range(first, n + 1) == Range(first, n) + {first + n}
  {
  }

  lemma {:induction false} RangeSize(first: nat, n: nat)
    ensures |Range(first, n)| == n
  {
    if n == 0 {
      assert Range(first, 0) == {};
    } else {
      RangeSize(first, n - 1);
      assert Range(first, n) == Range(first, n - 1) + {first + n - 1};
    }
  }
}
