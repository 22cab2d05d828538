/** Path strings and the components that path_to_node cuts them into. */
module Paths {

  /** Where the first '/' of p is, or its length. */
  function Slash(p: string): (i: nat)
    ensures i <= |p| && (i < |p| ==> p[i] == '/') && '/' !in p[..i]
  {
    if p == "" || p[0] == '/' then 0
    else
      var i := Slash(p[1..]);
      assert p[..i + 1] == [p[0]] + p[1..][..i];
      i + 1
  }

  /** The components of what follows the leading slash. A slash at the very end starts no component; two
      slashes in a row have an empty one between them. */
  function Tokens(p: string): (toks: seq<string>)
    ensures toks == [] <==> p == ""
    decreases |p|
  {
    if p == "" then []
    else
      var i := Slash(p);
      [p[..i]] + if i < |p| then Tokens(p[i + 1..]) else []
  }

  /** The last component reaches to the end of the path. */
  predicate EndsInName(p: string) {
    p != "" && p[|p| - 1] != '/'
  }

  lemma TokensUnfold(p: string)
    requires p != ""
    ensures Slash(p) < |p| ==> Tokens(p) == [p[..Slash(p)]] + Tokens(p[Slash(p) + 1..])
    ensures Slash(p) == |p| ==> Tokens(p) == [p]
  {
    hide Slash;
    if Slash(p) == |p| {
      assert Tokens(p) == [p[..|p|]] + [];
      assert p[..|p|] == p;
    }
  }

  /** No component has a slash in it. */
  lemma {:induction false} TokensHaveNoSlash(p: string, k: nat)
    requires k < |Tokens(p)|
    ensures '/' !in Tokens(p)[k] && |Tokens(p)[k]| <= |p|
    decreases |p|
  {
    hide Tokens, Slash;
    TokensUnfold(p);
    if Slash(p) < |p| && k > 0 {
      TokensHaveNoSlash(p[Slash(p) + 1..], k - 1);
    }
  }

  lemma {:induction false} LastToken(p: string)
    requires EndsInName(p)
    ensures Tokens(p) != [] && Tokens(p)[|Tokens(p)| - 1] != ""
    decreases |p|
  {
    hide Tokens, Slash;
    TokensUnfold(p);
    if Slash(p) < |p| {
      LastToken(p[Slash(p) + 1..]);
    }
  }

  /** "/a/b/c" for ["a", "b", "c"]. */
  function Join(comps: seq<string>): string {
    if comps == [] then "" else "/" + comps[0] + Join(comps[1..])
  }

  predicate IsName(t: string) { t != "" && '/' !in t }

  lemma {:induction false} TokensOfJoin(comps: seq<string>)
    requires comps != [] && forall c <- comps :: IsName(c)
    ensures Join(comps) != "" && Join(comps)[0] == '/'
    ensures Tokens(Join(comps)[1..]) == comps && EndsInName(Join(comps)[1..])
    decreases |comps|
  {
    hide Tokens, Slash;
    var c, rest := comps[0], comps[1..];
    assert IsName(c) && comps == [c] + rest;
    var p := Join(comps)[1..];
    assert p == c + Join(rest);
    if rest == [] {
      SlashAfter(c, "");
      assert p == c + "" == c;
      TokensUnfold(c);
    } else {
      TokensOfJoin(rest);
      SlashAfter(c, Join(rest));
      TokensUnfold(p);
      assert p[..|c|] == c && p[|c| + 1..] == Join(rest)[1..];
    }
  }

  lemma {:induction false} SlashAfter(c: string, r: string)
    requires '/' !in c && (r == "" || r[0] == '/')
    ensures Slash(c + r) == |c|
    decreases |c|
  {
    if c == "" {
      assert c + r == r;
    } else {
      SlashAfter(c[1..], r);
      assert (c + r)[1..] == c[1..] + r;
    }
  }

  lemma {:induction false} JoinAppend(comps: seq<string>, c: string)
    ensures Join(comps + [c]) == Join(comps) + "/" + c
    decreases |comps|
  {
    if comps == [] {
      assert comps + [c] == [c];
      assert Join([c]) == "/" + c + Join([]);
    } else {
      JoinAppend(comps[1..], c);
      assert (comps + [c])[1..] == comps[1..] + [c];
    }
  }

  /** The components with a slash before each give the path back, without a slash at its very end. */
  lemma {:induction false} JoinOfTokens(p: string)
    ensures p != "" ==> Join(Tokens(p)) == "/" + if EndsInName(p) then p else p[..|p| - 1]
    decreases |p|
  {
    hide Tokens, Slash;
    if p != "" {
      TokensUnfold(p);
      var i := Slash(p);
      if i == |p| {
        assert [p][1..] == [];
        assert Join([p]) == "/" + p + "";
      } else {
        var rest := p[i + 1..];
        JoinOfTokens(rest);
        assert p == p[..i] + "/" + rest;
        assert Tokens(p)[1..] == Tokens(rest);
      }
    }
  }
}
