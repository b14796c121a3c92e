/** The anchored regular expressions of the CRD schema, by what they denote, and the few laws the
    hand-written validators are compared through. */
module Regex {
  import opened Base
  import opened Text

  /** `Rep(e, None)` is `e*`; `Rep(e, Some(n))` is `e{0,n}`. */
  datatype Rx =
    | Lit(text: string)
    | Class(ranges: seq<(char, char)>)
    | Cat(first: Rx, second: Rx)
    | Opt(e: Rx)
    | Rep(e: Rx, max: Option<nat>)

  function Depth(r: Rx): nat {
    match r
    case Lit(_) => 0
    case Class(_) => 0
    case Cat(a, b) => 1 + Depth(a) + Depth(b)
    case Opt(e) => 1 + Depth(e)
    case Rep(e, _) => 1 + Depth(e)
  }

  predicate InClass(ranges: seq<(char, char)>, c: char) {
    exists i :: 0 <= i < |ranges| && ranges[i].0 <= c <= ranges[i].1
  }

  function OneLess(max: Option<nat>): Option<nat> {
    if max.None? || max.value == 0 then max else Some(max.value - 1)
  }

  /** The whole of `s` matches `r`. */
  ghost predicate Matches(r: Rx, s: string)
    decreases Depth(r), |s|
  {
    match r
    case Lit(text) => s == text
    case Class(ranges) => |s| == 1 && InClass(ranges, s[0])
    case Cat(a, b) => exists k :: 0 <= k <= |s| && Matches(a, s[..k]) && Matches(b, s[k..])
    case Opt(e) => s == "" || Matches(e, s)
    case Rep(e, max) =>
      s == "" ||
      (max != Some(0) && exists k :: 0 < k <= |s| && Matches(e, s[..k]) && Matches(Rep(e, OneLess(max)), s[k..]))
  }

  ghost predicate AllIn(ranges: seq<(char, char)>, s: string) {
    forall i :: 0 <= i < |s| ==> InClass(ranges, s[i])
  }

  /** `[..]*` matches exactly the texts over the class. */
  lemma {:induction false} ClassStar(ranges: seq<(char, char)>, s: string)
    ensures Matches(Rep(Class(ranges), None), s) <==> AllIn(ranges, s)
    decreases |s|
  {
    hide InClass;
    var r := Rep(Class(ranges), None);
    if s != "" {
      ClassStar(ranges, s[1..]);
      if Matches(r, s) {
        var k :| 0 < k <= |s| && Matches(Class(ranges), s[..k]) && Matches(Rep(Class(ranges), OneLess(None)), s[k..]);
        assert k == 1;
        assert forall i :: 0 < i < |s| ==> s[i] == s[1..][i - 1];
      }
      if AllIn(ranges, s) {
        assert s[..1] == [s[0]];
        assert Matches(Class(ranges), s[..1]) && Matches(r, s[1..]);
      }
    }
  }

  /** A concatenation matches what is made of two matches. */
  lemma CatIntro(a: Rx, b: Rx, x: string, y: string)
    requires Matches(a, x) && Matches(b, y)
    ensures Matches(Cat(a, b), x + y)
  {
    assert (x + y)[..|x|] == x && (x + y)[|x|..] == y;
  }

  lemma CatElim(a: Rx, b: Rx, s: string) returns (x: string, y: string)
    requires Matches(Cat(a, b), s)
    ensures s == x + y && Matches(a, x) && Matches(b, y)
  {
    var k :| 0 <= k <= |s| && Matches(a, s[..k]) && Matches(b, s[k..]);
    x, y := s[..k], s[k..];
  }

  /** One leading character of a class. */
  lemma ClassCat(ranges: seq<(char, char)>, b: Rx, s: string)
    ensures Matches(Cat(Class(ranges), b), s) <==> s != "" && InClass(ranges, s[0]) && Matches(b, s[1..])
  {
    hide InClass;
    if Matches(Cat(Class(ranges), b), s) {
      var x, y := CatElim(Class(ranges), b, s);
      assert |x| == 1 && s[0] == x[0] && s[1..] == y;
    }
    if s != "" && InClass(ranges, s[0]) && Matches(b, s[1..]) {
      assert s[..1] == [s[0]];
      assert Matches(Class(ranges), s[..1]);
    }
  }

  const DOT: seq<(char, char)> := [('.', '.')]

  lemma DotClass(c: char)
    ensures InClass(DOT, c) <==> c == '.'
  {
    if c == '.' { assert DOT[0].0 <= c <= DOT[0].1; }
  }

  /** What `seg` matches never contains a dot. */
  ghost predicate DotFree(seg: Rx) {
    forall x :: Matches(seg, x) ==> '.' !in x
  }

  ghost predicate Within(max: Option<nat>, n: nat) {
    max.Some? ==> n <= max.value
  }

  ghost predicate EachMatches(seg: Rx, parts: seq<string>) {
    forall i :: 0 <= i < |parts| ==> Matches(seg, parts[i])
  }

  /** The pieces of a dotted text, one at a time. */
  lemma SplitHead(x: string)
    ensures var ps := Split(x, '.');
            && '.' !in ps[0]
            && (|ps| == 1 ==> x == ps[0])
            && (|ps| > 1 ==> x == ps[0] + "." + Join(ps[1..], '.') && Split(Join(ps[1..], '.'), '.') == ps[1..])
  {
    var ps := Split(x, '.');
    JoinSplit(x, '.');
    SplitPiecesHaveNoSep(x, '.');
    assert ps[0] in ps;
    if |ps| > 1 {
      assert forall p :: p in ps[1..] ==> p in ps;
      SplitJoin(ps[1..], '.');
    }
  }

  /** A dot-free text in front of nothing, or of a dot, is a piece of its own. */
  lemma ConsPiece(head: string, rest: string)
    requires '.' !in head && (rest == "" || rest[0] == '.')
    ensures Split(head + rest, '.') == [head] + (if rest == "" then [] else Split(rest[1..], '.'))
  {
    hide Split;
    SplitAtomic(head, '.');
    if rest == "" {
      assert head + rest == head;
    } else {
      assert head + rest == head + "." + rest[1..];
      SplitConcat(head, rest[1..], '.');
    }
  }

  /** `(\.seg)*` and `(\.seg){0,n}` match the empty text, and a dot followed by at most `n` pieces
      that each match `seg`. */
  lemma {:induction false} DottedRep(seg: Rx, max: Option<nat>, s: string)
    requires DotFree(seg)
    ensures Matches(Rep(Cat(Class(DOT), seg), max), s) <==>
            s == "" || (s[0] == '.' && Within(max, |Split(s[1..], '.')|) && EachMatches(seg, Split(s[1..], '.')))
    decreases |s|
  {
    if Matches(Rep(Cat(Class(DOT), seg), max), s) {
      DottedRepForward(seg, max, s);
    }
    if s != "" && s[0] == '.' && Within(max, |Split(s[1..], '.')|) && EachMatches(seg, Split(s[1..], '.')) {
      DottedRepBack(seg, max, s);
    }
  }

  lemma EachCons(seg: Rx, head: string, more: seq<string>)
    requires Matches(seg, head) && (more == [] || EachMatches(seg, more))
    ensures EachMatches(seg, [head] + more)
  {
    hide Matches;
  }

  lemma {:induction false} DottedRepForward(seg: Rx, max: Option<nat>, s: string)
    requires DotFree(seg) && Matches(Rep(Cat(Class(DOT), seg), max), s)
    ensures s == "" || (s[0] == '.' && Within(max, |Split(s[1..], '.')|) && EachMatches(seg, Split(s[1..], '.')))
    decreases |s|
  {
    if s != "" {
      hide Matches, InClass, Split, Join, EachMatches;
      var head, rest := DottedElim(seg, max, s);
      assert '.' !in head;
      hide DotFree;
      DottedRepForward(seg, OneLess(max), rest);
      ConsPiece(head, rest);
      EachCons(seg, head, if rest == "" then [] else Split(rest[1..], '.'));
    }
  }

  lemma DottedElim(seg: Rx, max: Option<nat>, s: string) returns (head: string, rest: string)
    requires s != "" && Matches(Rep(Cat(Class(DOT), seg), max), s)
    ensures s == "." + head + rest && s[1..] == head + rest && max != Some(0)
    ensures Matches(seg, head) && Matches(Rep(Cat(Class(DOT), seg), OneLess(max)), rest)
  {
    hide Matches, InClass;
    var k := RepElim(Cat(Class(DOT), seg), max, s);
    ClassCat(DOT, seg, s[..k]);
    DotClass(s[0]);
    head, rest := s[..k][1..], s[k..];
    assert s == s[..k] + rest;
  }

  lemma {:induction false} DottedRepBack(seg: Rx, max: Option<nat>, s: string)
    requires DotFree(seg)
    requires s != "" && s[0] == '.' && Within(max, |Split(s[1..], '.')|) && EachMatches(seg, Split(s[1..], '.'))
    ensures Matches(Rep(Cat(Class(DOT), seg), max), s)
    decreases |s|
  {
    hide Matches, InClass, Join, Split;
    var item := Cat(Class(DOT), seg);
    var ps := Split(s[1..], '.');
    SplitHead(s[1..]);
    var k := 1 + |ps[0]|;
    assert s[..k][1..] == ps[0];
    DotClass(s[0]);
    ClassCat(DOT, seg, s[..k]);
    if |ps| == 1 {
      assert s[k..] == "";
      RepEmpty(item, OneLess(max));
    } else {
      assert s[k..] == "." + Join(ps[1..], '.');
      assert s[k..][1..] == Join(ps[1..], '.');
      DottedRepBack(seg, OneLess(max), s[k..]);
    }
    RepIntro(item, max, s, k);
  }

  lemma RepEmpty(e: Rx, max: Option<nat>)
    ensures Matches(Rep(e, max), "")
  {
  }

  lemma RepElim(e: Rx, max: Option<nat>, s: string) returns (k: int)
    requires s != "" && Matches(Rep(e, max), s)
    ensures 0 < k <= |s| && max != Some(0)
    ensures Matches(e, s[..k]) && Matches(Rep(e, OneLess(max)), s[k..])
  {
    k :| 0 < k <= |s| && Matches(e, s[..k]) && Matches(Rep(e, OneLess(max)), s[k..]);
  }

  lemma RepIntro(e: Rx, max: Option<nat>, s: string, k: int)
    requires 0 < k <= |s| && max != Some(0)
    requires Matches(e, s[..k]) && Matches(Rep(e, OneLess(max)), s[k..])
    ensures Matches(Rep(e, max), s)
  {
  }

  /** `seg(\.seg)*` and `seg(\.seg){0,n}`: one more than `n` pieces, each matching `seg`. */
  lemma {:induction false} DottedPattern(seg: Rx, max: Option<nat>, s: string)
    requires DotFree(seg)
    ensures Matches(Cat(seg, Rep(Cat(Class(DOT), seg), max)), s) <==>
            Within(max, |Split(s, '.')| - 1) && EachMatches(seg, Split(s, '.'))
  {
    hide Matches, InClass, Join, Split;
    var more := Rep(Cat(Class(DOT), seg), max);
    var ps := Split(s, '.');
    if Matches(Cat(seg, more), s) {
      var x, y := CatElim(seg, more, s);
      DottedRep(seg, max, y);
      ConsPiece(x, y);
    }
    if Within(max, |ps| - 1) && EachMatches(seg, ps) {
      SplitHead(s);
      var y := if |ps| == 1 then "" else "." + Join(ps[1..], '.');
      assert s == ps[0] + y;
      if |ps| > 1 { assert y[1..] == Join(ps[1..], '.'); }
      DottedRep(seg, max, y);
      CatIntro(seg, more, ps[0], y);
    }
  }
}
