/** The day and hour range parsers of `src/crd.rs`.

    `Part` and `ParseRanges` say what a range list means; `ParseDayRanges` and
    `ParseHourRanges` are the source's loops, proved to compute exactly that, errors included. */
module Ranges {
  import opened Base
  import opened Text

  datatype RangeError =
    | MalformedRange(part: string)
    | UnknownDay(text: string)
    | BadHour(text: string)
    | HourTooLarge(text: string)
    | LateHour(hour: int)

  /** The two cycles a schedule is written over. */
  datatype Axis = Days | Hours {
    function Modulus(): (n: nat)
      ensures n > 0
    {
      if Days? then 7 else 24
    }
  }

  const MAX_HOUR := 23

  const DAY_NAMES: seq<string> := ["mon", "tue", "wed", "thu", "fri", "sat", "sun"]

  function DayNumber(name: string): (d: Option<int>)
    ensures d.Some? ==> 0 <= d.value < 7
  {
    if name == "mon" then Some(0) else if name == "tue" then Some(1)
    else if name == "wed" then Some(2) else if name == "thu" then Some(3)
    else if name == "fri" then Some(4) else if name == "sat" then Some(5)
    else if name == "sun" then Some(6) else None
  }

  predicate AllDigits(d: string) {
    forall i :: 0 <= i < |d| ==> IsDigit(d[i])
  }

  function Decimal(d: string): nat
    requires AllDigits(d)
  {
    if d == "" then 0
    else
      var last := d[|d| - 1];
      assert IsDigit(last);
      10 * Decimal(d[..|d| - 1]) + (last as int - '0' as int)
  }

  /** `str::parse::<u8>`: an optional plus sign, at least one digit, a value below 256. */
  function ParseU8(s: string): (v: Option<int>)
    ensures v.Some? ==> 0 <= v.value <= 255
  {
    var d := if s != "" && s[0] == '+' then s[1..] else s;
    if d == "" || !AllDigits(d) then None
    else if Decimal(d) > 255 then None
    else Some(Decimal(d))
  }

  /** How far one walks forward from `a` to reach `x` round a cycle of length `n`. */
  function Steps(a: int, x: int, n: nat): int {
    if x >= a then x - a else x - a + n
  }

  /** The points met when walking forward from `a` to `b` round a cycle of length `n`. */
  function CyclicInterval(a: int, b: int, n: nat): set<int> {
    set x | 0 <= x < n && Steps(a, x, n) <= Steps(a, b, n)
  }

  /** The points `lo, lo + 1, .., hi - 1`. */
  function Run(lo: int, hi: int): (r: set<int>)
    ensures forall x :: x in r <==> lo <= x < hi
    decreases hi - lo
  {
    if hi <= lo then {} else Run(lo, hi - 1) + {hi - 1}
  }

  /** A trimmed day piece: a day, or `a-b` round the week. */
  function DayPart(p: string): (r: Result<set<int>, RangeError>)
    ensures r.Ok? ==> forall x :: x in r.value ==> 0 <= x < 7
  {
    if '-' in p then
      var ends := Split(p, '-');
      if |ends| != 2 then Err(MalformedRange(p))
      else
        var (a, b) := (Trim(ends[0]), Trim(ends[1]));
        if DayNumber(a).None? then Err(UnknownDay(a))
        else if DayNumber(b).None? then Err(UnknownDay(b))
        else Ok(CyclicInterval(DayNumber(a).value, DayNumber(b).value, 7))
    else if DayNumber(p).None? then Err(UnknownDay(p))
    else Ok({DayNumber(p).value})
  }

  /** A trimmed hour piece: an hour, or `a-b` round the day. */
  function HourPart(p: string): (r: Result<set<int>, RangeError>)
    ensures r.Ok? ==> forall x :: x in r.value ==> 0 <= x < 24
  {
    if '-' in p && p[0] != '-' then
      var ends := Split(p, '-');
      if |ends| != 2 then Err(MalformedRange(p))
      else
        var (a, b) := (ParseU8(Trim(ends[0])), ParseU8(Trim(ends[1])));
        if a.None? then Err(BadHour(ends[0]))
        else if b.None? then Err(BadHour(ends[1]))
        else if a.value > MAX_HOUR || b.value > MAX_HOUR then Err(HourTooLarge(p))
        else Ok(CyclicInterval(a.value, b.value, 24))
    else if ParseU8(p).None? then Err(BadHour(p))
    else if ParseU8(p).value > MAX_HOUR then Err(LateHour(ParseU8(p).value))
    else Ok({ParseU8(p).value})
  }

  /** What one comma-separated piece denotes. */
  function Part(axis: Axis, text: string): (r: Result<set<int>, RangeError>)
    ensures r.Ok? ==> forall x :: x in r.value ==> 0 <= x < axis.Modulus()
  {
    if axis.Days? then DayPart(Trim(text)) else HourPart(Trim(text))
  }

  /** All comma-separated pieces of a list of entries, in order. */
  function Pieces(specs: seq<string>): seq<string> {
    if specs == [] then [] else Split(specs[0], ',') + Pieces(specs[1..])
  }

  /** First error wins; otherwise the union. */
  function Merge(a: Result<set<int>, RangeError>, b: Result<set<int>, RangeError>): Result<set<int>, RangeError> {
    if a.Err? then a else if b.Err? then b else Ok(a.value + b.value)
  }

  function FoldPieces(axis: Axis, pieces: seq<string>): Result<set<int>, RangeError> {
    if pieces == [] then Ok({}) else Merge(Part(axis, pieces[0]), FoldPieces(axis, pieces[1..]))
  }

  function ParseRanges(axis: Axis, specs: seq<string>): Result<set<int>, RangeError> {
    FoldPieces(axis, Pieces(specs))
  }

  lemma MergeAssociative(a: Result<set<int>, RangeError>, b: Result<set<int>, RangeError>, c: Result<set<int>, RangeError>)
    ensures Merge(Merge(a, b), c) == Merge(a, Merge(b, c))
  {
    if a.Ok? && b.Ok? && c.Ok? {
      assert (a.value + b.value) + c.value == a.value + (b.value + c.value);
    }
  }

  lemma {:induction false} FoldConcat(axis: Axis, a: seq<string>, b: seq<string>)
    ensures FoldPieces(axis, a + b) == Merge(FoldPieces(axis, a), FoldPieces(axis, b))
  {
    hide Part;
    if a == [] {
      assert a + b == b;
      if FoldPieces(axis, b).Ok? { assert {} + FoldPieces(axis, b).value == FoldPieces(axis, b).value; }
    } else {
      assert (a + b)[1..] == a[1..] + b;
      FoldConcat(axis, a[1..], b);
      MergeAssociative(Part(axis, a[0]), FoldPieces(axis, a[1..]), FoldPieces(axis, b));
    }
  }

  lemma {:induction false} PiecesConcat(a: seq<string>, b: seq<string>)
    ensures Pieces(a + b) == Pieces(a) + Pieces(b)
  {
    if a == [] {
      assert a + b == b;
    } else {
      assert (a + b)[1..] == a[1..] + b;
      PiecesConcat(a[1..], b);
    }
  }

  lemma PiecesOfOne(s: string)
    ensures Pieces([s]) == Split(s, ',')
  {
    assert [s][1..] == [];
    assert Split(s, ',') + [] == Split(s, ',');
  }

  // ---------------------------------------------------------------------------------------
  // What a successful parse returns

  /** A parse succeeds exactly when every piece does, and then returns the union of the cyclic
      intervals the pieces denote, all within the axis. */
  lemma {:induction false} ParsedIsUnionOfPieces(axis: Axis, pieces: seq<string>)
    ensures FoldPieces(axis, pieces).Ok? <==> forall i :: 0 <= i < |pieces| ==> Part(axis, pieces[i]).Ok?
    ensures FoldPieces(axis, pieces).Ok? ==>
              && (forall x :: x in FoldPieces(axis, pieces).value <==>
                              exists i :: 0 <= i < |pieces| && x in Part(axis, pieces[i]).value)
              && (forall x :: x in FoldPieces(axis, pieces).value ==> 0 <= x < axis.Modulus())
  {
    hide Part;
    if pieces != [] {
      var rest := pieces[1..];
      ParsedIsUnionOfPieces(axis, rest);
      var head, tail := Part(axis, pieces[0]), FoldPieces(axis, rest);
      forall i | 0 < i < |pieces| ensures pieces[i] == rest[i - 1] {}
      forall i | 0 <= i < |rest| ensures rest[i] == pieces[i + 1] {}
      if head.Ok? && tail.Ok? {
        forall x | x in tail.value ensures exists i :: 0 <= i < |pieces| && x in Part(axis, pieces[i]).value {
          var i :| 0 <= i < |rest| && x in Part(axis, rest[i]).value;
          assert x in Part(axis, pieces[i + 1]).value;
        }
        forall x, i | 0 < i < |pieces| && x in Part(axis, pieces[i]).value ensures x in tail.value {
          assert x in Part(axis, rest[i - 1]).value;
        }
      }
    }
  }

  /** Concatenating two entry lists unions their sets; the first list's error wins. */
  lemma ConcatenatedListsUnion(axis: Axis, a: seq<string>, b: seq<string>)
    ensures ParseRanges(axis, a + b) == Merge(ParseRanges(axis, a), ParseRanges(axis, b))
  {
    PiecesConcat(a, b);
    FoldConcat(axis, Pieces(a), Pieces(b));
  }

  /** A comma inside an entry behaves exactly like two entries, errors included. */
  lemma CommaIsSeparateEntries(axis: Axis, a: string, b: string)
    ensures ParseRanges(axis, [a + [','] + b]) == ParseRanges(axis, [a, b])
  {
    SplitConcat(a, b, ',');
    PiecesOfOne(a + [','] + b);
    PiecesOfOne(b);
    assert [a, b][1..] == [b];
  }

  // ---------------------------------------------------------------------------------------
  // Every non-empty set has a spelling

  /** A canonical spelling of one point: the day name, or the hour in decimal. */
  function Spell(axis: Axis, x: int): string
    requires 0 <= x < axis.Modulus()
  {
    if axis.Days? then DAY_NAMES[x]
    else if x < 10 then ["0123456789"[x]]
    else ["0123456789"[x / 10], "0123456789"[x % 10]]
  }

  function Entries(axis: Axis, points: set<int>, from: int): seq<string>
    requires 0 <= from <= axis.Modulus()
    decreases axis.Modulus() - from
  {
    if from == axis.Modulus() then []
    else (if from in points then [Spell(axis, from)] else []) + Entries(axis, points, from + 1)
  }

  /** A canonical spelling of a set: its points, comma separated. */
  function PrintSet(axis: Axis, points: set<int>): string {
    Join(Entries(axis, points, 0), ',')
  }

  lemma SpelledHour(x: int)
    requires 0 <= x < 24
    ensures HourPart(Spell(Hours, x)) == Ok({x})
  {
    var s := Spell(Hours, x);
    assert forall d :: 0 <= d < 10 ==> "0123456789"[d] as int == '0' as int + d;
    if x < 10 {
      assert s[..0] == "";
    } else {
      assert s[..1] == ["0123456789"[x / 10]];
      assert s[..1][..0] == "";
      assert Decimal(s[..1]) == x / 10;
    }
    assert Decimal(s) == x;
  }

  lemma SpelledDay(x: int)
    requires 0 <= x < 7
    ensures DayPart(Spell(Days, x)) == Ok({x})
  {
    var s := Spell(Days, x);
    assert |s| == 3 && s[0] != '-' && s[1] != '-' && s[2] != '-';
    assert DayNumber(s) == Some(x);
  }

  lemma SpellIsAlnum(axis: Axis, x: int)
    requires 0 <= x < axis.Modulus()
    ensures Spell(axis, x) != "" && forall i :: 0 <= i < |Spell(axis, x)| ==> IsAlnum(Spell(axis, x)[i])
  {
    var s := Spell(axis, x);
    if axis.Days? {
      assert |s| == 3 && IsLower(s[0]) && IsLower(s[1]) && IsLower(s[2]);
    } else {
      assert forall d :: 0 <= d < 10 ==> IsDigit("0123456789"[d]);
    }
  }

  lemma SpellShape(axis: Axis, x: int)
    requires 0 <= x < axis.Modulus()
    ensures var s := Spell(axis, x);
            s != "" && '-' !in s && ',' !in s && Trim(s) == s && !IsSpace(s[0]) && !IsSpace(s[|s| - 1])
  {
    hide Trim, Spell;
    SpellIsAlnum(axis, x);
    TrimNoop(Spell(axis, x));
  }

  lemma SpellParses(axis: Axis, x: int)
    requires 0 <= x < axis.Modulus()
    ensures ',' !in Spell(axis, x)
    ensures Part(axis, Spell(axis, x)) == Ok({x})
  {
    hide DayPart, HourPart, Trim, IsSpace;
    SpellShape(axis, x);
    if axis.Hours? { SpelledHour(x); } else { SpelledDay(x); }
  }

  /** The points of a set that are still to be listed. */
  function Remaining(points: set<int>, from: int, n: int): set<int> {
    set x | x in points && from <= x < n
  }

  lemma RemainingStep(points: set<int>, from: int, n: int)
    requires from < n
    ensures Remaining(points, from, n) == (if from in points then {from} else {}) + Remaining(points, from + 1, n)
  {
  }

  lemma {:induction false} EntriesParse(axis: Axis, points: set<int>, from: int)
    requires 0 <= from <= axis.Modulus()
    ensures FoldPieces(axis, Entries(axis, points, from)) == Ok(Remaining(points, from, axis.Modulus()))
    ensures forall e :: e in Entries(axis, points, from) ==> ',' !in e
    decreases axis.Modulus() - from
  {
    if from == axis.Modulus() {
      assert Remaining(points, from, axis.Modulus()) == {};
    } else {
      hide Part, Spell, Remaining;
      EntriesParse(axis, points, from + 1);
      RemainingStep(points, from, axis.Modulus());
      var rest := Entries(axis, points, from + 1);
      if from in points {
        SpellParses(axis, from);
        FoldOne(axis, Spell(axis, from));
        FoldConcat(axis, [Spell(axis, from)], rest);
      } else {
        assert [] + rest == rest;
        assert {} + Remaining(points, from + 1, axis.Modulus()) == Remaining(points, from + 1, axis.Modulus());
      }
    }
  }

  /** Printing any non-empty set of days or hours and parsing it returns that set. */
  lemma PrintParseRoundTrip(axis: Axis, points: set<int>)
    requires points != {}
    requires forall x :: x in points ==> 0 <= x < axis.Modulus()
    ensures ParseRanges(axis, [PrintSet(axis, points)]) == Ok(points)
  {
    hide Part, Entries, Split, Join;
    var es := Entries(axis, points, 0);
    EntriesParse(axis, points, 0);
    assert Remaining(points, 0, axis.Modulus()) == points;
    assert es != [];
    SplitJoin(es, ',');
    PiecesOfOne(PrintSet(axis, points));
  }

  /** White space around a piece does not matter. */
  lemma PaddingIsIgnored(axis: Axis, left: string, text: string, right: string)
    requires AllSpace(left) && AllSpace(right)
    ensures Part(axis, left + text + right) == Part(axis, text)
  {
    hide Trim, DayPart, HourPart;
    TrimPadding(left, text, right);
  }

  lemma SpellValue(axis: Axis, x: int)
    requires 0 <= x < axis.Modulus()
    ensures var s := Spell(axis, x);
            if axis.Days? then DayNumber(s) == Some(x) else ParseU8(s) == Some(x)
  {
    SpellShape(axis, x);
    if axis.Days? {
      SpelledDay(x);
    } else {
      SpelledHour(x);
    }
  }

  /** Two trimmed texts without a hyphen, joined by one. */
  lemma HyphenSplits(a: string, b: string)
    requires a != "" && b != "" && '-' !in a && '-' !in b
    requires !IsSpace(a[0]) && !IsSpace(b[|b| - 1])
    ensures var text := a + "-" + b;
            '-' in text && text[0] != '-' && Trim(text) == text && Split(text, '-') == [a, b]
  {
    hide Split, IsSpace, Trim;
    var text := a + "-" + b;
    assert text[|a|] == '-' && text[0] == a[0] && text[|text| - 1] == b[|b| - 1];
    TrimNoop(text);
    SplitAtomic(a, '-');
    SplitAtomic(b, '-');
    SplitConcat(a, b, '-');
  }

  /** `a-b` denotes the cyclic interval from `a` to `b`, wrapping when `b` comes before `a`. */
  lemma RangeTextIsCyclic(axis: Axis, a: int, b: int)
    requires 0 <= a < axis.Modulus() && 0 <= b < axis.Modulus()
    ensures Part(axis, Spell(axis, a) + "-" + Spell(axis, b)) == Ok(CyclicInterval(a, b, axis.Modulus()))
  {
    hide Spell, Split, IsSpace, DayNumber, ParseU8, CyclicInterval, Trim;
    SpellShape(axis, a);
    SpellShape(axis, b);
    SpellValue(axis, a);
    SpellValue(axis, b);
    HyphenSplits(Spell(axis, a), Spell(axis, b));
  }

  // ---------------------------------------------------------------------------------------
  // Which texts are read, and as what

  /** The value of a digit string, by its digits: nothing is zero, one more digit at the end counts
      once and what was there ten times, and leading zeros do not count. */
  lemma {:induction false} DecimalByDigits(d: string, c: char)
    requires AllDigits(d) && IsDigit(c)
    ensures AllDigits(d + [c]) && AllDigits("0" + d)
    ensures Decimal("") == 0
    ensures Decimal(d + [c]) == 10 * Decimal(d) + (c as int - '0' as int)
    ensures Decimal("0" + d) == Decimal(d)
    decreases |d|
  {
    assert (d + [c])[..|d|] == d;
    if d == "" {
      assert "0" + d == "0" && "0"[..0] == "";
    } else {
      var init := d[..|d| - 1];
      assert ("0" + d)[..|d|] == "0" + init;
      DecimalByDigits(init, c);
    }
  }

  /** An optional plus and the digits of `v`, leading zeros and all. */
  ghost predicate Numeral(s: string, d: string, v: int) {
    (s == d || s == "+" + d) && d != "" && AllDigits(d) && Decimal(d) == v
  }

  ghost predicate IsU8(s: string, v: int) {
    v <= 255 && exists d :: Numeral(s, d, v)
  }

  /** `str::parse::<u8>` answers exactly on these texts, and with that value. */
  lemma ParseU8Exactly(s: string, v: int)
    ensures ParseU8(s) == Some(v) <==> IsU8(s, v)
  {
    var digits := if s != "" && s[0] == '+' then s[1..] else s;
    if ParseU8(s) == Some(v) {
      assert s == digits || s == "+" + digits;
      assert Numeral(s, digits, v);
    }
    if IsU8(s, v) {
      var d :| Numeral(s, d, v);
      assert IsDigit(d[0]);
      assert d == digits;
    }
  }

  /** This text, without white space around it, names the point `x`. */
  ghost predicate Denotes(axis: Axis, text: string, x: int) {
    0 <= x < axis.Modulus() && if axis.Days? then text == DAY_NAMES[x] else IsU8(text, x)
  }

  lemma DayNumberExactly(s: string, x: int)
    ensures DayNumber(s) == Some(x) <==> Denotes(Days, s, x)
    ensures DayNumber(s).None? <==> s !in DAY_NAMES
  {
    forall k | 0 <= k < 7 ensures DayNumber(DAY_NAMES[k]) == Some(k) { SpellValue(Days, k); }
  }

  lemma DenotesShape(axis: Axis, text: string, x: int)
    requires Denotes(axis, text, x)
    ensures text != "" && '-' !in text && !IsSpace(text[0]) && !IsSpace(text[|text| - 1])
    ensures if axis.Days? then DayNumber(text) == Some(x) else ParseU8(text) == Some(x)
  {
    if axis.Days? {
      SpellShape(Days, x);
      DayNumberExactly(text, x);
    } else {
      ParseU8Exactly(text, x);
      var d :| Numeral(text, d, x);
      forall i | 0 <= i < |text| ensures IsDigit(text[i]) || text[i] == '+' {
        if text != d && i > 0 { assert text[i] == d[i - 1]; }
      }
    }
  }

  ghost predicate OneHyphen(text: string, a: string, b: string) {
    text == a + "-" + b && '-' !in a && '-' !in b
  }

  ghost predicate ManyHyphens(text: string, a: string, b: string, c: string) {
    text == a + "-" + b + "-" + c
  }

  lemma CutAtHyphen(text: string) returns (a: string, b: string)
    requires '-' in text
    ensures text == a + "-" + b
  {
    var i :| 0 <= i < |text| && text[i] == '-';
    a, b := text[..i], text[i + 1..];
  }

  /** A text has no hyphen, one, or more. */
  lemma HyphenForms(text: string)
    ensures '-' !in text || (exists a, b :: OneHyphen(text, a, b)) || exists a, b, c :: ManyHyphens(text, a, b, c)
  {
    if '-' in text {
      var a, b := CutAtHyphen(text);
      if '-' in a {
        var x, y := CutAtHyphen(a);
        assert ManyHyphens(text, x, y, b);
      } else if '-' in b {
        var x, y := CutAtHyphen(b);
        assert a + "-" + (x + "-" + y) == a + "-" + x + "-" + y;
        assert ManyHyphens(text, a, x, y);
      } else {
        assert OneHyphen(text, a, b);
      }
    }
  }

  lemma SplitOneHyphen(text: string, a: string, b: string)
    requires OneHyphen(text, a, b)
    ensures Split(text, '-') == [a, b] && '-' in text && (text[0] == '-' <==> a == "")
  {
    hide Split;
    assert text[|a|] == '-';
    if a != "" { assert text[0] == a[0] && a[0] in a; }
    SplitAtomic(a, '-');
    SplitAtomic(b, '-');
    SplitConcat(a, b, '-');
  }

  lemma SplitManyHyphens(text: string, a: string, b: string, c: string)
    requires ManyHyphens(text, a, b, c)
    ensures |Split(text, '-')| > 2 && '-' in text
  {
    hide Split;
    assert text[|a|] == '-';
    SplitConcat(a, b + "-" + c, '-');
    SplitConcat(b, c, '-');
    assert text == a + "-" + (b + "-" + c);
  }

  /** A piece without a hyphen (or, for hours, that starts with one): the point it names, or the
      error. */
  lemma PointExactly(axis: Axis, text: string)
    requires '-' !in Trim(text) || (axis.Hours? && Trim(text)[0] == '-')
    ensures var q := Trim(text);
            && (forall x :: Denotes(axis, q, x) ==> Part(axis, text) == Ok({x}))
            && (axis.Days? && q !in DAY_NAMES ==> Part(axis, text) == Err(UnknownDay(q)))
            && (axis.Hours? ==> forall v :: IsU8(q, v) && v > 23 ==> Part(axis, text) == Err(LateHour(v)))
            && (axis.Hours? && (forall v :: !IsU8(q, v)) ==> Part(axis, text) == Err(BadHour(q)))
  {
    var q := Trim(text);
    hide Trim;
    if axis.Days? {
      forall x ensures DayNumber(q) == Some(x) <==> Denotes(Days, q, x) { DayNumberExactly(q, x); }
      DayNumberExactly(q, 0);
    } else {
      forall v ensures ParseU8(q) == Some(v) <==> IsU8(q, v) { ParseU8Exactly(q, v); }
      hide ParseU8, IsU8;
      if ParseU8(q).Some? { assert IsU8(q, ParseU8(q).value); }
    }
  }

  lemma TrimOfNothing()
    ensures Trim("") == ""
  {
  }

  /** Two points on either side of a hyphen. */
  lemma RangeDenotes(axis: Axis, text: string, a: string, x: int, b: string, y: int)
    requires OneHyphen(Trim(text), a, b) && Denotes(axis, Trim(a), x) && Denotes(axis, Trim(b), y)
    ensures Part(axis, text) == Ok(CyclicInterval(x, y, axis.Modulus())) && a != ""
  {
    hide Trim, Split, CyclicInterval, Denotes, IsSpace, OneHyphen, ParseU8, DayNumber;
    TrimOfNothing();
    DenotesShape(axis, Trim(a), x);
    DenotesShape(axis, Trim(b), y);
    SplitOneHyphen(Trim(text), a, b);
    DenotesInRange(axis, Trim(a), x);
    DenotesInRange(axis, Trim(b), y);
  }

  lemma DenotesInRange(axis: Axis, text: string, x: int)
    requires Denotes(axis, text, x)
    ensures 0 <= x < axis.Modulus()
  {
  }

  /** A piece with one hyphen: the cyclic interval between the points its two sides name, whatever
      white space is around them; or the error, the left side's first. */
  lemma RangeExactly(axis: Axis, text: string, a: string, b: string)
    requires OneHyphen(Trim(text), a, b) && (axis.Hours? ==> a != "")
    ensures var (l, r) := (Trim(a), Trim(b));
            && (forall x, y :: Denotes(axis, l, x) && Denotes(axis, r, y) ==>
                                 Part(axis, text) == Ok(CyclicInterval(x, y, axis.Modulus())))
            && (axis.Days? ==>
                  && (l !in DAY_NAMES ==> Part(axis, text) == Err(UnknownDay(l)))
                  && (l in DAY_NAMES && r !in DAY_NAMES ==> Part(axis, text) == Err(UnknownDay(r))))
            && (axis.Hours? ==>
                  && ((forall v :: !IsU8(l, v)) ==> Part(axis, text) == Err(BadHour(a)))
                  && (forall v :: IsU8(l, v) && (forall u :: !IsU8(r, u)) ==> Part(axis, text) == Err(BadHour(b)))
                  && (forall v, u :: IsU8(l, v) && IsU8(r, u) && (v > 23 || u > 23) ==>
                                       Part(axis, text) == Err(HourTooLarge(Trim(text)))))
  {
    var q, l, r := Trim(text), Trim(a), Trim(b);
    SplitOneHyphen(q, a, b);
    hide Trim, Split, CyclicInterval;
    forall x, y | Denotes(axis, l, x) && Denotes(axis, r, y)
      ensures Part(axis, text) == Ok(CyclicInterval(x, y, axis.Modulus()))
    {
      hide Part, Denotes;
      RangeDenotes(axis, text, a, x, b, y);
    }
    if axis.Days? {
      forall x ensures DayNumber(l) == Some(x) <==> Denotes(Days, l, x) { DayNumberExactly(l, x); }
      forall x ensures DayNumber(r) == Some(x) <==> Denotes(Days, r, x) { DayNumberExactly(r, x); }
      DayNumberExactly(l, 0);
      DayNumberExactly(r, 0);
      hide DayNumber;
    } else {
      forall v ensures ParseU8(l) == Some(v) <==> IsU8(l, v) { ParseU8Exactly(l, v); }
      forall v ensures ParseU8(r) == Some(v) <==> IsU8(r, v) { ParseU8Exactly(r, v); }
      hide ParseU8, IsU8;
      if ParseU8(l).Some? { assert IsU8(l, ParseU8(l).value); }
      if ParseU8(r).Some? { assert IsU8(r, ParseU8(r).value); }
    }
  }

  /** A piece with more hyphens is malformed. */
  lemma ManyHyphensRefused(axis: Axis, text: string, a: string, b: string, c: string)
    requires ManyHyphens(Trim(text), a, b, c) && (axis.Hours? ==> Trim(text)[0] != '-')
    ensures Part(axis, text) == Err(MalformedRange(Trim(text)))
  {
    hide Trim, Split;
    SplitManyHyphens(Trim(text), a, b, c);
  }

  ghost predicate NamesPoint(axis: Axis, text: string) {
    exists x :: Denotes(axis, text, x)
  }

  ghost predicate NamesRange(axis: Axis, text: string) {
    exists a, b :: OneHyphen(text, a, b) && NamesPoint(axis, Trim(a)) && NamesPoint(axis, Trim(b))
  }

  /** So a piece is accepted exactly when, without white space around it, it names a point, or has one
      hyphen and names a point on either side of it. */
  lemma PieceAcceptedExactly(axis: Axis, text: string)
    ensures Part(axis, text).Ok? <==> NamesPoint(axis, Trim(text)) || NamesRange(axis, Trim(text))
  {
    var q := Trim(text);
    hide Trim, Part, Denotes, IsSpace, CyclicInterval, OneHyphen;
    if Part(axis, text).Ok? { AcceptedIsNamed(axis, text); }
    if NamesPoint(axis, q) {
      var x :| Denotes(axis, q, x);
      DenotesShape(axis, q, x);
      PointExactly(axis, text);
    }
    if NamesRange(axis, q) { NamedRangeAccepted(axis, text); }
  }

  lemma NamedRangeAccepted(axis: Axis, text: string)
    requires NamesRange(axis, Trim(text))
    ensures Part(axis, text).Ok?
  {
    hide Trim, Part, Denotes, IsSpace, CyclicInterval, OneHyphen, NamesPoint;
    var a, b :| OneHyphen(Trim(text), a, b) && NamesPoint(axis, Trim(a)) && NamesPoint(axis, Trim(b));
    SidesNamed(axis, text, a, b);
  }

  lemma SidesNamed(axis: Axis, text: string, a: string, b: string)
    requires OneHyphen(Trim(text), a, b) && NamesPoint(axis, Trim(a)) && NamesPoint(axis, Trim(b))
    ensures Part(axis, text).Ok?
  {
    hide Part, Denotes, IsSpace, CyclicInterval, OneHyphen, Trim;
    var x :| Denotes(axis, Trim(a), x);
    var y :| Denotes(axis, Trim(b), y);
    RangeDenotes(axis, text, a, x, b, y);
  }

  /** The value a point's text was read as. */
  lemma ReadAsPoint(axis: Axis, s: string)
    requires if axis.Days? then DayNumber(s).Some? else ParseU8(s).Some? && ParseU8(s).value <= 23
    ensures NamesPoint(axis, s)
  {
    if axis.Days? {
      DayNumberExactly(s, DayNumber(s).value);
    } else {
      ParseU8Exactly(s, ParseU8(s).value);
    }
    hide DayNumber, ParseU8, IsU8;
    assert Denotes(axis, s, if axis.Days? then DayNumber(s).value else ParseU8(s).value);
  }

  lemma AcceptedIsNamed(axis: Axis, text: string)
    requires Part(axis, text).Ok?
    ensures NamesPoint(axis, Trim(text)) || NamesRange(axis, Trim(text))
  {
    var q := Trim(text);
    hide Trim, Split, CyclicInterval, Denotes, DayNumber, ParseU8, NamesPoint, Join;
    if '-' in q && !(axis.Hours? && q[0] == '-') {
      var ends := Split(q, '-');
      var a, b := ends[0], ends[1];
      TwoPieces(q, a, b);
      ReadAsPoint(axis, Trim(a));
      ReadAsPoint(axis, Trim(b));
    } else {
      ReadAsPoint(axis, q);
    }
  }

  lemma TwoPieces(text: string, a: string, b: string)
    requires Split(text, '-') == [a, b]
    ensures OneHyphen(text, a, b)
  {
    hide Split;
    JoinSplit(text, '-');
    SplitPiecesHaveNoSep(text, '-');
    assert a in [a, b] && b in [a, b];
    assert [a, b][1..] == [b];
  }

  /** A leading zero does not matter to an hour. */
  lemma LeadingZero(d: string, x: int)
    requires d != "" && AllDigits(d) && Denotes(Hours, d, x)
    ensures Denotes(Hours, "0" + d, x)
  {
    var e :| Numeral(d, e, x);
    assert IsDigit(d[0]) && d == e;
    DecimalByDigits(d, '0');
    assert Numeral("0" + d, "0" + d, x);
  }

  /** Padding at all four places of a range, and any way to name its ends, changes nothing. */
  lemma PaddedRangeIsCyclic(axis: Axis, a: string, x: int, b: string, y: int, p0: string, p1: string, p2: string, p3: string)
    requires Denotes(axis, a, x) && Denotes(axis, b, y)
    requires AllSpace(p0) && AllSpace(p1) && AllSpace(p2) && AllSpace(p3)
    ensures Part(axis, p0 + (a + p1 + "-" + p2 + b) + p3) == Ok(CyclicInterval(x, y, axis.Modulus()))
  {
    hide Trim, Part, CyclicInterval, Denotes;
    DenotesShape(axis, a, x);
    DenotesShape(axis, b, y);
    var l, r := a + p1, p2 + b;
    var q := l + "-" + r;
    assert a + p1 + "-" + p2 + b == q;
    assert q[0] == a[0] && q[|q| - 1] == b[|b| - 1];
    TrimPadding(p0, q, p3);
    TrimNoop(q);
    assert "" + a + p1 == l && p2 + b + "" == r;
    TrimPadding("", a, p1);
    TrimNoop(a);
    TrimPadding(p2, b, "");
    TrimNoop(b);
    assert OneHyphen(q, l, r);
    RangeDenotes(axis, p0 + q + p3, l, x, r, y);
  }

  // ---------------------------------------------------------------------------------------
  // The source's loops

  /** `for x in start..=end { result.insert(x) }`, wrapping past the end of the cycle. */
  method InsertRange(points: set<int>, start: int, end: int, n: nat) returns (result: set<int>)
    requires 0 <= start < n && 0 <= end < n
    ensures result == points + CyclicInterval(start, end, n)
    ensures forall x :: 0 <= x < n ==> (x in result <==>
                                        x in points || (if start <= end then start <= x <= end else x >= start || x <= end))
  {
    result := points;
    if start <= end {
      for x := start to end + 1
        invariant result == points + Run(start, x)
      {
        result := result + {x};
      }
    } else {
      for x := start to n
        invariant result == points + Run(start, x)
      {
        result := result + {x};
      }
      ghost var upper := result;
      for x := 0 to end + 1
        invariant result == upper + Run(0, x)
      {
        result := result + {x};
      }
    }
  }

  /** One trimmed piece of a day list. */
  method AddDayPiece(points: set<int>, part: string) returns (r: Result<set<int>, RangeError>)
    ensures r == Merge(Ok(points), DayPart(part))
  {
    hide Split, Trim, CyclicInterval, DayNumber;
    if '-' in part {
      var ends := Split(part, '-');
      if |ends| != 2 {
        return Err(MalformedRange(part));
      }
      var startDay, endDay := Trim(ends[0]), Trim(ends[1]);
      if DayNumber(startDay).None? { return Err(UnknownDay(startDay)); }
      if DayNumber(endDay).None? { return Err(UnknownDay(endDay)); }
      var result := InsertRange(points, DayNumber(startDay).value, DayNumber(endDay).value, 7);
      return Ok(result);
    }
    if DayNumber(part).None? { return Err(UnknownDay(part)); }
    return Ok(points + {DayNumber(part).value});
  }

  /** One trimmed piece of an hour list. */
  method AddHourPiece(points: set<int>, part: string) returns (r: Result<set<int>, RangeError>)
    ensures r == Merge(Ok(points), HourPart(part))
  {
    hide Split, Trim, CyclicInterval, ParseU8;
    if '-' in part && part[0] != '-' {
      var ends := Split(part, '-');
      if |ends| != 2 {
        return Err(MalformedRange(part));
      }
      var startHour := ParseU8(Trim(ends[0]));
      if startHour.None? { return Err(BadHour(ends[0])); }
      var endHour := ParseU8(Trim(ends[1]));
      if endHour.None? { return Err(BadHour(ends[1])); }
      if startHour.value > MAX_HOUR || endHour.value > MAX_HOUR {
        return Err(HourTooLarge(part));
      }
      var result := InsertRange(points, startHour.value, endHour.value, 24);
      return Ok(result);
    }
    var hour := ParseU8(part);
    if hour.None? { return Err(BadHour(part)); }
    if hour.value > MAX_HOUR { return Err(LateHour(hour.value)); }
    return Ok(points + {hour.value});
  }

  method ParseDayRanges(specs: seq<string>) returns (r: Result<set<int>, RangeError>)
    ensures r == ParseRanges(Days, specs)
  {
    assert FoldPieces(Days, Pieces(specs[..0])) == Ok({});
    hide Split, Trim, FoldPieces, Pieces, DayPart;
    var result: set<int> := {};
    for i := 0 to |specs|
      invariant FoldPieces(Days, Pieces(specs[..i])) == Ok(result)
    {
      var pieces := Split(specs[i], ',');
      ghost var before := Pieces(specs[..i]);
      PiecesStep(specs, i);
      assert before + pieces[..0] == before;
      for j := 0 to |pieces|
        invariant FoldPieces(Days, before + pieces[..j]) == Ok(result)
      {
        FoldNext(Days, before, pieces, j, Pieces(specs[i + 1..]));
        r := AddDayPiece(result, Trim(pieces[j]));
        if r.Err? { return; }
        result := r.value;
      }
      assert pieces[..|pieces|] == pieces;
    }
    assert specs[..|specs|] == specs;
    return Ok(result);
  }

  method ParseHourRanges(specs: seq<string>) returns (r: Result<set<int>, RangeError>)
    ensures r == ParseRanges(Hours, specs)
  {
    assert FoldPieces(Hours, Pieces(specs[..0])) == Ok({});
    hide Split, Trim, FoldPieces, Pieces, HourPart;
    var result: set<int> := {};
    for i := 0 to |specs|
      invariant FoldPieces(Hours, Pieces(specs[..i])) == Ok(result)
    {
      var pieces := Split(specs[i], ',');
      ghost var before := Pieces(specs[..i]);
      PiecesStep(specs, i);
      assert before + pieces[..0] == before;
      for j := 0 to |pieces|
        invariant FoldPieces(Hours, before + pieces[..j]) == Ok(result)
      {
        FoldNext(Hours, before, pieces, j, Pieces(specs[i + 1..]));
        r := AddHourPiece(result, Trim(pieces[j]));
        if r.Err? { return; }
        result := r.value;
      }
      assert pieces[..|pieces|] == pieces;
    }
    assert specs[..|specs|] == specs;
    return Ok(result);
  }

  /** The pieces up to and including entry `i`, and the rest. */
  lemma {:induction false} PiecesStep(specs: seq<string>, i: nat)
    requires i < |specs|
    ensures Pieces(specs[..i + 1]) == Pieces(specs[..i]) + Split(specs[i], ',')
    ensures Pieces(specs) == Pieces(specs[..i]) + Split(specs[i], ',') + Pieces(specs[i + 1..])
  {
    PiecesOfOne(specs[i]);
    assert specs[..i + 1] == specs[..i] + [specs[i]];
    PiecesConcat(specs[..i], [specs[i]]);
    assert specs == specs[..i + 1] + specs[i + 1..];
    PiecesConcat(specs[..i + 1], specs[i + 1..]);
  }

  lemma {:induction false} FoldOne(axis: Axis, piece: string)
    ensures FoldPieces(axis, [piece]) == Part(axis, piece)
  {
    hide Part;
    var p := Part(axis, piece);
    assert [piece][1..] == [];
    if p.Ok? { assert p.value + {} == p.value; }
  }

  /** Folding one more piece; an error there is the error of the whole fold. */
  lemma {:induction false} FoldStep(axis: Axis, head: seq<string>, piece: string, tail: seq<string>)
    requires FoldPieces(axis, head).Ok?
    ensures FoldPieces(axis, head + [piece]) == Merge(FoldPieces(axis, head), Part(axis, piece))
    ensures Part(axis, piece).Err? ==> FoldPieces(axis, head + [piece] + tail) == Err(Part(axis, piece).error)
  {
    hide Part, FoldPieces;
    FoldOne(axis, piece);
    FoldConcat(axis, head, [piece]);
    FoldConcat(axis, head + [piece], tail);
  }

  lemma Regroup(before: seq<string>, pieces: seq<string>, j: nat, after: seq<string>)
    requires j < |pieces|
    ensures before + pieces[..j + 1] == before + pieces[..j] + [pieces[j]]
    ensures before + pieces + after == before + pieces[..j] + [pieces[j]] + (pieces[j + 1..] + after)
  {
  }

  /** The same in the middle of an entry's pieces. */
  lemma {:induction false} FoldNext(axis: Axis, before: seq<string>, pieces: seq<string>, j: nat, after: seq<string>)
    requires j < |pieces| && FoldPieces(axis, before + pieces[..j]).Ok?
    ensures FoldPieces(axis, before + pieces[..j + 1]) == Merge(FoldPieces(axis, before + pieces[..j]), Part(axis, pieces[j]))
    ensures Part(axis, pieces[j]).Err? ==> FoldPieces(axis, before + pieces + after) == Err(Part(axis, pieces[j]).error)
  {
    hide Part, FoldPieces;
    Regroup(before, pieces, j, after);
    FoldStep(axis, before + pieces[..j], pieces[j], pieces[j + 1..] + after);
  }
}
