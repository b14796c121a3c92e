/** The string operations of the Rust standard library that the parsers and validators use:
    `split`, `join`, `trim`, byte length and the ASCII character classes. */
module Text {

  /** `s.split(sep)`: always at least one piece; a leading, trailing or doubled separator
      yields an empty piece. */
  function Split(s: string, sep: char): (parts: seq<string>)
    ensures |parts| >= 1
  {
    if s == "" then [""] else Extend(s[0], sep, Split(s[1..], sep))
  }

  /** Put one more character in front of already split text. */
  function Extend(c: char, sep: char, rest: seq<string>): (parts: seq<string>)
    requires |rest| >= 1
    ensures |parts| >= 1
  {
    if c == sep then [""] + rest else [[c] + rest[0]] + rest[1..]
  }

  /** `parts.join(sep)`. */
  function Join(parts: seq<string>, sep: char): string
  {
    if |parts| == 0 then ""
    else if |parts| == 1 then parts[0]
    else parts[0] + [sep] + Join(parts[1..], sep)
  }

  /** Splitting loses nothing: joining the pieces gives the text back. */
  lemma {:induction false} JoinSplit(s: string, sep: char)
    ensures Join(Split(s, sep), sep) == s
  {
    if s != "" {
      JoinSplit(s[1..], sep);
      var rest := Split(s[1..], sep);
      if s[0] == sep {
        assert ([""] + rest)[1..] == rest;
        assert Join([""] + rest, sep) == "" + [sep] + Join(rest, sep);
      } else {
        var head := [s[0]] + rest[0];
        var parts := [head] + rest[1..];
        assert parts[1..] == rest[1..];
        if |rest| > 1 {
          assert Join(parts, sep) == [s[0]] + (rest[0] + [sep] + Join(rest[1..], sep));
        }
      }
    }
  }

  /** No piece of a split contains the separator. */
  lemma {:induction false} SplitPiecesHaveNoSep(s: string, sep: char)
    ensures forall p :: p in Split(s, sep) ==> sep !in p
  {
    if s != "" {
      SplitPiecesHaveNoSep(s[1..], sep);
      var rest := Split(s[1..], sep);
      assert rest[0] in rest;
      forall p | p in Split(s, sep) ensures sep !in p {
        if p !in rest {
          assert p == "" || p == [s[0]] + rest[0];
        }
      }
    }
  }

  /** Text without the separator is a single piece. */
  lemma {:induction false} SplitAtomic(s: string, sep: char)
    requires sep !in s
    ensures Split(s, sep) == [s]
  {
    if s != "" {
      SplitAtomic(s[1..], sep);
      assert [s[0]] + s[1..] == s;
    }
  }

  /** Splitting distributes over a separator. */
  lemma {:induction false} SplitConcat(a: string, b: string, sep: char)
    ensures Split(a + [sep] + b, sep) == Split(a, sep) + Split(b, sep)
  {
    var whole := a + [sep] + b;
    if a == "" {
      assert whole[1..] == b;
    } else {
      assert whole[1..] == a[1..] + [sep] + b;
      SplitConcat(a[1..], b, sep);
      ExtendConcat(a[0], sep, Split(a[1..], sep), Split(b, sep));
    }
  }

  lemma ExtendConcat(c: char, sep: char, rest: seq<string>, more: seq<string>)
    requires |rest| >= 1
    ensures Extend(c, sep, rest + more) == Extend(c, sep, rest) + more
  {
    assert (rest + more)[1..] == rest[1..] + more;
  }

  /** Joining separator-free pieces and splitting again gives the pieces back. */
  lemma {:induction false} SplitJoin(parts: seq<string>, sep: char)
    requires |parts| >= 1
    requires forall p :: p in parts ==> sep !in p
    ensures Split(Join(parts, sep), sep) == parts
  {
    SplitAtomic(parts[0], sep);
    if |parts| > 1 {
      SplitJoin(parts[1..], sep);
      SplitConcat(parts[0], Join(parts[1..], sep), sep);
    }
  }

  /** The Unicode `White_Space` property, which `str::trim` strips. */
  predicate IsSpace(c: char) {
    '\t' <= c <= '\r' || c == ' ' || c == '\U{85}' || c == '\U{A0}' || c == '\U{1680}'
    || '\U{2000}' <= c <= '\U{200A}' || c == '\U{2028}' || c == '\U{2029}'
    || c == '\U{202F}' || c == '\U{205F}' || c == '\U{3000}'
  }

  /** Code point by code point. */
  lemma WhiteSpace(c: char)
    ensures IsSpace(c) <==>
            c as int in {9, 10, 11, 12, 13, 32, 133, 160, 5760, 8192, 8193, 8194, 8195, 8196, 8197, 8198, 8199, 8200,
                         8201, 8202, 8232, 8233, 8239, 8287, 12288}
  {
  }

  function TrimStart(s: string): string {
    if s != "" && IsSpace(s[0]) then TrimStart(s[1..]) else s
  }

  function TrimEnd(s: string): string {
    if s != "" && IsSpace(s[|s| - 1]) then TrimEnd(s[..|s| - 1]) else s
  }

  function Trim(s: string): string { TrimEnd(TrimStart(s)) }

  /** Text with no white space at either end is left alone. */
  lemma TrimNoop(s: string)
    requires s != "" ==> !IsSpace(s[0]) && !IsSpace(s[|s| - 1])
    ensures Trim(s) == s
  {
  }

  predicate AllSpace(s: string) {
    forall i :: 0 <= i < |s| ==> IsSpace(s[i])
  }

  lemma {:induction false} TrimStartPadding(left: string, s: string)
    requires AllSpace(left)
    ensures TrimStart(left + s) == TrimStart(s)
    decreases left
  {
    hide IsSpace;
    if left == "" {
      assert left + s == s;
    } else {
      assert (left + s)[1..] == left[1..] + s;
      TrimStartPadding(left[1..], s);
    }
  }

  lemma {:induction false} TrimEndPadding(s: string, right: string)
    requires AllSpace(right)
    ensures TrimEnd(s + right) == TrimEnd(s)
    decreases right
  {
    hide IsSpace;
    if right == "" {
      assert s + right == s;
    } else {
      var n := |right| - 1;
      assert (s + right)[..|s + right| - 1] == s + right[..n];
      assert (s + right)[|s + right| - 1] == right[n];
      TrimEndPadding(s, right[..n]);
    }
  }

  lemma {:induction false} TrimStartAppend(s: string, right: string)
    requires AllSpace(right)
    ensures TrimStart(s + right) == (if TrimStart(s) == "" then TrimStart(right) else TrimStart(s) + right)
    decreases s
  {
    hide IsSpace;
    if s == "" {
      assert s + right == right;
    } else {
      assert (s + right)[1..] == s[1..] + right;
      if IsSpace(s[0]) { TrimStartAppend(s[1..], right); }
    }
  }

  lemma {:induction false} TrimStartAllSpace(s: string)
    requires AllSpace(s)
    ensures TrimStart(s) == ""
    decreases s
  {
    hide IsSpace;
    if s != "" { TrimStartAllSpace(s[1..]); }
  }

  /** White space around a text does not change what is left of it. */
  lemma {:induction false} TrimPadding(left: string, s: string, right: string)
    requires AllSpace(left) && AllSpace(right)
    ensures Trim(left + s + right) == Trim(s)
  {
    hide IsSpace, TrimStart, TrimEnd;
    assert left + s + right == left + (s + right);
    TrimStartPadding(left, s + right);
    TrimStartAppend(s, right);
    TrimStartAllSpace(right);
    TrimEndPadding(TrimStart(s), right);
  }

  predicate IsLower(c: char) { 'a' <= c <= 'z' }
  predicate IsUpper(c: char) { 'A' <= c <= 'Z' }
  predicate IsDigit(c: char) { '0' <= c <= '9' }
  predicate IsAlnum(c: char) { IsLower(c) || IsUpper(c) || IsDigit(c) }

  /** UTF-8 length of one scalar value. */
  function CharLen(c: char): nat {
    if c <= '\U{7F}' then 1 else if c <= '\U{7FF}' then 2 else if c <= '\U{FFFF}' then 3 else 4
  }

  /** `str::len`: the length in bytes, which is what the source compares. */
  function ByteLen(s: string): nat {
    if s == "" then 0 else CharLen(s[0]) + ByteLen(s[1..])
  }

  /** On ASCII text the byte length is the character count a schema's `maxLength` uses. */
  lemma {:induction false} AsciiByteLen(s: string)
    requires forall i :: 0 <= i < |s| ==> s[i] <= '\U{7F}'
    ensures ByteLen(s) == |s|
  {
    if s != "" { AsciiByteLen(s[1..]); }
  }

  /** UTF-8 takes one to four bytes, more from U+80, U+800 and U+10000 on. */
  lemma Utf8Lengths(c: char)
    ensures c < '\U{80}' <==> CharLen(c) == 1
    ensures '\U{80}' <= c < '\U{800}' <==> CharLen(c) == 2
    ensures '\U{10000}' <= c <==> CharLen(c) == 4
    ensures 1 <= CharLen(c) <= 4
    ensures ByteLen([c]) == CharLen(c)
  {
    assert [c][1..] == "";
  }

  /** Byte lengths add up. */
  lemma {:induction false} ByteLenConcat(a: string, b: string)
    ensures ByteLen(a + b) == ByteLen(a) + ByteLen(b)
    decreases a
  {
    if a == "" {
      assert a + b == b;
    } else {
      assert (a + b)[1..] == a[1..] + b;
      ByteLenConcat(a[1..], b);
    }
  }
}
