/** The agent's own checks of the reference annotation (`parse_kata_ref` in
    `src/kata_config_agent.rs`) against the languages of the CRD schema. */
module KataRef {
  import opened Base
  import opened Text
  import opened Regex

  const MAX_DNS_LABEL_LEN: nat := 63
  const MAX_DNS_SUBDOMAIN_LEN: nat := 253
  const MAX_DATA_KEY_LEN: nat := 253
  const MAX_UNIT_NAME_LEN: nat := 255
  const UNIT_SUFFIX: string := ".service"

  // ---------------------------------------------------------------------------------------
  // The agent's validators

  predicate LabelChar(c: char) { IsLower(c) || IsDigit(c) || c == '-' }

  predicate KeyChar(c: char) { IsAlnum(c) || c == '.' || c == '_' || c == '-' }

  predicate UnitChar(c: char) { IsAlnum(c) || c == '@' || c == '.' || c == '_' || c == '-' }

  predicate UnitStart(c: char) { IsAlnum(c) || c == '@' || c == '.' || c == '_' }

  predicate IsDnsLabel(s: string) {
    && s != "" && ByteLen(s) <= MAX_DNS_LABEL_LEN
    && (forall i :: 0 <= i < |s| ==> LabelChar(s[i]))
    && IsAlnum(s[0]) && IsAlnum(s[|s| - 1])
  }

  predicate IsDnsSubdomain(s: string) {
    && s != "" && ByteLen(s) <= MAX_DNS_SUBDOMAIN_LEN
    && forall i :: 0 <= i < |Split(s, '.')| ==> IsDnsLabel(Split(s, '.')[i])
  }

  predicate IsDataKey(s: string) {
    s != "" && ByteLen(s) <= MAX_DATA_KEY_LEN && forall i :: 0 <= i < |s| ==> KeyChar(s[i])
  }

  predicate EndsWith(s: string, suffix: string) {
    |suffix| <= |s| && s[|s| - |suffix|..] == suffix
  }

  predicate IsSystemdUnit(s: string) {
    && ByteLen(s) <= MAX_UNIT_NAME_LEN && EndsWith(s, UNIT_SUFFIX) && s != UNIT_SUFFIX
    && (forall i :: 0 <= i < |s| ==> UnitChar(s[i]))
    && s != "" && UnitStart(s[0])
  }

  /** The annotation's fields, once its JSON has parsed. */
  datatype Fields = Fields(ns: string, kind: string, name: string, key: string, restartService: string)

  datatype FieldError = BadKind | BadNamespace | BadName | BadKey | BadRestartService

  function CheckFields(f: Fields): Result<Fields, FieldError> {
    if f.kind != "ConfigMap" && f.kind != "Secret" then Err(BadKind)
    else if !IsDnsLabel(f.ns) then Err(BadNamespace)
    else if !IsDnsSubdomain(f.name) then Err(BadName)
    else if !IsDataKey(f.key) then Err(BadKey)
    else if !IsSystemdUnit(f.restartService) then Err(BadRestartService)
    else Ok(f)
  }

  // ---------------------------------------------------------------------------------------
  // The schema's patterns

  const ENDS: seq<(char, char)> := [('a', 'z'), ('0', '9')]
  const MIDS: seq<(char, char)> := [('-', '-'), ('a', 'z'), ('0', '9')]
  const KEYS: seq<(char, char)> := [('A', 'Z'), ('a', 'z'), ('0', '9'), ('.', '.'), ('_', '_'), ('-', '-')]
  const UNIT_STARTS: seq<(char, char)> := [('A', 'Z'), ('a', 'z'), ('0', '9'), ('@', '@'), ('.', '.'), ('_', '_')]
  const UNITS: seq<(char, char)> := [('A', 'Z'), ('a', 'z'), ('0', '9'), ('@', '@'), ('.', '.'), ('_', '_'), ('-', '-')]

  /** `[a-z0-9]([-a-z0-9]*[a-z0-9])?` */
  const LABEL: Rx := Cat(Class(ENDS), Opt(Cat(Rep(Class(MIDS), None), Class(ENDS))))

  /** `LABEL(\.LABEL)*` */
  const SUBDOMAIN: Rx := Cat(LABEL, Rep(Cat(Class(DOT), LABEL), None))

  /** `[A-Za-z0-9._-]+` */
  const KEY: Rx := Cat(Class(KEYS), Rep(Class(KEYS), None))

  /** `[A-Za-z0-9@._][A-Za-z0-9@._-]*\.service` */
  const UNIT: Rx := Cat(Class(UNIT_STARTS), Cat(Rep(Class(UNITS), None), Lit(".service")))

  ghost predicate SchemaNamespace(s: string) { 1 <= |s| <= 63 && Matches(LABEL, s) }

  ghost predicate SchemaName(s: string) { 1 <= |s| <= 253 && Matches(SUBDOMAIN, s) }

  ghost predicate SchemaKey(s: string) { 1 <= |s| <= 253 && Matches(KEY, s) }

  ghost predicate SchemaUnit(s: string) { 1 <= |s| <= 255 && Matches(UNIT, s) }

  lemma InEnds(c: char)
    ensures InClass(ENDS, c) <==> IsLower(c) || IsDigit(c)
  {
    if IsLower(c) { assert ENDS[0].0 <= c <= ENDS[0].1; }
    if IsDigit(c) { assert ENDS[1].0 <= c <= ENDS[1].1; }
  }

  lemma InMids(c: char)
    ensures InClass(MIDS, c) <==> LabelChar(c)
  {
    if c == '-' { assert MIDS[0].0 <= c <= MIDS[0].1; }
    if IsLower(c) { assert MIDS[1].0 <= c <= MIDS[1].1; }
    if IsDigit(c) { assert MIDS[2].0 <= c <= MIDS[2].1; }
  }

  lemma InKeys(c: char)
    ensures InClass(KEYS, c) <==> KeyChar(c)
  {
    if IsUpper(c) { assert KEYS[0].0 <= c <= KEYS[0].1; }
    if IsLower(c) { assert KEYS[1].0 <= c <= KEYS[1].1; }
    if IsDigit(c) { assert KEYS[2].0 <= c <= KEYS[2].1; }
    if c == '.' { assert KEYS[3].0 <= c <= KEYS[3].1; }
    if c == '_' { assert KEYS[4].0 <= c <= KEYS[4].1; }
    if c == '-' { assert KEYS[5].0 <= c <= KEYS[5].1; }
  }

  lemma InUnitStarts(c: char)
    ensures InClass(UNIT_STARTS, c) <==> UnitStart(c)
  {
    if IsUpper(c) { assert UNIT_STARTS[0].0 <= c <= UNIT_STARTS[0].1; }
    if IsLower(c) { assert UNIT_STARTS[1].0 <= c <= UNIT_STARTS[1].1; }
    if IsDigit(c) { assert UNIT_STARTS[2].0 <= c <= UNIT_STARTS[2].1; }
    if c == '@' { assert UNIT_STARTS[3].0 <= c <= UNIT_STARTS[3].1; }
    if c == '.' { assert UNIT_STARTS[4].0 <= c <= UNIT_STARTS[4].1; }
    if c == '_' { assert UNIT_STARTS[5].0 <= c <= UNIT_STARTS[5].1; }
  }

  lemma InUnits(c: char)
    ensures InClass(UNITS, c) <==> UnitChar(c)
  {
    InUnitStarts(c);
    if UnitStart(c) {
      var i :| 0 <= i < |UNIT_STARTS| && UNIT_STARTS[i].0 <= c <= UNIT_STARTS[i].1;
      assert UNITS[i] == UNIT_STARTS[i];
    }
    if c == '-' { assert UNITS[6].0 <= c <= UNITS[6].1; }
  }

  // ---------------------------------------------------------------------------------------
  // Same languages

  /** The label pattern: label characters throughout, alphanumeric at both ends. */
  lemma LabelExactly(s: string)
    ensures Matches(LABEL, s) <==>
            s != "" && (forall i :: 0 <= i < |s| ==> LabelChar(s[i])) && IsAlnum(s[0]) && IsAlnum(s[|s| - 1])
  {
    if s != "" {
      var tail := Cat(Rep(Class(MIDS), None), Class(ENDS));
      OptExactly(tail, s[1..]);
      hide Matches, InClass;
      ClassCat(ENDS, Opt(tail), s);
      InEnds(s[0]);
      InMids(s[0]);
      if |s| > 1 {
        LabelTail(s[1..]);
        assert forall i :: 0 < i < |s| ==> s[i] == s[1..][i - 1];
        assert forall i :: 0 <= i < |s| - 1 ==> s[1..][i] == s[i + 1];
      }
    } else {
      ClassCat(ENDS, Opt(Cat(Rep(Class(MIDS), None), Class(ENDS))), s);
    }
  }

  lemma OptExactly(e: Rx, s: string)
    ensures Matches(Opt(e), s) <==> s == "" || Matches(e, s)
  {
  }

  lemma OneOfClass(ranges: seq<(char, char)>, s: string)
    ensures Matches(Class(ranges), s) <==> |s| == 1 && InClass(ranges, s[0])
  {
  }

  lemma LabelTail(s: string)
    requires s != ""
    ensures Matches(Cat(Rep(Class(MIDS), None), Class(ENDS)), s) <==>
            (forall i :: 0 <= i < |s| ==> LabelChar(s[i])) && IsAlnum(s[|s| - 1])
  {
    hide Matches, InClass;
    var last := |s| - 1;
    forall c ensures InClass(MIDS, c) <==> LabelChar(c) { InMids(c); }
    InEnds(s[last]);
    ClassStar(MIDS, s[..last]);
    OneOfClass(ENDS, s[last..]);
    if Matches(Cat(Rep(Class(MIDS), None), Class(ENDS)), s) {
      var x, y := CatElim(Rep(Class(MIDS), None), Class(ENDS), s);
      OneOfClass(ENDS, y);
      assert x == s[..last] && y == s[last..];
      ClassStar(MIDS, x);
    }
    if (forall i :: 0 <= i < |s| ==> LabelChar(s[i])) && IsAlnum(s[last]) {
      CatIntro(Rep(Class(MIDS), None), Class(ENDS), s[..last], s[last..]);
      assert s[..last] + s[last..] == s;
    }
  }

  lemma LabelsAreAscii(s: string)
    requires forall i :: 0 <= i < |s| ==> LabelChar(s[i])
    ensures ByteLen(s) == |s|
  {
    AsciiByteLen(s);
  }

  /** Namespaces: the agent accepts exactly what the schema admits. */
  lemma NamespaceExactly(s: string)
    ensures IsDnsLabel(s) <==> SchemaNamespace(s)
  {
    hide Matches, ByteLen;
    LabelExactly(s);
    if forall i :: 0 <= i < |s| ==> LabelChar(s[i]) { LabelsAreAscii(s); }
  }

  lemma LabelIsDotFree()
    ensures DotFree(LABEL)
  {
    hide Matches;
    forall x | Matches(LABEL, x) ensures '.' !in x { LabelExactly(x); }
  }

  lemma {:induction false} LabelsJoinAscii(parts: seq<string>)
    requires forall i :: 0 <= i < |parts| ==> forall j :: 0 <= j < |parts[i]| ==> LabelChar(parts[i][j])
    ensures forall i :: 0 <= i < |Join(parts, '.')| ==> Join(parts, '.')[i] <= '\U{7F}'
    decreases parts
  {
    if |parts| > 1 { LabelsJoinAscii(parts[1..]); }
  }

  /** Names: the agent accepts what the schema admits and no label of which exceeds 63 characters,
      a cap the schema does not have. */
  lemma NameExactly(s: string)
    ensures IsDnsSubdomain(s) <==>
            SchemaName(s) && forall i :: 0 <= i < |Split(s, '.')| ==> |Split(s, '.')[i]| <= MAX_DNS_LABEL_LEN
  {
    hide Matches, Split, Join, ByteLen, IsDnsLabel;
    LabelIsDotFree();
    DottedPattern(LABEL, None, s);
    var ps := Split(s, '.');
    JoinSplit(s, '.');
    forall i | 0 <= i < |ps|
      ensures IsDnsLabel(ps[i]) <==> Matches(LABEL, ps[i]) && |ps[i]| <= MAX_DNS_LABEL_LEN
      ensures Matches(LABEL, ps[i]) ==> forall j :: 0 <= j < |ps[i]| ==> LabelChar(ps[i][j])
    {
      NamespaceExactly(ps[i]);
      LabelExactly(ps[i]);
    }
    if EachMatches(LABEL, ps) {
      LabelsJoinAscii(ps);
      AsciiByteLen(s);
    }
  }

  /** Data keys: the agent accepts exactly what the schema admits. */
  lemma KeyExactly(s: string)
    ensures IsDataKey(s) <==> SchemaKey(s)
  {
    hide Matches, InClass, ByteLen;
    ClassCat(KEYS, Rep(Class(KEYS), None), s);
    forall c ensures InClass(KEYS, c) <==> KeyChar(c) { InKeys(c); }
    if s != "" {
      ClassStar(KEYS, s[1..]);
      assert forall i :: 0 < i < |s| ==> s[i] == s[1..][i - 1];
      assert forall i :: 0 <= i < |s| - 1 ==> s[1..][i] == s[i + 1];
      if forall i :: 0 <= i < |s| ==> KeyChar(s[i]) { AsciiByteLen(s); }
    }
  }

  lemma UnitTail(s: string)
    ensures Matches(Cat(Rep(Class(UNITS), None), Lit(".service")), s) <==>
            EndsWith(s, UNIT_SUFFIX) && AllIn(UNITS, s[..|s| - |UNIT_SUFFIX|])
  {
    if Matches(Cat(Rep(Class(UNITS), None), Lit(".service")), s) {
      var x, y := CatElim(Rep(Class(UNITS), None), Lit(".service"), s);
      hide Matches, InClass;
      ClassStar(UNITS, x);
      assert s[..|s| - |UNIT_SUFFIX|] == x && s[|s| - |UNIT_SUFFIX|..] == y;
    }
    if EndsWith(s, UNIT_SUFFIX) && AllIn(UNITS, s[..|s| - |UNIT_SUFFIX|]) {
      var x := s[..|s| - |UNIT_SUFFIX|];
      ClassStar(UNITS, x);
      assert Matches(Lit(".service"), UNIT_SUFFIX);
      hide Matches, InClass;
      CatIntro(Rep(Class(UNITS), None), Lit(".service"), x, UNIT_SUFFIX);
      assert x + UNIT_SUFFIX == s;
    }
  }

  lemma SuffixIsUnit()
    ensures forall i :: 0 <= i < |UNIT_SUFFIX| ==> UnitChar(UNIT_SUFFIX[i])
  {
  }

  /** Units: the agent accepts exactly what the schema admits; in particular nothing that starts with
      a hyphen. */
  lemma UnitExactly(s: string)
    ensures IsSystemdUnit(s) <==> SchemaUnit(s)
    ensures SchemaUnit(s) ==> s[0] != '-'
  {
    hide Matches, InClass, ByteLen;
    ClassCat(UNIT_STARTS, Cat(Rep(Class(UNITS), None), Lit(".service")), s);
    if s != "" {
      InUnitStarts(s[0]);
      InUnits(s[0]);
      UnitTail(s[1..]);
      forall c ensures InClass(UNITS, c) <==> UnitChar(c) { InUnits(c); }
      if |s| > |UNIT_SUFFIX| && EndsWith(s, UNIT_SUFFIX) {
        UnitBody(s);
        if forall i :: 0 <= i < |s| ==> UnitChar(s[i]) { AsciiByteLen(s); }
      }
    }
  }

  /** Of a suffixed text, only the part before the suffix has anything left to prove. */
  lemma UnitBody(s: string)
    requires |s| > |UNIT_SUFFIX| && EndsWith(s, UNIT_SUFFIX)
    ensures EndsWith(s[1..], UNIT_SUFFIX)
    ensures var body := s[1..][..|s| - 1 - |UNIT_SUFFIX|];
            (forall i :: 0 <= i < |s| ==> UnitChar(s[i])) <==>
            UnitChar(s[0]) && forall i :: 0 <= i < |body| ==> UnitChar(body[i])
  {
    SuffixIsUnit();
    hide UnitChar;
    var n := |s| - |UNIT_SUFFIX|;
    var body, suffix := s[1..][..n - 1], s[n..];
    assert s == [s[0]] + body + suffix;
    assert s[1..][n - 1..] == suffix;
    assert forall i :: 0 <= i < |s| ==> s[i] == if i == 0 then s[0] else if i < n then body[i - 1] else suffix[i - n];
    assert forall i :: 0 <= i < |body| ==> body[i] == s[i + 1];
  }

  /** The whole check: a reference passes exactly when its kind is one of the two and every other
      field is in its schema language, with the extra cap on the labels of the name; it then stands as
      it was given, and otherwise the first bad field is named. */
  lemma ReferenceExactly(f: Fields)
    ensures CheckFields(f).Ok? <==>
            && f.kind in ["ConfigMap", "Secret"]
            && SchemaNamespace(f.ns) && SchemaName(f.name) && SchemaKey(f.key) && SchemaUnit(f.restartService)
            && forall i :: 0 <= i < |Split(f.name, '.')| ==> |Split(f.name, '.')[i]| <= 63
    ensures CheckFields(f).Ok? ==> CheckFields(f).value == f
    ensures CheckFields(f).Err? ==>
              match CheckFields(f).error
              case BadKind => f.kind !in ["ConfigMap", "Secret"]
              case BadNamespace => f.kind in ["ConfigMap", "Secret"] && !SchemaNamespace(f.ns)
              case BadName => SchemaNamespace(f.ns) && !IsDnsSubdomain(f.name)
              case BadKey => IsDnsSubdomain(f.name) && !SchemaKey(f.key)
              case BadRestartService => SchemaKey(f.key) && !SchemaUnit(f.restartService)
  {
    hide IsDnsLabel, IsDnsSubdomain, IsDataKey, IsSystemdUnit, SchemaNamespace, SchemaName, SchemaKey, SchemaUnit, Split;
    NamespaceExactly(f.ns);
    NameExactly(f.name);
    KeyExactly(f.key);
    UnitExactly(f.restartService);
  }
}
