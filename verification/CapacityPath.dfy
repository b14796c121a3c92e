/** Capacity fields and drain paths (`src/reconcilers/capacity_path.rs`): validation against the CRD
    schema's language, injection into a template, and readback. */
module CapacityPath {
  import opened Base
  import opened Text
  import opened Regex
  import opened Json

  const MAX_LEN: nat := 253
  const PATH_MAX_SEGMENTS: nat := 8
  const FIELD_MAX_SEGMENTS: nat := 7
  const RESERVED_ROOTS: seq<string> := ["spec", "metadata", "status"]
  const DRAINED_PREFIX: string := "status."

  datatype PathError =
    | Empty
    | TooLong(len: nat)
    | TooManySegments(count: nat)
    | InvalidSegment(segment: string)
    | WrongPrefix(found: string)
    | ReservedRootSegment(segment: string)
    | TemplateSetsCapacityField
    | NotAnObject(at: seq<string>)

  type Validated = Result<seq<string>, PathError>

  predicate IsCamelCaseField(segment: string) {
    segment != "" && IsLower(segment[0]) && forall i :: 0 < i < |segment| ==> IsAlnum(segment[i])
  }

  /** The first segment that is not a field name. */
  function FirstInvalid(segments: seq<string>): (r: Option<string>)
    ensures r.None? <==> forall i :: 0 <= i < |segments| ==> IsCamelCaseField(segments[i])
    ensures r.Some? ==> exists i :: 0 <= i < |segments| && segments[i] == r.value && !IsCamelCaseField(segments[i])
                                    && forall j :: 0 <= j < i ==> IsCamelCaseField(segments[j])
  {
    if segments == [] then None
    else if !IsCamelCaseField(segments[0]) then Some(segments[0])
    else
      var r := FirstInvalid(segments[1..]);
      assert forall i :: 0 < i < |segments| ==> segments[i] == segments[1..][i - 1];
      assert r.Some? ==>
          exists i :: 0 <= i < |segments| && segments[i] == r.value && !IsCamelCaseField(segments[i])
                      && forall j :: 0 <= j < i ==> IsCamelCaseField(segments[j]) by {
        if r.Some? {
          var i :| 0 <= i < |segments[1..]| && segments[1..][i] == r.value && !IsCamelCaseField(segments[1..][i])
                   && forall j :: 0 <= j < i ==> IsCamelCaseField(segments[1..][j]);
          assert segments[i + 1] == r.value;
        }
      }
      r
  }

  function ValidateSegments(path: string, maxSegments: nat): Validated {
    if path == "" then Err(Empty)
    else if ByteLen(path) > MAX_LEN then Err(TooLong(ByteLen(path)))
    else
      var segments := Split(path, '.');
      if |segments| > maxSegments then Err(TooManySegments(|segments|))
      else
        var bad := FirstInvalid(segments);
        if bad.Some? then Err(InvalidSegment(bad.value)) else Ok(segments)
  }

  function ValidateCapacityField(field: string): Validated {
    var segments := ValidateSegments(field, FIELD_MAX_SEGMENTS);
    if segments.Ok? && segments.value != [] && segments.value[0] in RESERVED_ROOTS
    then Err(ReservedRootSegment(segments.value[0]))
    else segments
  }

  function ValidateDrainedPath(path: string): Validated {
    if path == "" then Err(Empty)
    else if !(DRAINED_PREFIX <= path) then Err(WrongPrefix(path))
    else ValidateSegments(path, PATH_MAX_SEGMENTS)
  }

  // ---------------------------------------------------------------------------------------
  // The schema

  const LOWER: seq<(char, char)> := [('a', 'z')]
  const ALNUM: seq<(char, char)> := [('a', 'z'), ('A', 'Z'), ('0', '9')]

  /** `[a-z][a-zA-Z0-9]*` */
  const SEGMENT: Rx := Cat(Class(LOWER), Rep(Class(ALNUM), None))

  /** `^SEGMENT(\.SEGMENT){0,n}$` */
  function Pattern(n: nat): Rx {
    Cat(SEGMENT, Rep(Cat(Class(DOT), SEGMENT), Some(n)))
  }

  /** The CEL rule on the field: it does not match `^(spec|metadata|status)([.]|$)`. */
  predicate NoReservedRoot(s: string) {
    && s != "spec" && !("spec" + "." <= s)
    && s != "metadata" && !("metadata" + "." <= s)
    && s != "status" && !("status" + "." <= s)
  }

  /** What the schema of `spec.capacity.field` admits. */
  ghost predicate SchemaAdmitsField(s: string) {
    1 <= |s| <= 253 && Matches(Pattern(6), s) && NoReservedRoot(s)
  }

  /** What the schema of `spec.handback.drainedPath` admits. */
  ghost predicate SchemaAdmitsDrainedPath(s: string) {
    8 <= |s| <= 253 && Matches(Pattern(7), s) && "status." <= s
  }

  lemma InLower(c: char)
    ensures InClass(LOWER, c) <==> IsLower(c)
  {
    if IsLower(c) { assert LOWER[0].0 <= c <= LOWER[0].1; }
  }

  lemma InAlnum(c: char)
    ensures InClass(ALNUM, c) <==> IsAlnum(c)
  {
    if IsLower(c) { assert ALNUM[0].0 <= c <= ALNUM[0].1; }
    if IsUpper(c) { assert ALNUM[1].0 <= c <= ALNUM[1].1; }
    if IsDigit(c) { assert ALNUM[2].0 <= c <= ALNUM[2].1; }
  }

  /** A segment of the pattern is a field name of the validator. */
  lemma SegmentExactly(s: string)
    ensures Matches(SEGMENT, s) <==> IsCamelCaseField(s)
  {
    hide Matches, InClass;
    ClassCat(LOWER, Rep(Class(ALNUM), None), s);
    if s != "" {
      InLower(s[0]);
      ClassStar(ALNUM, s[1..]);
      forall c ensures InClass(ALNUM, c) <==> IsAlnum(c) { InAlnum(c); }
      assert forall i :: 0 < i < |s| ==> s[i] == s[1..][i - 1];
      assert forall i :: 0 <= i < |s[1..]| ==> s[1..][i] == s[i + 1];
    }
  }

  lemma SegmentIsDotFree()
    ensures DotFree(SEGMENT)
  {
    hide Matches;
    forall x | Matches(SEGMENT, x) ensures '.' !in x { SegmentExactly(x); }
  }

  ghost predicate AllFieldNames(segments: seq<string>) {
    forall i :: 0 <= i < |segments| ==> IsCamelCaseField(segments[i])
  }

  /** The pattern is the split-and-scan test. */
  lemma PatternExactly(n: nat, s: string)
    ensures Matches(Pattern(n), s) <==> |Split(s, '.')| <= n + 1 && AllFieldNames(Split(s, '.'))
  {
    hide Matches, IsCamelCaseField, Split;
    SegmentIsDotFree();
    DottedPattern(SEGMENT, Some(n), s);
    forall x ensures Matches(SEGMENT, x) <==> IsCamelCaseField(x) { SegmentExactly(x); }
  }

  lemma {:induction false} FieldNamesAreAscii(segments: seq<string>)
    requires AllFieldNames(segments)
    ensures forall i :: 0 <= i < |Join(segments, '.')| ==> Join(segments, '.')[i] <= '\U{7F}'
    decreases segments
  {
    if |segments| > 1 {
      FieldNamesAreAscii(segments[1..]);
    }
  }

  /** The length test on bytes is the schema's length test on characters, for all that matches. */
  lemma MatchingIsAscii(s: string)
    requires AllFieldNames(Split(s, '.'))
    ensures ByteLen(s) == |s|
  {
    hide Split, Join, ByteLen, IsCamelCaseField;
    JoinSplit(s, '.');
    FieldNamesAreAscii(Split(s, '.'));
    AsciiByteLen(s);
  }

  /** `validate_segments` accepts exactly the pattern's texts of at most 253 characters, and returns
      their pieces. */
  lemma SegmentsExactly(s: string, n: nat)
    ensures ValidateSegments(s, n + 1).Ok? <==> 1 <= |s| <= 253 && Matches(Pattern(n), s)
    ensures ValidateSegments(s, n + 1).Ok? ==>
              && ValidateSegments(s, n + 1).value == Split(s, '.')
              && Join(ValidateSegments(s, n + 1).value, '.') == s
              && AllFieldNames(ValidateSegments(s, n + 1).value)
  {
    hide Matches, IsCamelCaseField, Split, Join, ByteLen;
    PatternExactly(n, s);
    JoinSplit(s, '.');
    if AllFieldNames(Split(s, '.')) { MatchingIsAscii(s); }
  }

  /** A text starts with the segment `root` exactly when it is `root` or starts with `root.`. */
  lemma FirstSegment(s: string, root: string)
    requires '.' !in root
    ensures Split(s, '.')[0] == root <==> s == root || root + "." <= s
  {
    hide Split, Join;
    SplitHead(s);
    var ps := Split(s, '.');
    if s == root { SplitAtomic(root, '.'); }
    if root + "." <= s {
      var rest := s[|root| + 1..];
      assert s == root + "." + rest;
      SplitConcat(root, rest, '.');
      SplitAtomic(root, '.');
    }
  }

  /** The first segment is reserved exactly when the rule on the text says so. */
  lemma ReservedExactly(s: string)
    ensures Split(s, '.')[0] in RESERVED_ROOTS <==> !NoReservedRoot(s)
  {
    hide Split;
    FirstSegment(s, "spec");
    FirstSegment(s, "metadata");
    FirstSegment(s, "status");
    var first := Split(s, '.')[0];
    assert first in RESERVED_ROOTS <==> first == "spec" || first == "metadata" || first == "status" by {
      assert RESERVED_ROOTS[0] == "spec" && RESERVED_ROOTS[1] == "metadata" && RESERVED_ROOTS[2] == "status";
    }
  }

  /** The field validator and the field's schema accept the same language. */
  lemma CapacityFieldExactly(field: string)
    ensures ValidateCapacityField(field).Ok? <==> SchemaAdmitsField(field)
    ensures ValidateCapacityField(field).Ok? ==>
              && Join(ValidateCapacityField(field).value, '.') == field
              && 1 <= |ValidateCapacityField(field).value| <= FIELD_MAX_SEGMENTS
  {
    hide Matches, Split, Join, ByteLen, ValidateSegments;
    SegmentsExactly(field, 6);
    ReservedExactly(field);
    hide NoReservedRoot;
    if ValidateSegments(field, FIELD_MAX_SEGMENTS).Ok? { PatternExactly(6, field); }
  }

  /** The drain-path validator and its schema accept the same language: the schema's lower bound of
      eight characters is what the prefix and a non-empty second segment already demand. */
  lemma DrainedPathExactly(path: string)
    ensures ValidateDrainedPath(path).Ok? <==> SchemaAdmitsDrainedPath(path)
    ensures ValidateDrainedPath(path).Ok? ==>
              && Join(ValidateDrainedPath(path).value, '.') == path
              && ValidateDrainedPath(path).value[0] == "status"
              && |ValidateDrainedPath(path).value| >= 2
  {
    hide Matches, Split, Join, ByteLen, ValidateSegments, IsCamelCaseField;
    SegmentsExactly(path, 7);
    assert DRAINED_PREFIX == "status" + ".";
    assert '.' !in "status";
    if DRAINED_PREFIX <= path && ValidateSegments(path, PATH_MAX_SEGMENTS).Ok? {
      FirstSegment(path, "status");
      var rest := path[7..];
      assert path == "status" + "." + rest;
      SplitConcat("status", rest, '.');
      SplitAtomic("status", '.');
      var ps := Split(path, '.');
      if rest == "" {
        SplitAtomic("", '.');
        assert ps[1] == "";
        assert IsCamelCaseField(ps[1]);
        NoEmptyFieldName();
        assert false;
      }
    }
  }

  /** Why a path is refused, the first reason first: it is empty, too long in bytes, has too many
      segments, or a segment that is no field name, the first of them being reported. */
  ghost predicate Refuses(path: string, maxSegments: nat, e: PathError) {
    var segments := Split(path, '.');
    match e
    case Empty => path == ""
    case TooLong(n) => n == ByteLen(path) > 253
    case TooManySegments(n) => path != "" && ByteLen(path) <= 253 && n == |segments| > maxSegments
    case InvalidSegment(s) =>
      && path != "" && ByteLen(path) <= 253 && |segments| <= maxSegments
      && exists i :: 0 <= i < |segments| && segments[i] == s && !Matches(SEGMENT, s)
                     && forall j :: 0 <= j < i ==> Matches(SEGMENT, segments[j])
    case _ => false
  }

  lemma SegmentsRefusedExactly(path: string, maxSegments: nat)
    ensures var r := ValidateSegments(path, maxSegments);
            if r.Err? then Refuses(path, maxSegments, r.error) && !r.error.ReservedRootSegment?
            else r.value == Split(path, '.')
  {
    hide Matches, Split, ByteLen;
    var segments := Split(path, '.');
    var r := ValidateSegments(path, maxSegments);
    forall i | 0 <= i < |segments| ensures Matches(SEGMENT, segments[i]) <==> IsCamelCaseField(segments[i]) {
      SegmentExactly(segments[i]);
    }
    hide IsCamelCaseField;
    if r.Err? && r.error.InvalidSegment? {
      var i :| 0 <= i < |segments| && segments[i] == r.error.segment && !IsCamelCaseField(segments[i])
               && forall j :: 0 <= j < i ==> IsCamelCaseField(segments[j]);
      assert !Matches(SEGMENT, segments[i]);
    }
  }

  /** Why a field is refused: as a path of at most seven segments, or for a reserved root. */
  lemma FieldRefusedExactly(field: string)
    ensures var r := ValidateCapacityField(field);
            if r.Ok? then r.value == Split(field, '.')
            else if r.error.ReservedRootSegment? then
              && r.error.segment == Split(field, '.')[0] && r.error.segment in ["spec", "metadata", "status"]
              && 1 <= |field| <= 253 && Matches(Pattern(6), field)
            else Refuses(field, 7, r.error)
  {
    hide Matches, Split, ByteLen, ValidateSegments, Refuses, Pattern, Join, IsCamelCaseField;
    SegmentsRefusedExactly(field, 7);
    SegmentsExactly(field, 6);
  }

  /** Why a drain path is refused: it is empty, does not start with the status prefix, or is refused as a
      path of at most eight segments. */
  lemma DrainedPathRefusedExactly(path: string)
    ensures var r := ValidateDrainedPath(path);
            if r.Ok? then r.value == Split(path, '.')
            else if path == "" then r.error == Empty
            else if !("status." <= path) then r.error == WrongPrefix(path)
            else Refuses(path, 8, r.error)
  {
    hide Matches, Split, ByteLen, ValidateSegments, Refuses;
    SegmentsRefusedExactly(path, 8);
  }

  lemma NoEmptyFieldName()
    ensures !IsCamelCaseField("")
  {
  }

  // ---------------------------------------------------------------------------------------
  // Reading

  /** Follow object members. */
  function LookupPath(j: Json, path: seq<string>): Option<Json>
    decreases path
  {
    if path == [] then Some(j)
    else
      var member := Get(j, path[0]);
      if member.None? then None else LookupPath(member.value, path[1..])
  }

  function ReadAt(obj: Json, path: string): Option<int> {
    if path == "" then None
    else
      var leaf := LookupPath(obj, Split(path, '.'));
      if leaf.None? then None else AsI64(leaf.value)
  }

  /** `read_i64_at`: a cursor moved down the path. */
  method ReadI64At(obj: Json, path: string) returns (r: Option<int>)
    ensures r == ReadAt(obj, path)
    ensures forall v :: r == Some(v) <==>
              && path != "" && LookupPath(obj, Split(path, '.')) == Some(Num(v))
              && -9_223_372_036_854_775_808 <= v <= 9_223_372_036_854_775_807
  {
    if path == "" { return None; }
    var segments := Split(path, '.');
    var node := obj;
    for i := 0 to |segments|
      invariant LookupPath(obj, segments) == LookupPath(node, segments[i..])
    {
      assert segments[i..][1..] == segments[i + 1..];
      var member := Get(node, segments[i]);
      if member.None? { return None; }
      node := member.value;
    }
    assert segments[|segments|..] == [];
    return AsI64(node);
  }

  // ---------------------------------------------------------------------------------------
  // Injection

  /** Insert `value` at `path` below `node`, creating missing objects on the way. `at` is the path
      already walked. */
  function InjectAt(node: Json, at: seq<string>, path: seq<string>, value: int): Result<Json, PathError>
    requires path != []
    decreases path
  {
    if !node.Obj? then Err(NotAnObject(at))
    else if |path| == 1 then
      if path[0] in node.fields then Err(TemplateSetsCapacityField)
      else Ok(Obj(node.fields[path[0] := Num(value)]))
    else
      var child := if path[0] in node.fields then node.fields[path[0]] else Obj(map[]);
      var r := InjectAt(child, at + [path[0]], path[1..], value);
      if r.Err? then r else Ok(Obj(node.fields[path[0] := r.value]))
  }

  function InjectCapacityField(template: Json, field: string, value: int): Result<Json, PathError> {
    var segments := ValidateCapacityField(field);
    if segments.Err? then Err(segments.error)
    else if segments.value == [] then Err(Empty)
    else InjectAt(template, [], segments.value, value)
  }

  /** Put `node` back below the objects it was reached through. */
  function Plug(spine: seq<map<string, Json>>, keys: seq<string>, node: Json): Json
    requires |spine| == |keys|
    decreases |spine|
  {
    if spine == [] then node
    else
      var last := |spine| - 1;
      Plug(spine[..last], keys[..last], Obj(spine[last][keys[last] := node]))
  }

  function PlugResult(spine: seq<map<string, Json>>, keys: seq<string>, r: Result<Json, PathError>): Result<Json, PathError>
    requires |spine| == |keys|
  {
    if r.Err? then r else Ok(Plug(spine, keys, r.value))
  }

  /** The source's walk: down through the parents, creating what is missing, then one insert at the
      leaf, which shows through all of them. */
  method InjectByWalking(template: Json, field: string, value: int) returns (r: Result<Json, PathError>)
    ensures r == InjectCapacityField(template, field, value)
  {
    hide ValidateCapacityField;
    var segments := ValidateCapacityField(field);
    if segments.Err? { return Err(segments.error); }
    if segments.value == [] { return Err(Empty); }
    var path := segments.value;
    if !template.Obj? { return Err(NotAnObject([])); }
    var leaf := |path| - 1;
    var node := template;
    var spine: seq<map<string, Json>> := [];
    assert path[0..] == path && path[..0] == [];
    for depth := 0 to leaf
      invariant |spine| == depth && node.Obj?
      invariant InjectAt(template, [], path, value) ==
                PlugResult(spine, path[..depth], InjectAt(node, path[..depth], path[depth..], value))
    {
      WalkStep(spine, node, path, depth, value);
      var child := if path[depth] in node.fields then node.fields[path[depth]] else Obj(map[]);
      if !child.Obj? { return Err(NotAnObject(path[..depth + 1])); }
      spine := spine + [node.fields];
      node := child;
    }
    if path[leaf] in node.fields { return Err(TemplateSetsCapacityField); }
    assert path[leaf..] == [path[leaf]];
    return Ok(Plug(spine, path[..leaf], Obj(node.fields[path[leaf] := Num(value)])));
  }

  /** One level down. */
  lemma WalkStep(spine: seq<map<string, Json>>, node: Json, path: seq<string>, depth: nat, value: int)
    requires |spine| == depth < |path| - 1 && node.Obj?
    ensures var child := if path[depth] in node.fields then node.fields[path[depth]] else Obj(map[]);
            PlugResult(spine, path[..depth], InjectAt(node, path[..depth], path[depth..], value)) ==
            PlugResult(spine + [node.fields], path[..depth + 1], InjectAt(child, path[..depth + 1], path[depth + 1..], value))
  {
    var here, deeper := path[depth..], spine + [node.fields];
    assert here[1..] == path[depth + 1..] && here[0] == path[depth];
    assert path[..depth] + [path[depth]] == path[..depth + 1];
    assert deeper[..depth] == spine && path[..depth + 1][..depth] == path[..depth];
  }

  /** Everything on the way to the leaf is an object or absent, and the leaf is absent. */
  ghost predicate Open(node: Json, path: seq<string>) {
    && (forall k :: 0 <= k < |path| ==>
          LookupPath(node, path[..k]).None? || LookupPath(node, path[..k]).value.Obj?)
    && LookupPath(node, path).None?
  }

  lemma {:induction false} OpenStep(node: Json, path: seq<string>)
    requires |path| > 1 && node.Obj? && path[0] in node.fields
    ensures Open(node, path) <==> Open(node.fields[path[0]], path[1..])
  {
    var child, rest := node.fields[path[0]], path[1..];
    forall k | 0 < k <= |path| ensures LookupPath(node, path[..k]) == LookupPath(child, rest[..k - 1]) {
      assert path[..k][1..] == rest[..k - 1];
    }
    assert path[..|path|] == path && rest[..|rest|] == rest;
    if Open(child, rest) {
      forall k | 0 <= k < |path| ensures LookupPath(node, path[..k]).None? || LookupPath(node, path[..k]).value.Obj? {
        if k == 0 { assert path[..0] == []; }
      }
    }
    if Open(node, path) {
      forall k | 0 <= k < |rest| ensures LookupPath(child, rest[..k]).None? || LookupPath(child, rest[..k]).value.Obj? {
        assert LookupPath(node, path[..k + 1]) == LookupPath(child, rest[..k]);
      }
    }
  }

  lemma {:induction false} AbsentIsOpen(node: Json, path: seq<string>)
    requires path != [] && node.Obj? && path[0] !in node.fields
    ensures Open(node, path)
  {
    forall k | 0 <= k < |path| ensures LookupPath(node, path[..k]).None? || LookupPath(node, path[..k]).value.Obj? {
      if k == 0 { assert path[..0] == []; } else { assert path[..k][0] == path[0]; }
    }
  }

  /** Injection succeeds exactly when the way is open. */
  lemma {:induction false} InjectSucceedsExactly(node: Json, at: seq<string>, path: seq<string>, value: int)
    requires path != []
    ensures InjectAt(node, at, path, value).Ok? <==> Open(node, path)
    decreases path
  {
    hide LookupPath;
    if !node.Obj? {
      LookupNothing(node);
      assert path[..0] == [];
    } else if path[0] !in node.fields {
      AbsentIsOpen(node, path);
      if |path| > 1 {
        InjectSucceedsExactly(Obj(map[]), at + [path[0]], path[1..], value);
        AbsentIsOpen(Obj(map[]), path[1..]);
      }
    } else if |path| == 1 {
      LookupOne(node, path);
    } else {
      OpenStep(node, path);
      InjectSucceedsExactly(node.fields[path[0]], at + [path[0]], path[1..], value);
    }
  }

  /** Why it fails: the leaf is already set, or some object on the way is not one, and the error names
      the way to it. */
  lemma {:induction false} InjectFailsExactly(node: Json, at: seq<string>, path: seq<string>, value: int)
    requires path != [] && InjectAt(node, at, path, value).Err?
    ensures match InjectAt(node, at, path, value).error
            case TemplateSetsCapacityField => LookupPath(node, path).Some?
            case NotAnObject(where) =>
              exists k :: 0 <= k < |path| && where == at + path[..k]
                          && LookupPath(node, path[..k]).Some? && !LookupPath(node, path[..k]).value.Obj?
            case _ => false
    decreases path
  {
    if !node.Obj? {
      assert path[..0] == [] && at + path[..0] == at;
      assert LookupPath(node, path[..0]) == Some(node);
    } else if |path| == 1 {
      LookupOne(node, path);
    } else {
      var child := if path[0] in node.fields then node.fields[path[0]] else Obj(map[]);
      InjectFailsExactly(child, at + [path[0]], path[1..], value);
      var e := InjectAt(child, at + [path[0]], path[1..], value).error;
      if path[0] !in node.fields {
        AbsentIsOpen(child, path[1..]);
        InjectSucceedsExactly(child, at + [path[0]], path[1..], value);
        assert false;
      }
      if e.NotAnObject? {
        var k :| 0 <= k < |path[1..]| && e.at == at + [path[0]] + path[1..][..k]
                 && LookupPath(child, path[1..][..k]).Some? && !LookupPath(child, path[1..][..k]).value.Obj?;
        assert path[..k + 1][1..] == path[1..][..k] && path[..k + 1][0] == path[0];
        assert e.at == at + path[..k + 1];
        assert LookupPath(node, path[..k + 1]) == LookupPath(child, path[1..][..k]);
      }
    }
  }

  lemma LookupNothing(node: Json)
    ensures LookupPath(node, []) == Some(node)
  {
  }

  lemma LookupOne(node: Json, path: seq<string>)
    requires |path| == 1
    ensures LookupPath(node, path) == Get(node, path[0])
  {
    assert path[1..] == [];
  }

  /** After injection the field reads back, and every other lookup that is not on the way to it is
      what it was. */
  lemma {:induction false} InjectReadsBack(node: Json, at: seq<string>, path: seq<string>, value: int, other: seq<string>)
    requires path != [] && InjectAt(node, at, path, value).Ok?
    ensures var r := InjectAt(node, at, path, value).value;
            && LookupPath(r, path) == Some(Num(value))
            && (!(other <= path) ==> LookupPath(r, other) == LookupPath(node, other))
    decreases path
  {
    var r := InjectAt(node, at, path, value).value;
    if |path| == 1 {
      LookupOne(r, path);
      if !(other <= path) && other[0] == path[0] {
        assert other != [] && other[1..] != [];
        assert LookupPath(Num(value), other[1..]).None?;
      }
    } else {
      var child := if path[0] in node.fields then node.fields[path[0]] else Obj(map[]);
      var tail := if other == [] then [] else other[1..];
      InjectReadsBack(child, at + [path[0]], path[1..], value, tail);
      if !(other <= path) && other[0] == path[0] {
        assert !(tail <= path[1..]);
        if path[0] !in node.fields {
          assert tail != [];
        }
      }
    }
  }

  /** Remove the member at the end of `path`. */
  function RemoveAt(node: Json, path: seq<string>): Json
    requires path != []
    decreases path
  {
    if !node.Obj? || path[0] !in node.fields then node
    else if |path| == 1 then Obj(node.fields - {path[0]})
    else Obj(node.fields[path[0] := RemoveAt(node.fields[path[0]], path[1..])])
  }

  /** Removing the first member the injection created gives the template back. */
  lemma {:induction false} InjectThenRemove(node: Json, at: seq<string>, path: seq<string>, value: int, n: nat)
    requires path != [] && InjectAt(node, at, path, value).Ok?
    requires 0 < n <= |path|
    requires LookupPath(node, path[..n]).None? && LookupPath(node, path[..n - 1]).Some?
    ensures RemoveAt(InjectAt(node, at, path, value).value, path[..n]) == node
    decreases path
  {
    var r := InjectAt(node, at, path, value).value;
    if n == 1 {
      LookupOne(node, path[..1]);
      assert r.fields - {path[0]} == node.fields;
    } else {
      assert path[..n][0] == path[0] && path[..n - 1][0] == path[0];
      assert path[..n][1..] == path[1..][..n - 1];
      assert path[..n - 1][1..] == path[1..][..n - 2];
      InjectThenRemove(node.fields[path[0]], at + [path[0]], path[1..], value, n - 1);
      assert node.fields[path[0] := node.fields[path[0]]] == node.fields;
    }
  }

  /** There is such a first member. */
  lemma {:induction false} FirstCreated(node: Json, path: seq<string>, k: nat) returns (n: nat)
    requires k <= |path| && LookupPath(node, path[..k]).Some? && LookupPath(node, path).None?
    ensures k < n <= |path|
    ensures LookupPath(node, path[..n]).None? && LookupPath(node, path[..n - 1]).Some?
    decreases |path| - k
  {
    hide LookupPath;
    assert path[..|path|] == path;
    if LookupPath(node, path[..k + 1]).None? {
      n := k + 1;
    } else {
      n := FirstCreated(node, path, k + 1);
    }
  }

  /** The whole of `inject_capacity_field`: it succeeds exactly when the schema admits the field and
      the way to it in the template is open; the result then reads back the value, agrees with the
      template on every path that is not a prefix of the field, and becomes the template again when
      the first member created is removed. */
  lemma InjectionExactly(template: Json, field: string, value: int, other: seq<string>)
    requires I64_MIN <= value <= I64_MAX
    ensures InjectCapacityField(template, field, value).Ok? <==>
            SchemaAdmitsField(field) && Open(template, Split(field, '.'))
    ensures ValidateCapacityField(field).Err? ==>
              InjectCapacityField(template, field, value) == Err(ValidateCapacityField(field).error)
    ensures InjectCapacityField(template, field, value).Ok? ==>
              var r := InjectCapacityField(template, field, value).value;
              var path := Split(field, '.');
              && ReadAt(r, field) == Some(value)
              && (!(other <= path) ==> LookupPath(r, other) == LookupPath(template, other))
              && exists n :: 0 < n <= |path|
                             && LookupPath(template, path[..n]).None? && LookupPath(template, path[..n - 1]).Some?
                             && RemoveAt(r, path[..n]) == template
  {
    hide LookupPath, InjectAt, RemoveAt, Matches, Split, Join, ValidateSegments;
    CapacityFieldExactly(field);
    SegmentsExactly(field, 6);
    var path := Split(field, '.');
    if ValidateCapacityField(field).Ok? {
      InjectSucceedsExactly(template, [], path, value);
      if InjectAt(template, [], path, value).Ok? {
        InjectReadsBack(template, [], path, value, other);
        LookupNothing(template);
        assert path[..0] == [];
        var n := FirstCreated(template, path, 0);
        InjectThenRemove(template, [], path, value, n);
      }
    }
  }

  /** The controller's own write never looks like a drained consumer: reading a valid drain path on
      an owned object gives the same answer whatever spec was injected; whereas a path below `spec`
      would read the written value straight back. */
  lemma DrainIgnoresOwnWrite(members: map<string, Json>, template: Json, field: string, value: int, path: string)
    requires I64_MIN <= value <= I64_MAX
    requires InjectCapacityField(template, field, value).Ok? && ValidateDrainedPath(path).Ok?
    ensures var obj := Obj(members["spec" := InjectCapacityField(template, field, value).value]);
            && ReadAt(obj, path) == ReadAt(Obj(members), path)
            && ReadAt(obj, "spec" + "." + field) == Some(value)
  {
    hide Matches, Split, Join, ValidateSegments, InjectAt, InjectCapacityField;
    var r := InjectCapacityField(template, field, value).value;
    var obj := Obj(members["spec" := r]);
    DrainedPathExactly(path);
    SegmentsExactly(path, 7);
    assert "status"[1] == 't' && "spec"[1] == 'p';
    assert Split(path, '.')[0] == "status" != "spec";
    InjectionExactly(template, field, value, []);
    SplitConcat("spec", field, '.');
    SplitAtomic("spec", '.');
    assert Split("spec" + "." + field, '.') == ["spec"] + Split(field, '.');
    assert (["spec"] + Split(field, '.'))[1..] == Split(field, '.');
  }
}
