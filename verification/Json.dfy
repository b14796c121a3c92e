/** JSON values and JSON Merge Patch (RFC 7396, section 2), the form every status patch in the
    source is sent in. */
module Json {
  import opened Base

  /** `Real` stands for every number that is not an integer in the range of `i64` or `u64`. */
  datatype Json =
    | Null
    | Bool(b: bool)
    | Num(n: int)
    | Real(r: real)
    | Str(s: string)
    | Arr(items: seq<Json>)
    | Obj(fields: map<string, Json>)

  /** `value.get(key)`: a member of an object; anything else has no members. */
  function Get(j: Json, key: string): Option<Json> {
    if j.Obj? && key in j.fields then Some(j.fields[key]) else None
  }

  const I64_MIN: int := -0x8000_0000_0000_0000
  const I64_MAX: int := 0x7FFF_FFFF_FFFF_FFFF

  /** `Value::as_i64`. */
  function AsI64(j: Json): Option<int> {
    if j.Num? && I64_MIN <= j.n <= I64_MAX then Some(j.n) else None
  }

  /** RFC 7396, section 2: a null member removes, an absent member keeps, an object merges
      recursively, anything else replaces. */
  function MergePatch(target: Json, patch: Json): Json
    decreases patch
  {
    if !patch.Obj? then patch
    else
      var base := if target.Obj? then target.fields else map[];
      Obj(map k | k in base.Keys + patch.fields.Keys && !(k in patch.fields && patch.fields[k].Null?) ::
        if k in patch.fields
        then MergePatch(if k in base then base[k] else Null, patch.fields[k])
        else base[k])
  }

  /** The members of a merged value, one by one. */
  lemma MergedMember(target: Json, patch: Json, key: string)
    requires patch.Obj?
    ensures MergePatch(target, patch).Obj?
    ensures Get(MergePatch(target, patch), key) ==
            if key !in patch.fields then Get(target, key)
            else if patch.fields[key].Null? then None
            else Some(MergePatch(if Get(target, key).Some? then Get(target, key).value else Null, patch.fields[key]))
  {
  }

  /** Sending the same merge patch twice changes nothing the second time. */
  lemma {:induction false} MergeIdempotent(target: Json, patch: Json)
    ensures MergePatch(MergePatch(target, patch), patch) == MergePatch(target, patch)
    decreases patch
  {
    if patch.Obj? {
      var base := if target.Obj? then target.fields else map[];
      var once := MergePatch(target, patch);
      var twice := MergePatch(once, patch);
      assert once.Obj? && twice.Obj?;
      assert twice.fields.Keys == once.fields.Keys;
      forall k | k in once.fields ensures twice.fields[k] == once.fields[k] {
        if k in patch.fields {
          MergeIdempotent(if k in base then base[k] else Null, patch.fields[k]);
        }
      }
    }
  }
}
