/**
 * `Model.assign(source)`: `lodash.mergeWith(this, source, assignCustomizer)`, with the
 * customizer making an incoming array replace an existing array instead of being
 * merged into it element by element. The merge is restricted to JSON-like values.
 */
module ModelAssign {
  import opened Wrappers

  /** JSON-like values, plus `undefined`. */
  datatype Json =
    | JUndefined
    | JNull
    | JBool(b: bool)
    | JNum(n: int)
    | JStr(s: string)
    | JArr(elems: seq<Json>)
    | JObj(fields: map<string, Json>)

  /**
   * `assignCustomizer(objValue, srcValue)`: the source array when both values are arrays,
   * `undefined` (here `None`, "merge as usual") otherwise. `objValue` is `None` when the
   * destination has no such key.
   */
  function AssignCustomizer(objValue: Option<Json>, srcValue: Json): (r: Option<Json>)
    ensures r.Some? <==> objValue.Some? && objValue.value.JArr? && srcValue.JArr?
    ensures r.Some? ==> r.value == srcValue
  {
    if objValue.Some? && objValue.value.JArr? && srcValue.JArr? then Some(srcValue) else None
  }

  /** A value `merge` assigns over whatever is there: neither an array, an object nor `undefined`. */
  predicate Scalar(v: Json) {
    !v.JArr? && !v.JObj? && !v.JUndefined?
  }

  /**
   * The value `merge` leaves under one key, given the destination's value there (if any)
   * and the source's: the customizer's answer if it gives one; otherwise an array or
   * object source is merged into the destination's value of the same shape (or into a
   * fresh empty one); `undefined` keeps what was there; any other value replaces it.
   * `custom` says whether `assignCustomizer` is in force (`mergeWith`) or not (`merge`).
   */
  function MergeKey(objValue: Option<Json>, srcValue: Json, custom: bool): Json
    decreases srcValue, 1
  {
    var customized := if custom then AssignCustomizer(objValue, srcValue) else None;
    if customized.Some? then customized.value
    else match srcValue
      case JArr(se) =>
        var base := if objValue.Some? && objValue.value.JArr? then objValue.value.elems else [];
        JArr(MergeElems(base, se, custom))
      case JObj(sf) =>
        var base := if objValue.Some? && objValue.value.JObj? then objValue.value.fields else map[];
        JObj(MergeFields(base, sf, custom))
      case JUndefined => if objValue.Some? then objValue.value else JUndefined
      case _ => srcValue
  }

  /** Array into array: index by index; the destination's extra tail is kept. */
  function MergeElems(dst: seq<Json>, src: seq<Json>, custom: bool): (r: seq<Json>)
    ensures |r| == if |dst| < |src| then |src| else |dst|
    ensures forall i | |src| <= i < |dst| :: r[i] == dst[i]
    ensures forall i | 0 <= i < |src| && Scalar(src[i]) :: r[i] == src[i]
    ensures forall i | 0 <= i < |src| && src[i].JUndefined? :: r[i] == if i < |dst| then dst[i] else JUndefined
    decreases JArr(src), 0
  {
    var n := if |dst| < |src| then |src| else |dst|;
    seq(n, i requires 0 <= i < n =>
      if i < |src| then MergeKey(if i < |dst| then Some(dst[i]) else None, src[i], custom) else dst[i])
  }

  /** Object into object: key by key; keys only the destination has are kept. */
  function MergeFields(dst: map<string, Json>, src: map<string, Json>, custom: bool): (r: map<string, Json>)
    ensures r.Keys == dst.Keys + src.Keys
    ensures forall k | k in dst && k !in src :: r[k] == dst[k]
    ensures forall k | k in src && Scalar(src[k]) :: r[k] == src[k]
    ensures forall k | k in src && src[k].JUndefined? :: r[k] == if k in dst then dst[k] else JUndefined
    decreases JObj(src), 0
  {
    map k | k in dst.Keys + src.Keys ::
      if k in src then MergeKey(if k in dst then Some(dst[k]) else None, src[k], custom) else dst[k]
  }

  /**
   * `Model.assign(source)` on the model's fields; `None` is an `undefined` or `null`
   * source, which leaves the fields as they are. Keys only the model has are untouched,
   * and an array field given a new array takes the new array as it is.
   */
  function Assign(fields: map<string, Json>, source: Option<map<string, Json>>): (r: map<string, Json>)
    ensures source.None? ==> r == fields
    ensures source.Some? ==> r.Keys == fields.Keys + source.value.Keys
    ensures source.Some? ==> forall k <- fields.Keys :: k !in source.value ==> r[k] == fields[k]
    ensures source.Some? ==>
              forall k <- fields.Keys :: k in source.value && fields[k].JArr? && source.value[k].JArr? ==>
                r[k] == source.value[k]
  {
    if source.None? then fields
    else
      var r := MergeFields(fields, source.value, true);
      assert forall k <- fields.Keys :: k in source.value ==>
               r[k] == MergeKey(Some(fields[k]), source.value[k], true);
      r
  }

  /** Plain `merge` (no customizer) folds arrays index by index instead. */
  lemma PlainMergeFoldsArrays()
    ensures MergeKey(Some(JArr([JNum(1), JNum(2), JNum(3)])), JArr([JNum(9)]), false)
            == JArr([JNum(9), JNum(2), JNum(3)])
    ensures MergeKey(Some(JArr([JNum(1), JNum(2), JNum(3)])), JArr([JNum(9)]), true)
            == JArr([JNum(9)])
  {
    var r := MergeElems([JNum(1), JNum(2), JNum(3)], [JNum(9)], false);
    assert r[0] == JNum(9);
    assert r[1] == JNum(2) && r[2] == JNum(3);
  }

  /** Merging a value into a missing key stores a copy of the value itself. */
  lemma {:induction false} MergeIntoNothingCopies(v: Json, custom: bool)
    ensures MergeKey(None, v, custom) == v
    decreases v
  {
    match v
    case JArr(se) =>
      var r := MergeElems([], se, custom);
      forall i | 0 <= i < |se| ensures r[i] == se[i] {
        MergeIntoNothingCopies(se[i], custom);
      }
    case JObj(sf) =>
      var r := MergeFields(map[], sf, custom);
      forall k <- sf.Keys ensures r[k] == sf[k] {
        MergeIntoNothingCopies(sf[k], custom);
      }
    case _ =>
  }

  /** Merging a value into itself changes nothing. */
  lemma {:induction false} MergeIntoItselfIdentity(v: Json, custom: bool)
    ensures MergeKey(Some(v), v, custom) == v
    decreases v
  {
    match v
    case JArr(se) =>
      if !custom {
        var r := MergeElems(se, se, custom);
        forall i | 0 <= i < |se| ensures r[i] == se[i] {
          MergeIntoItselfIdentity(se[i], custom);
        }
      }
    case JObj(sf) =>
      var r := MergeFields(sf, sf, custom);
      forall k <- sf.Keys ensures r[k] == sf[k] {
        MergeIntoItselfIdentity(sf[k], custom);
      }
    case _ =>
  }
}
