/**
 * The small pure helpers of the model base module: `gatherStatics` (static hashes
 * merged up a class chain), `Model.assertSuperset` (own keys against a declared key
 * set), the `CustomError` constructor's argument handling, and the auto-id counter of
 * `schema(def)`.
 */
module Base {
  import opened Wrappers
  import opened JsRuntime

  // ---------------------------------------------------------------------------
  // gatherStatics

  /**
   * What `Class[propName]` holds on one class of the chain: a string, an array of
   * strings, a plain object of strings, or anything else (absent, a number, ...).
   */
  datatype StaticValue = StrStatic(s: string) | ArrStatic(a: seq<string>) | HashStatic(h: map<string, string>) | OtherStatic

  /** The hash one class contributes: a string keyed by itself, an array by each element, a hash as is. */
  function ToHash(v: StaticValue): (r: Option<map<string, string>>)
    ensures v.OtherStatic? <==> r.None?
    ensures v.StrStatic? ==> r == Some(map[v.s := v.s])
    ensures v.ArrStatic? ==> r.value.Keys == (set e | e in v.a) && forall k <- r.value.Keys :: r.value[k] == k
    ensures v.HashStatic? ==> r == Some(v.h)
  {
    match v
    case StrStatic(s) => Some(map[s := s])
    case ArrStatic(a) => Some(map e | e in a :: e)
    case HashStatic(h) => Some(h)
    case OtherStatic => None
  }

  /**
   * The `hashes` list of the walk over `chain` (derived class first): each hash is
   * `unshift`ed, so the list runs from the root-most class to the most derived.
   */
  function Hashes(chain: seq<StaticValue>): (r: seq<map<string, string>>)
    ensures |r| == 0 <==> forall k | 0 <= k < |chain| :: ToHash(chain[k]).None?
  {
    if |chain| == 0 then []
    else
      var rest := Hashes(chain[1..]);
      assert forall k | 1 <= k < |chain| :: chain[1..][k - 1] == chain[k];
      match ToHash(chain[0])
      case Some(h) => rest + [h]
      case None => rest
  }

  /** `lodash.merge({}, h1, ..., hn)` over flat string hashes: later hashes win. */
  function MergeHashes(hashes: seq<map<string, string>>): map<string, string> {
    if |hashes| == 0 then map[]
    else MergeHashes(hashes[..|hashes| - 1]) + hashes[|hashes| - 1]
  }

  /** `gatherStatics(Class, propName)`: `None` is `undefined`, returned when no class contributes a hash. */
  function GatherStatics(chain: seq<StaticValue>): (r: Option<map<string, string>>)
    ensures r.None? <==> forall k | 0 <= k < |chain| :: ToHash(chain[k]).None?
  {
    var hashes := Hashes(chain);
    if |hashes| == 0 then None else Some(MergeHashes(hashes))
  }

  /**
   * Reference definition of the precedence: the value of `x` from the MOST DERIVED
   * class (lowest index) whose hash defines it.
   */
  function MostDerived(chain: seq<StaticValue>, x: string): (r: Option<string>)
    ensures r.Some? ==> exists k | 0 <= k < |chain| :: ToHash(chain[k]).Some? && x in ToHash(chain[k]).value
                                                       && r.value == ToHash(chain[k]).value[x]
    ensures r.None? ==> forall k | 0 <= k < |chain| :: ToHash(chain[k]).Some? ==> x !in ToHash(chain[k]).value
  {
    if |chain| == 0 then None
    else
      var h := ToHash(chain[0]);
      assert forall k | 1 <= k < |chain| :: chain[1..][k - 1] == chain[k];
      if h.Some? && x in h.value then Some(h.value[x]) else MostDerived(chain[1..], x)
  }

  lemma MergeHashesSnoc(hashes: seq<map<string, string>>, h: map<string, string>)
    ensures MergeHashes(hashes + [h]) == MergeHashes(hashes) + h
  {
    assert (hashes + [h])[..|hashes|] == hashes;
  }

  /**
   * Derived wins: the gathered hash holds exactly the keys some class defines, each
   * with the value of the most derived class that defines it. (The schema property
   * hierarchy uses the opposite precedence; see `SchemaTools.AncestorWins`.)
   */
  lemma {:induction false} GatherStaticsDerivedWins(chain: seq<StaticValue>, x: string)
    ensures var m := MergeHashes(Hashes(chain));
            && (x in m <==> MostDerived(chain, x).Some?)
            && (x in m ==> m[x] == MostDerived(chain, x).value)
  {
    if |chain| > 0 {
      GatherStaticsDerivedWins(chain[1..], x);
      match ToHash(chain[0])
      case Some(h) => MergeHashesSnoc(Hashes(chain[1..]), h);
      case None =>
    }
  }

  // ---------------------------------------------------------------------------
  // CustomError

  /** An `Error` instance passed as the inner error. */
  datatype InnerError = InnerError(name: string, message: string)

  /** A constructed `CustomError` (or subclass, named by `kind`). */
  datatype CustomError = CustomError(kind: string, message: string, inner: Option<InnerError>, code: int)

  /**
   * The first argument: a string, or an object whose `message` property is read first
   * (`text` is what converting the object itself to a string gives), or `undefined`/`null`.
   */
  datatype MessageArg = Text(s: string) | Carrier(message: string, text: string) | NoMessage

  /** The second argument: omitted, a finite (integer) number, an `Error`, or any other value. */
  datatype InnerArg = NoInner | FiniteNumber(n: int) | ErrorArg(e: InnerError) | OtherInner

  /** Reading `.message` of `undefined` or `null`. */
  datatype Thrown = TypeError

  /**
   * `new CustomError(message, innerError, code)`: a finite number in the inner-error
   * position is taken as the code (and the inner error becomes `null`); a value that
   * is not an `Error` is dropped to `null`; the code defaults to 500.
   */
  function NewCustomError(kind: string, message: MessageArg, inner: InnerArg, code: Option<int>): (r: Result<CustomError, Thrown>)
    ensures r.Failure? <==> message.NoMessage?
    ensures r.Success? && inner.FiniteNumber? ==> r.value.code == inner.n && r.value.inner.None?
    ensures r.Success? && !inner.FiniteNumber? ==> r.value.code == code.GetOr(500)
    ensures r.Success? ==> (r.value.inner.Some? <==> inner.ErrorArg?)
    ensures r.Success? && inner.ErrorArg? ==> r.value.inner == Some(inner.e)
    ensures r.Success? && message.Text? ==> r.value.message == message.s
    ensures r.Success? && message.Carrier? ==>
              r.value.message == (if message.message != "" then message.message else message.text)
  {
    var code' := if inner.FiniteNumber? then inner.n else code.GetOr(500);
    var inner' := if inner.FiniteNumber? then OtherInner else inner;
    match message
    case NoMessage => Failure(TypeError)
    case Text(s) => Success(CustomError(kind, s, ErrorOf(inner'), code'))
    case Carrier(m, text) => Success(CustomError(kind, if m != "" then m else text, ErrorOf(inner'), code'))
  }

  /** `innerError instanceof Error ? innerError : null`. */
  function ErrorOf(inner: InnerArg): Option<InnerError> {
    if inner.ErrorArg? then Some(inner.e) else None
  }

  /** With a finite number in second position, the third argument is never consulted. */
  lemma FiniteInnerOverridesCode(kind: string, message: MessageArg, n: int, c1: Option<int>, c2: Option<int>)
    ensures NewCustomError(kind, message, FiniteNumber(n), c1) == NewCustomError(kind, message, FiniteNumber(n), c2)
  {
  }

  // ---------------------------------------------------------------------------
  // Model.assertSuperset

  /**
   * The declared-key lookup `key in this.KEYS`, with `KEYS` a plain object: besides the
   * declared keys it also answers for every name `Object.prototype` provides.
   */
  predicate InKeysAsWritten(keys: set<string>, key: string) {
    key in keys || key in ObjectPrototypeKeys
  }

  /** The first own key of `ob` (in enumeration order) that `declared` rejects. */
  function FirstMissing(ownKeys: seq<string>, declared: string -> bool): (r: Option<nat>)
    ensures r.Some? ==> r.value < |ownKeys| && !declared(ownKeys[r.value])
    ensures r.Some? ==> forall j | 0 <= j < r.value :: declared(ownKeys[j])
    ensures r.None? <==> forall j | 0 <= j < |ownKeys| :: declared(ownKeys[j])
  {
    if |ownKeys| == 0 then None
    else if !declared(ownKeys[0]) then Some(0)
    else match FirstMissing(ownKeys[1..], declared)
      case None => None
      case Some(k) => Some(k + 1)
  }

  function SupersetMessage(className: string, key: string): string {
    "Superset check failed for " + className + ". Missing property: " + key
  }

  function SupersetCheck(className: string, ownKeys: seq<string>, declared: string -> bool): (r: Outcome<CustomError>)
    ensures r.Pass? <==> forall j | 0 <= j < |ownKeys| :: declared(ownKeys[j])
    ensures r.Fail? ==>
              exists k | 0 <= k < |ownKeys| ::
                && !declared(ownKeys[k])
                && (forall j | 0 <= j < k :: declared(ownKeys[j]))
                && r.error == CustomError("ModelAssertionError", SupersetMessage(className, ownKeys[k]), None, 500)
  {
    match FirstMissing(ownKeys, declared)
    case None => Pass
    case Some(k) => Fail(CustomError("ModelAssertionError", SupersetMessage(className, ownKeys[k]), None, 500))
  }

  /**
   * `assertSuperset(ob)` with `KEYS` a true dictionary: passes exactly when every own
   * key of `ob` is declared; otherwise fails naming the first own key that is not.
   */
  function AssertSuperset(className: string, keys: set<string>, ownKeys: seq<string>): (r: Outcome<CustomError>)
    ensures r.Pass? <==> forall j | 0 <= j < |ownKeys| :: ownKeys[j] in keys
    ensures r.Fail? ==> exists k | 0 <= k < |ownKeys| :: ownKeys[k] !in keys && r.error.message == SupersetMessage(className, ownKeys[k])
  {
    SupersetCheck(className, ownKeys, x => x in keys)
  }

  /** `assertSuperset(ob)` as written: an own key named like an `Object.prototype` member always passes. */
  function AssertSupersetAsWritten(className: string, keys: set<string>, ownKeys: seq<string>): (r: Outcome<CustomError>)
    ensures r.Pass? <==> forall j | 0 <= j < |ownKeys| :: InKeysAsWritten(keys, ownKeys[j])
  {
    SupersetCheck(className, ownKeys, x => InKeysAsWritten(keys, x))
  }

  /** An object with an own `toString` passes against a model that declares no keys at all. */
  lemma SupersetAsWrittenMissesPrototypeNames()
    ensures AssertSupersetAsWritten("User", {}, ["toString"]).Pass?
    ensures AssertSuperset("User", {}, ["toString"])
            == Fail(CustomError("ModelAssertionError", SupersetMessage("User", "toString"), None, 500))
  {
  }

  // ---------------------------------------------------------------------------
  // schema(def): the auto-id counter

  const AutoIdPrefix := "/_auto_id_/"

  /** `!def.$id`: no id, or the empty string. */
  predicate Falsy(id: Option<string>) {
    id.None? || id.value == ""
  }

  function AutoId(n: nat): string {
    AutoIdPrefix + NatToString(n)
  }

  /**
   * One `schema(def)` call with the counter at `last`: a falsy id is replaced by the
   * next auto id (and the counter advances), a given id is kept.
   */
  function RegisterId(id: Option<string>, last: nat): (r: (string, nat))
    ensures Falsy(id) ==> r == (AutoId(last + 1), last + 1)
    ensures !Falsy(id) ==> r == (id.value, last)
  {
    if Falsy(id) then (AutoId(last + 1), last + 1) else (id.value, last)
  }

  /** How many of the ids are falsy. */
  function FalsyCount(ids: seq<Option<string>>): (r: nat)
    ensures r <= |ids|
  {
    if |ids| == 0 then 0
    else FalsyCount(ids[..|ids| - 1]) + (if Falsy(ids[|ids| - 1]) then 1 else 0)
  }

  /** A run of `schema(def)` calls, in order, from counter `last`: the ids and the final counter. */
  function RegisterAll(ids: seq<Option<string>>, last: nat): (r: (seq<string>, nat))
    ensures |r.0| == |ids|
    ensures r.1 == last + FalsyCount(ids)
  {
    if |ids| == 0 then ([], last)
    else
      var n := |ids| - 1;
      var (prev, counter) := RegisterAll(ids[..n], last);
      var (id, counter') := RegisterId(ids[n], counter);
      (prev + [id], counter')
  }

  /**
   * The `k`-th call keeps a given id, and otherwise gets the auto id numbered one past
   * the counter plus the falsy ids before it.
   */
  lemma {:induction false} RegisterAllAt(ids: seq<Option<string>>, last: nat, k: nat)
    requires k < |ids|
    ensures RegisterAll(ids, last).0[k] ==
              if Falsy(ids[k]) then AutoId(last + FalsyCount(ids[..k]) + 1) else ids[k].value
    decreases |ids|
  {
    var n := |ids| - 1;
    if k < n {
      RegisterAllAt(ids[..n], last, k);
      assert ids[..n][k] == ids[k] && ids[..n][..k] == ids[..k];
    }
  }

  lemma {:induction false} FalsyCountGrows(ids: seq<Option<string>>, i: nat, j: nat)
    requires i < j <= |ids| && Falsy(ids[i])
    ensures FalsyCount(ids[..i]) < FalsyCount(ids[..j])
    decreases j
  {
    assert ids[..j][..j - 1] == ids[..j - 1];
    if j - 1 > i {
      FalsyCountGrows(ids, i, j - 1);
    } else {
      assert ids[..j][j - 1] == ids[i];
    }
  }

  lemma AutoIdInjective(m: nat, n: nat)
    requires AutoId(m) == AutoId(n)
    ensures m == n
  {
    assert NatToString(m) == AutoId(m)[|AutoIdPrefix|..];
    assert NatToString(n) == AutoId(n)[|AutoIdPrefix|..];
    if m != n {
      NatToStringInjective(m, n);
    }
  }

  /** Two calls of a run that both had to invent an id never invent the same one. */
  lemma AutoIdsDistinct(ids: seq<Option<string>>, last: nat, i: nat, j: nat)
    requires i < j < |ids| && Falsy(ids[i]) && Falsy(ids[j])
    ensures RegisterAll(ids, last).0[i] != RegisterAll(ids, last).0[j]
  {
    FalsyCountGrows(ids, i, j);
    RegisterAllAt(ids, last, i);
    RegisterAllAt(ids, last, j);
    if RegisterAll(ids, last).0[i] == RegisterAll(ids, last).0[j] {
      AutoIdInjective(last + FalsyCount(ids[..i]) + 1, last + FalsyCount(ids[..j]) + 1);
    }
  }
}
