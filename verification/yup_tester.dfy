/**
 * `processValidationErrors` of the yup tester: it walks the validation errors in order,
 * drops a `required` error whose (non-empty) path an earlier error already reported --
 * yup repeats `required` for every element of a missing array -- and gives each error it
 * keeps an `id` (its original message) and a translated message. `translate` is a
 * parameter: the i18n table is not part of this model.
 */
module YupTester {
  import opened Wrappers
  import opened JsRuntime

  /** A yup `ValidationError`: its `type`, its `path` (possibly `undefined`) and its message key. */
  datatype ValidationError = ValidationError(errorType: string, path: Option<string>, message: string)

  /** A kept error after the tester rewrote it: `id` holds the old message. */
  datatype Reported = Reported(errorType: string, path: Option<string>, id: string, message: string)

  /** The rewrite applied to each kept error. */
  function Report(e: ValidationError, translate: string -> string): (r: Reported)
    ensures r.errorType == e.errorType && r.path == e.path
    ensures r.id == e.message && r.message == translate("errors." + e.message)
  {
    Reported(e.errorType, e.path, e.message, translate("errors." + e.message))
  }

  /** The path as a truthy JavaScript value: present and not the empty string. */
  predicate HasPath(e: ValidationError) {
    e.path.Some? && e.path.value != ""
  }

  /** Some error before position `i` carries `path`. */
  predicate SeenBefore(errors: seq<ValidationError>, i: nat, path: Option<string>)
    requires i <= |errors|
  {
    i > 0 && (errors[i - 1].path == path || SeenBefore(errors, i - 1, path))
  }

  lemma SeenBeforeIff(errors: seq<ValidationError>, i: nat, path: Option<string>)
    requires i <= |errors|
    ensures SeenBefore(errors, i, path) <==> exists j | 0 <= j < i :: errors[j].path == path
  {
  }

  /**
   * The reference rule: error `i` is dropped exactly when it is a `required` error with
   * a non-empty path that some earlier error carries too.
   */
  predicate DroppedAt(errors: seq<ValidationError>, i: nat)
    requires i < |errors|
  {
    errors[i].errorType == "required" && HasPath(errors[i]) && SeenBefore(errors, i, errors[i].path)
  }

  /** The reference output for the first `n` errors: the reports of those not dropped, in order. */
  function Kept(errors: seq<ValidationError>, n: nat, translate: string -> string): seq<Reported>
    requires n <= |errors|
  {
    if n == 0 then []
    else
      var e := errors[n - 1];
      Kept(errors, n - 1, translate)
      + (if e.errorType == "required" && HasPath(e) && SeenBefore(errors, n - 1, e.path) then [] else [Report(e, translate)])
  }

  /** Every path the first `i` errors carry. */
  ghost function PathsBefore(errors: seq<ValidationError>, i: nat): set<string>
    requires i <= |errors|
  {
    set j | 0 <= j < i && errors[j].path.Some? :: errors[j].path.value
  }

  /**
   * `processValidationErrors(errors)`, with the seen paths held as a set of strings: its
   * output is exactly the reference output.
   */
  method ProcessValidationErrors(errors: seq<ValidationError>, translate: string -> string)
    returns (r: seq<Reported>)
    ensures r == Kept(errors, |errors|, translate)
  {
    var seen: set<string> := {};
    r := [];
    for i := 0 to |errors|
      invariant seen == PathsBefore(errors, i)
      invariant r == Kept(errors, i, translate)
    {
      var e := errors[i];
      SeenBeforeIff(errors, i, e.path);
      if e.errorType == "required" && HasPath(e) && e.path.value in seen {
        assert DroppedAt(errors, i);
      } else {
        assert !DroppedAt(errors, i) by {
          if e.errorType == "required" && HasPath(e) {
            forall j | 0 <= j < i ensures errors[j].path != e.path {
              assert errors[j].path.Some? ==> errors[j].path.value in PathsBefore(errors, i);
            }
          }
        }
        if e.path.Some? {
          seen := seen + {e.path.value};
        }
        r := r + [Report(e, translate)];
      }
      assert PathsBefore(errors, i + 1) == PathsBefore(errors, i) + (if e.path.Some? then {e.path.value} else {});
    }
  }

  /** The reference output for a prefix is a prefix of the reference output for a longer one. */
  lemma {:induction false} KeptPrefix(errors: seq<ValidationError>, m: nat, n: nat, translate: string -> string)
    requires m <= n <= |errors|
    ensures Kept(errors, m, translate) <= Kept(errors, n, translate)
    decreases n
  {
    if m < n {
      KeptPrefix(errors, m, n - 1, translate);
    }
  }

  /**
   * The errors that are never dropped: one that is not `required`, has an empty or
   * missing path, or is the first on its path.
   */
  lemma NeverDropped(errors: seq<ValidationError>, i: nat)
    requires i < |errors|
    requires errors[i].errorType != "required" || !HasPath(errors[i])
             || forall j | 0 <= j < i :: errors[j].path != errors[i].path
    ensures !DroppedAt(errors, i)
  {
    if errors[i].errorType == "required" && HasPath(errors[i]) {
      SeenBeforeIff(errors, i, errors[i].path);
    }
  }

  /** An error that is not dropped is reported, right after the reports of the errors before it. */
  lemma KeptAt(errors: seq<ValidationError>, i: nat, translate: string -> string)
    requires i < |errors| && !DroppedAt(errors, i)
    ensures |Kept(errors, i, translate)| < |Kept(errors, |errors|, translate)|
    ensures Kept(errors, |errors|, translate)[|Kept(errors, i, translate)|] == Report(errors[i], translate)
  {
    KeptPrefix(errors, i + 1, |errors|, translate);
  }

  /** Kept errors keep their relative order. */
  lemma KeptInOrder(errors: seq<ValidationError>, i: nat, k: nat, translate: string -> string)
    requires i < k <= |errors|
    requires !DroppedAt(errors, i)
    ensures |Kept(errors, i, translate)| < |Kept(errors, k, translate)|
  {
    KeptPrefix(errors, i + 1, k, translate);
  }

  /** A dropped error adds nothing to the output. */
  lemma DroppedAddsNothing(errors: seq<ValidationError>, i: nat, translate: string -> string)
    requires i < |errors|
    requires errors[i].errorType == "required" && HasPath(errors[i])
    requires exists j :: 0 <= j < i && errors[j].path == errors[i].path
    ensures Kept(errors, i + 1, translate) == Kept(errors, i, translate)
  {
    SeenBeforeIff(errors, i, errors[i].path);
  }

  // ---------------------------------------------------------------------------------
  // As written: `seenErrors` is a plain object, so `seenErrors[err.path]` is truthy for
  // names inherited from Object.prototype, and a missing path is stored under the key
  // "undefined".
  // ---------------------------------------------------------------------------------

  /** The property key `seenErrors[err.path] = true` writes. */
  function PathKey(path: Option<string>): (k: string)
    ensures path.Some? ==> k == path.value
    ensures path.None? ==> k == "undefined"
  {
    if path.Some? then path.value else "undefined"
  }

  function AsWrittenFrom(errors: seq<ValidationError>, i: nat, seen: set<string>, translate: string -> string)
    : (r: seq<Reported>)
    requires i <= |errors|
    ensures |r| <= |errors| - i
    decreases |errors| - i
  {
    if i == |errors| then []
    else
      var e := errors[i];
      if e.errorType == "required" && HasPath(e) && e.path.value in seen then
        AsWrittenFrom(errors, i + 1, seen, translate)
      else
        [Report(e, translate)] + AsWrittenFrom(errors, i + 1, seen + {PathKey(e.path)}, translate)
  }

  /** The function as written, starting from `{}` with its inherited names. */
  function ProcessValidationErrorsAsWritten(errors: seq<ValidationError>, translate: string -> string)
    : (r: seq<Reported>)
    ensures |r| <= |errors|
  {
    AsWrittenFrom(errors, 0, ObjectPrototypeKeys, translate)
  }

  /** The keys `seenErrors` holds after the first `i` errors, prototype names aside. */
  ghost function KeysBefore(errors: seq<ValidationError>, i: nat): set<string>
    requires i <= |errors|
  {
    set j | 0 <= j < i :: PathKey(errors[j].path)
  }

  /**
   * None of the paths on which the lookup can go wrong occurs: no key is already in
   * `init` (the names the object starts with) and no path is `undefined` after an
   * error with no path.
   */
  ghost predicate PlainPaths(errors: seq<ValidationError>, init: set<string>) {
    && (forall k | 0 <= k < |errors| :: PathKey(errors[k].path) !in init)
    && (forall j, k | 0 <= j < k < |errors| :: errors[j].path.None? ==> errors[k].path != Some("undefined"))
  }

  /**
   * Away from prototype names, and from a path `undefined` after an error with no
   * path, the function as written computes the reference output.
   */
  lemma AsWrittenAgrees(errors: seq<ValidationError>, translate: string -> string)
    requires PlainPaths(errors, ObjectPrototypeKeys)
    ensures ProcessValidationErrorsAsWritten(errors, translate) == Kept(errors, |errors|, translate)
  {
    var init := ObjectPrototypeKeys;
    assert init + KeysBefore(errors, 0) == init;
    AsWrittenFromAgrees(errors, 0, init, init, translate);
    assert Kept(errors, 0, translate) == [];
    assert ProcessValidationErrorsAsWritten(errors, translate) == AsWrittenFrom(errors, 0, init, translate);
  }

  lemma {:induction false} AsWrittenFromAgrees(
    errors: seq<ValidationError>, i: nat, init: set<string>, seen: set<string>, translate: string -> string)
    requires i <= |errors| && PlainPaths(errors, init) && seen == init + KeysBefore(errors, i)
    ensures Kept(errors, |errors|, translate) == Kept(errors, i, translate) + AsWrittenFrom(errors, i, seen, translate)
    decreases |errors| - i
  {
    if i < |errors| {
      var seen' := init + KeysBefore(errors, i + 1);
      AsWrittenFromAgrees(errors, i + 1, init, seen', translate);
      AsWrittenStep(errors, i, init, seen, translate);
    }
  }

  /** One error: the reference's step and the as-written step emit the same reports. */
  lemma AsWrittenStep(errors: seq<ValidationError>, i: nat, init: set<string>, seen: set<string>, translate: string -> string)
    requires i < |errors| && PlainPaths(errors, init) && seen == init + KeysBefore(errors, i)
    ensures Kept(errors, i + 1, translate) + AsWrittenFrom(errors, i + 1, init + KeysBefore(errors, i + 1), translate)
            == Kept(errors, i, translate) + AsWrittenFrom(errors, i, seen, translate)
  {
    var e := errors[i];
    var seen' := init + KeysBefore(errors, i + 1);
    assert KeysBefore(errors, i + 1) == KeysBefore(errors, i) + {PathKey(e.path)};
    assert seen' == seen + {PathKey(e.path)};
    if e.errorType == "required" && HasPath(e) {
      SeenInKeysIff(errors, i, init, seen);
      if e.path.value in seen {
        assert seen' == seen;
      }
    }
  }

  /** For a `required` error with a path, the as-written lookup answers exactly when the path was seen. */
  lemma SeenInKeysIff(errors: seq<ValidationError>, i: nat, init: set<string>, seen: set<string>)
    requires i < |errors| && PlainPaths(errors, init) && seen == init + KeysBefore(errors, i)
    requires errors[i].errorType == "required" && HasPath(errors[i])
    ensures errors[i].path.value in seen <==> SeenBefore(errors, i, errors[i].path)
  {
    var e := errors[i];
    SeenBeforeIff(errors, i, e.path);
    assert PathKey(e.path) == e.path.value && e.path.value !in init;
    if e.path.value in KeysBefore(errors, i) {
      var j :| 0 <= j < i && PathKey(errors[j].path) == e.path.value;
      assert errors[j].path == e.path;
    }
    if SeenBefore(errors, i, e.path) {
      var j :| 0 <= j < i && errors[j].path == e.path;
      assert PathKey(errors[j].path) in KeysBefore(errors, i);
    }
  }

  /** The first `required` error on a field named `constructor` is dropped as written. */
  lemma PrototypePathDropped(translate: string -> string)
    ensures ProcessValidationErrorsAsWritten([ValidationError("required", Some("constructor"), "m")], translate) == []
    ensures Kept([ValidationError("required", Some("constructor"), "m")], 1, translate)
            == [Report(ValidationError("required", Some("constructor"), "m"), translate)]
  {
    var errors := [ValidationError("required", Some("constructor"), "m")];
    assert "constructor" in ObjectPrototypeKeys;
    assert !DroppedAt(errors, 0);
  }

  /** An error with no path makes a later `required` error on a field named `undefined` vanish. */
  lemma MissingPathShadowsUndefined(translate: string -> string)
    ensures |ProcessValidationErrorsAsWritten(
               [ValidationError("typeError", None, "a"), ValidationError("required", Some("undefined"), "b")],
               translate)| == 1
    ensures |Kept([ValidationError("typeError", None, "a"), ValidationError("required", Some("undefined"), "b")],
                  2, translate)| == 2
  {
    var errors := [ValidationError("typeError", None, "a"), ValidationError("required", Some("undefined"), "b")];
    assert "undefined" !in ObjectPrototypeKeys;
    assert !DroppedAt(errors, 0);
    assert !DroppedAt(errors, 1);
  }
}
