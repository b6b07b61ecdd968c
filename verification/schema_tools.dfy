/**
 * From parsed attributes to JSON-schema property fragments: the `@type` tag mapper
 * (`nameExpressionToSchemaType`), the per-class property map
 * (`jsonSchemaPropertiesFromClass`) and its merge across an inheritance chain
 * (`jsonSchemaPropertiesFromClassHierarchy`, a `lodash.merge` per class, derived class
 * first).
 */
module SchemaTools {
  import opened Wrappers
  import opened JsRuntime
  import opened JsDoc
  import JavascriptParser

  /** The fragment a name expression maps to: `type`, `format` and `$ref`, each optional. */
  datatype NameSchema = NameSchema(ty: Option<string>, format: Option<string>, ref: Option<string>)

  /** One entry of the property hash; `items` is only ever set for array types. */
  datatype Property = Property(
    ty: Option<string>,
    format: Option<string>,
    ref: Option<string>,
    items: Option<NameSchema>,
    description: Option<string>)

  /** The exception a JavaScript engine raises, reduced to its constructor name. */
  datatype Thrown = TypeError

  /** JSON-schema types a name expression passes through unchanged (after lower-casing). */
  const SchemaTypes: set<string> := {"string", "number", "boolean", "integer"}

  /** Every lower-cased name the mapper knows: the schema types plus `bool`, `date` and `regexp`. */
  const KnownNames: set<string> := SchemaTypes + {"bool", "date", "regexp"}

  const EmptyProperty := Property(None, None, None, None, None)

  // ---------------------------------------------------------------------------
  // nameExpressionToSchemaType

  /**
   * Maps a JSDoc name expression to a fragment. Known names are matched without
   * regard to ASCII case and give a `type` (`date` also a `date-time` format); an
   * unknown name whose first character lower-casing changes (a capitalised class
   * name) becomes a `$ref` to itself; anything else gives the empty fragment.
   */
  function NameExpressionToSchemaType(n: string): (r: NameSchema)
    ensures r.ty.Some? <==> ToLower(n) in KnownNames
    ensures r.ty.Some? ==> r.ty.value in SchemaTypes
    ensures ToLower(n) in SchemaTypes ==> r.ty == Some(ToLower(n))
    ensures r.format.Some? <==> ToLower(n) == "date"
    ensures r.format.Some? ==> r.format.value == "date-time" && r.ty == Some("string")
    ensures r.ref.Some? <==> ToLower(n) !in KnownNames && |n| > 0 && IsAsciiUpper(n[0])
    ensures r.ref.Some? ==> r.ref.value == n && r.ty.None?
  {
    var lower := ToLower(n);
    var name := if lower == "bool" then "boolean" else lower;
    if name in SchemaTypes then NameSchema(Some(name), None, None)
    else if name == "date" then NameSchema(Some("string"), Some("date-time"), None)
    else if name == "regexp" then NameSchema(Some("string"), None, None)
    else if |n| > 0 && n[0] != lower[0] then NameSchema(None, None, Some(n))
    else NameSchema(None, None, None)
  }

  /** The renamed and folded names: `bool` is `boolean`, `date` and `regexp` are strings, and an unknown lower-case name maps to `{}`. */
  lemma NameSpecialCases(n: string)
    ensures ToLower(n) == "bool" ==> NameExpressionToSchemaType(n) == NameSchema(Some("boolean"), None, None)
    ensures ToLower(n) == "date" ==> NameExpressionToSchemaType(n) == NameSchema(Some("string"), Some("date-time"), None)
    ensures ToLower(n) == "regexp" ==> NameExpressionToSchemaType(n) == NameSchema(Some("string"), None, None)
    ensures ToLower(n) !in KnownNames && NameExpressionToSchemaType(n).ref.None? ==>
              NameExpressionToSchemaType(n) == NameSchema(None, None, None)
  {
  }

  /**
   * The `type` and `format` a name expression maps to depend only on its lower-cased
   * spelling: `Number`, `NUMBER` and `number` give the same fragment apart from `$ref`.
   */
  lemma NameTypeIgnoresCase(m: string, n: string)
    requires ToLower(m) == ToLower(n)
    ensures NameExpressionToSchemaType(m).ty == NameExpressionToSchemaType(n).ty
    ensures NameExpressionToSchemaType(m).format == NameExpressionToSchemaType(n).format
  {
  }

  // ---------------------------------------------------------------------------
  // jsonSchemaPropertiesFromClass

  /** The tag `find` looks for: titled `type` and carrying a parsed type. */
  predicate IsTypeTag(t: Tag) {
    t.title == "type" && t.ty.Some?
  }

  /** `tags.find(...)`: the index of the first type tag, if any. */
  function FirstTypeTag(tags: seq<Tag>): (r: Option<nat>)
    ensures r.Some? ==> r.value < |tags| && IsTypeTag(tags[r.value])
    ensures r.Some? ==> forall j | 0 <= j < r.value :: !IsTypeTag(tags[j])
    ensures r.None? <==> forall j | 0 <= j < |tags| :: !IsTypeTag(tags[j])
  {
    if |tags| == 0 then None
    else if IsTypeTag(tags[0]) then Some(0)
    else match FirstTypeTag(tags[1..])
      case None => None
      case Some(k) => Some(k + 1)
  }

  /** The type of an attribute's first type tag; nothing for an undocumented attribute. */
  function TypeTagOf(doc: Option<Doc>): (r: Option<TypeExpr>)
    ensures r.Some? ==> doc.Some? && exists j | 0 <= j < |doc.value.tags| :: doc.value.tags[j].ty == r
    ensures doc.Some? && (exists j | 0 <= j < |doc.value.tags| :: IsTypeTag(doc.value.tags[j])) ==> r.Some?
    ensures doc.Some? && FirstTypeTag(doc.value.tags).Some? ==> r == doc.value.tags[FirstTypeTag(doc.value.tags).value].ty
    ensures doc.None? || FirstTypeTag(doc.value.tags).None? ==> r.None?
  {
    if doc.None? then None
    else match FirstTypeTag(doc.value.tags)
      case None => None
      case Some(k) => doc.value.tags[k].ty
  }

  /** `Type[]` or `Array<Type>`: an application whose expression is the name `Array`. */
  predicate IsArrayApp(t: TypeExpr) {
    t.TypeApp? && t.expression == Some("Array")
  }

  /**
   * An array application whose first element is not a name expression: reading
   * `.name` gives `undefined`, and the mapper's `toLowerCase` call on it throws.
   */
  predicate ItemsThrow(t: TypeExpr) {
    IsArrayApp(t) && |t.applications| > 0 && !t.applications[0].NameExpr?
  }

  function FromName(f: NameSchema): Property {
    Property(f.ty, f.format, f.ref, None, None)
  }

  /** The fragment for one type tag, before the description is added; `None` is `null`. */
  function TypeProps(t: TypeExpr): (r: Result<Option<Property>, Thrown>)
    ensures r.Failure? <==> ItemsThrow(t)
    ensures r.Success? ==> (r.value.Some? <==> t.NameExpr? || IsArrayApp(t))
    ensures t.NameExpr? ==> r == Success(Some(FromName(NameExpressionToSchemaType(t.name))))
    ensures IsArrayApp(t) && r.Success? ==>
              && r.value.Some? && r.value.value.ty == Some("array")
              && r.value.value.format.None? && r.value.value.ref.None? && r.value.value.description.None?
              && (r.value.value.items.Some? <==> |t.applications| > 0)
              && (|t.applications| > 0 ==> r.value.value.items == Some(NameExpressionToSchemaType(t.applications[0].name)))
  {
    if IsArrayApp(t) then
      if |t.applications| == 0 then Success(Some(EmptyProperty.(ty := Some("array"))))
      else match t.applications[0]
        case NameExpr(n) => Success(Some(EmptyProperty.(ty := Some("array"), items := Some(NameExpressionToSchemaType(n)))))
        case _ => Failure(TypeError)
    else match t
      case NameExpr(n) => Success(Some(FromName(NameExpressionToSchemaType(n))))
      case _ => Success(None)
  }

  /**
   * One property entry: the type tag's fragment (or `{}`), plus the doc's description
   * when that is non-empty. Fails exactly when the type tag is an array application
   * over something other than a name.
   */
  function PropertyFor(a: JavascriptParser.Attribute): (r: Result<Property, Thrown>)
    ensures r.Failure? <==> TypeTagOf(a.doc).Some? && ItemsThrow(TypeTagOf(a.doc).value)
    ensures r.Success? ==>
              r.value.description == (if a.doc.Some? && a.doc.value.description != "" then Some(a.doc.value.description) else None)
    ensures r.Success? ==> (r.value.ty == Some("array") <==> TypeTagOf(a.doc).Some? && IsArrayApp(TypeTagOf(a.doc).value))
    ensures r.Success? ==>
              (r.value.items.Some? <==> TypeTagOf(a.doc).Some? && IsArrayApp(TypeTagOf(a.doc).value)
                                        && |TypeTagOf(a.doc).value.applications| > 0)
    ensures TypeTagOf(a.doc).None? ==> r.Success? && r.value.(description := None) == EmptyProperty
    ensures TypeTagOf(a.doc).Some? && TypeTagOf(a.doc).value.NameExpr? ==>
              && r.Success?
              && r.value.(description := None) == FromName(NameExpressionToSchemaType(TypeTagOf(a.doc).value.name))
    ensures TypeTagOf(a.doc).Some? && IsArrayApp(TypeTagOf(a.doc).value) && r.Success? ==>
              && r.value.format.None? && r.value.ref.None?
              && (|TypeTagOf(a.doc).value.applications| > 0 ==>
                    r.value.items == Some(NameExpressionToSchemaType(TypeTagOf(a.doc).value.applications[0].name)))
    ensures TypeTagOf(a.doc).Some? && !IsArrayApp(TypeTagOf(a.doc).value) && !TypeTagOf(a.doc).value.NameExpr? ==>
              r.Success? && r.value.(description := None) == EmptyProperty
  {
    var tag := TypeTagOf(a.doc);
    var typeProps :- if tag.Some? then TypeProps(tag.value) else Success(None);
    var base := typeProps.GetOr(EmptyProperty);
    if a.doc.Some? && a.doc.value.description != "" then Success(base.(description := Some(a.doc.value.description)))
    else Success(base)
  }

  /** The names of a list of attributes, as a set. */
  function NameSet(attrs: seq<JavascriptParser.Attribute>): set<string> {
    set k | 0 <= k < |attrs| :: attrs[k].name
  }

  /** Each attribute's entry, or the exception its mapping raises. */
  function Entries(attrs: seq<JavascriptParser.Attribute>): (r: seq<Result<Property, Thrown>>)
    ensures |r| == |attrs| && forall k | 0 <= k < |attrs| :: r[k] == PropertyFor(attrs[k])
  {
    seq(|attrs|, k requires 0 <= k < |attrs| => PropertyFor(attrs[k]))
  }

  /** `properties[name] = value` for each pair in order: a repeated name keeps the last value. */
  function Fill(names: seq<string>, vals: seq<Property>): (m: map<string, Property>)
    requires |names| == |vals|
    ensures m.Keys == set k | 0 <= k < |names| :: names[k]
  {
    if |names| == 0 then map[]
    else
      var n := |names| - 1;
      assert forall k | 0 <= k < n :: names[..n][k] == names[k];
      Fill(names[..n], vals[..n])[names[n] := vals[n]]
  }

  /** With distinct names every name holds its own value. */
  lemma {:induction false} FillDistinct(names: seq<string>, vals: seq<Property>, k: nat)
    requires |names| == |vals| && k < |names|
    requires forall p, q | 0 <= p < q < |names| :: names[p] != names[q]
    ensures Fill(names, vals)[names[k]] == vals[k]
    decreases |names|
  {
    var n := |names| - 1;
    if k < n {
      assert names[..n][k] == names[k] && vals[..n][k] == vals[k];
      assert names[k] != names[n];
      FillDistinct(names[..n], vals[..n], k);
    }
  }

  /**
   * The property hash of a list of attributes, filled in order (a repeated name keeps
   * the last entry); an attribute whose mapping throws aborts the whole hash.
   */
  function PropertiesFromAttributes(attrs: seq<JavascriptParser.Attribute>): (r: Result<map<string, Property>, Thrown>)
    ensures r.Success? <==> forall k | 0 <= k < |attrs| :: PropertyFor(attrs[k]).Success?
    ensures r.Success? ==> r.value.Keys == NameSet(attrs)
  {
    var names := JavascriptParser.Names(attrs);
    match Collect(Entries(attrs))
    case Failure(e) => Failure(e)
    case Success(vals) =>
      assert NameSet(attrs) == set k | 0 <= k < |names| :: names[k];
      Success(Fill(names, vals))
  }

  /** With distinct names (as the parser guarantees) every attribute keeps its own entry. */
  lemma PropertiesFromDistinct(attrs: seq<JavascriptParser.Attribute>)
    requires JavascriptParser.DistinctNames(attrs)
    requires PropertiesFromAttributes(attrs).Success?
    ensures forall k | 0 <= k < |attrs| ::
              PropertiesFromAttributes(attrs).value[attrs[k].name] == PropertyFor(attrs[k]).value
  {
    var names := JavascriptParser.Names(attrs);
    var vals := Collect(Entries(attrs)).value;
    forall k | 0 <= k < |attrs|
      ensures PropertiesFromAttributes(attrs).value[attrs[k].name] == PropertyFor(attrs[k]).value
    {
      FillDistinct(names, vals, k);
    }
  }

  /** The hash of a parser result: distinct names, so each attribute keeps its own entry. */
  function HashOf(attrs: seq<JavascriptParser.Attribute>): (r: Result<map<string, Property>, Thrown>)
    requires JavascriptParser.DistinctNames(attrs)
    ensures r.Success? <==> forall k | 0 <= k < |attrs| :: PropertyFor(attrs[k]).Success?
    ensures r.Success? ==> r.value.Keys == NameSet(attrs)
    ensures r.Success? ==> forall k | 0 <= k < |attrs| :: r.value[attrs[k].name] == PropertyFor(attrs[k]).value
  {
    var r := PropertiesFromAttributes(attrs);
    if r.Success? then PropertiesFromDistinct(attrs); r else r
  }

  /** `jsonSchemaPropertiesFromClass` on the class's source text. */
  function PropertiesFromClass(src: string, parse: string -> Doc): (r: Result<map<string, Property>, Thrown>)
    ensures var attrs := JavascriptParser.ParseAttributes(src, parse);
            && (r.Success? <==> forall k | 0 <= k < |attrs| :: PropertyFor(attrs[k]).Success?)
            && (r.Success? ==> r.value.Keys == NameSet(attrs))
            && (r.Success? ==> forall k | 0 <= k < |attrs| :: r.value[attrs[k].name] == PropertyFor(attrs[k]).value)
  {
    HashOf(JavascriptParser.ParseAttributes(src, parse))
  }

  /**
   * `jsonSchemaPropertiesFromClass` over the parser as written, whose plain-object
   * lookup drops attributes named like `Object.prototype` members: the hash is the
   * corrected one without those names.
   */
  function PropertiesFromClassAsWritten(src: string, parse: string -> Doc): (r: Result<map<string, Property>, Thrown>)
    ensures var attrs := JavascriptParser.ParseAttributes(src, parse);
            r.Success? <==> forall k | 0 <= k < |attrs| && attrs[k].name !in ObjectPrototypeKeys :: PropertyFor(attrs[k]).Success?
    ensures var full := PropertiesFromClass(src, parse);
            full.Success? ==>
              r == Success(map x | x in full.value && x !in ObjectPrototypeKeys :: full.value[x])
  {
    AsWrittenHashDropsPrototypeNames(src, parse);
    HashOf(JavascriptParser.ParseAttributesAsWritten(src, parse))
  }

  lemma AsWrittenHashDropsPrototypeNames(src: string, parse: string -> Doc)
    ensures var attrs := JavascriptParser.ParseAttributes(src, parse);
            var r := HashOf(JavascriptParser.ParseAttributesAsWritten(src, parse));
            r.Success? <==> forall k | 0 <= k < |attrs| && attrs[k].name !in ObjectPrototypeKeys :: PropertyFor(attrs[k]).Success?
    ensures var full := PropertiesFromClass(src, parse);
            var r := HashOf(JavascriptParser.ParseAttributesAsWritten(src, parse));
            full.Success? ==>
              r == Success(map x | x in full.value && x !in ObjectPrototypeKeys :: full.value[x])
  {
    var attrs := JavascriptParser.ParseAttributes(src, parse);
    JavascriptParser.WithoutDistinct(attrs, ObjectPrototypeKeys);
    HashWithout(attrs, ObjectPrototypeKeys);
  }

  /** Leaving out the attributes with reserved names leaves out exactly their keys. */
  lemma HashWithout(attrs: seq<JavascriptParser.Attribute>, reserved: set<string>)
    requires JavascriptParser.DistinctNames(attrs) && JavascriptParser.DistinctNames(JavascriptParser.Without(attrs, reserved))
    ensures var r := HashOf(JavascriptParser.Without(attrs, reserved));
            r.Success? <==> forall k | 0 <= k < |attrs| && attrs[k].name !in reserved :: PropertyFor(attrs[k]).Success?
    ensures var full := HashOf(attrs);
            var r := HashOf(JavascriptParser.Without(attrs, reserved));
            full.Success? ==> r == Success(map x | x in full.value && x !in reserved :: full.value[x])
  {
    var kept := JavascriptParser.Without(attrs, reserved);
    forall k | 0 <= k < |attrs| && attrs[k].name !in reserved
      ensures attrs[k] in kept
    {
      WithoutKeeps(attrs, reserved, k);
    }
    if HashOf(attrs).Success? {
      HashWithoutValues(attrs, reserved);
      var full := HashOf(attrs).value;
      var r := HashOf(kept).value;
      RestrictionOf(r, full, reserved);
    }
  }

  /** A map that agrees with `full` on exactly the keys outside `reserved` is `full` restricted to them. */
  lemma RestrictionOf(r: map<string, Property>, full: map<string, Property>, reserved: set<string>)
    requires forall x :: x in r <==> x in full && x !in reserved
    requires forall x | x in r :: r[x] == full[x]
    ensures r == map x | x in full && x !in reserved :: full[x]
  {
    var m := map x | x in full && x !in reserved :: full[x];
    assert r.Keys == m.Keys;
  }

  lemma HashWithoutValues(attrs: seq<JavascriptParser.Attribute>, reserved: set<string>)
    requires JavascriptParser.DistinctNames(attrs) && JavascriptParser.DistinctNames(JavascriptParser.Without(attrs, reserved))
    requires HashOf(attrs).Success?
    ensures HashOf(JavascriptParser.Without(attrs, reserved)).Success?
    ensures forall x :: x in HashOf(JavascriptParser.Without(attrs, reserved)).value <==> x in HashOf(attrs).value && x !in reserved
    ensures forall x | x in HashOf(JavascriptParser.Without(attrs, reserved)).value ::
              HashOf(JavascriptParser.Without(attrs, reserved)).value[x] == HashOf(attrs).value[x]
  {
    var kept := JavascriptParser.Without(attrs, reserved);
    var full := HashOf(attrs).value;
    assert HashOf(kept).Success? by {
      forall j | 0 <= j < |kept| ensures PropertyFor(kept[j]).Success? {
        assert kept[j] in kept;
      }
    }
    var r := HashOf(kept).value;
    forall x ensures x in r <==> x in full && x !in reserved {
      assert x in NameSet(kept) <==> x in JavascriptParser.Names(kept);
      assert x in NameSet(attrs) <==> x in JavascriptParser.Names(attrs);
    }
    forall x | x in r ensures r[x] == full[x] {
      HashWithoutAt(attrs, reserved, x);
    }
  }

  lemma HashWithoutAt(attrs: seq<JavascriptParser.Attribute>, reserved: set<string>, x: string)
    requires JavascriptParser.DistinctNames(attrs) && JavascriptParser.DistinctNames(JavascriptParser.Without(attrs, reserved))
    requires HashOf(attrs).Success? && HashOf(JavascriptParser.Without(attrs, reserved)).Success?
    requires x in HashOf(JavascriptParser.Without(attrs, reserved)).value
    ensures x in HashOf(attrs).value
    ensures HashOf(JavascriptParser.Without(attrs, reserved)).value[x] == HashOf(attrs).value[x]
  {
    var kept := JavascriptParser.Without(attrs, reserved);
    var j :| 0 <= j < |kept| && kept[j].name == x;
    assert kept[j] in kept;
    var i :| 0 <= i < |attrs| && attrs[i] == kept[j];
  }

  /** With distinct names, an attribute whose name is not reserved survives `Without`. */
  lemma WithoutKeeps(attrs: seq<JavascriptParser.Attribute>, reserved: set<string>, k: nat)
    requires JavascriptParser.DistinctNames(attrs) && k < |attrs| && attrs[k].name !in reserved
    ensures attrs[k] in JavascriptParser.Without(attrs, reserved)
  {
    var kept := JavascriptParser.Without(attrs, reserved);
    assert attrs[k].name in JavascriptParser.Names(attrs);
    assert attrs[k].name in JavascriptParser.Names(kept);
    var j :| 0 <= j < |kept| && JavascriptParser.Names(kept)[j] == attrs[k].name;
    assert kept[j] in kept;
    var i :| 0 <= i < |attrs| && attrs[i] == kept[j];
    assert i == k;
  }

  // ---------------------------------------------------------------------------
  // lodash.merge over property hashes

  /** A defined source value replaces the destination's; an undefined one leaves it. */
  function Over(d: Option<string>, s: Option<string>): Option<string> {
    if s.Some? then s else d
  }

  function MergeName(d: NameSchema, s: NameSchema): NameSchema {
    NameSchema(Over(d.ty, s.ty), Over(d.format, s.format), Over(d.ref, s.ref))
  }

  /** Scalar fields: the source wins when it has one; `items` objects are merged key by key. */
  function MergeProperty(d: Property, s: Property): Property {
    Property(
      Over(d.ty, s.ty),
      Over(d.format, s.format),
      Over(d.ref, s.ref),
      if d.items.Some? && s.items.Some? then Some(MergeName(d.items.value, s.items.value))
      else if s.items.Some? then s.items else d.items,
      Over(d.description, s.description))
  }

  /** `lodash.merge(dst, src)` on two property hashes. */
  function MergeProps(dst: map<string, Property>, src: map<string, Property>): (r: map<string, Property>)
    ensures r.Keys == dst.Keys + src.Keys
  {
    map k | k in dst.Keys + src.Keys ::
      if k in dst && k in src then MergeProperty(dst[k], src[k])
      else if k in src then src[k] else dst[k]
  }

  /** The hashes of a class chain (derived class first) merged into `{}` in order. */
  function MergeChain(levels: seq<map<string, Property>>): map<string, Property> {
    if |levels| == 0 then map[]
    else MergeProps(MergeChain(levels[..|levels| - 1]), levels[|levels| - 1])
  }

  /** Every scalar a merged property carries, including those inside `items`. */
  datatype Slot = TySlot | FormatSlot | RefSlot | DescriptionSlot | ItemsTySlot | ItemsFormatSlot | ItemsRefSlot

  function At(p: Property, slot: Slot): Option<string> {
    match slot
    case TySlot => p.ty
    case FormatSlot => p.format
    case RefSlot => p.ref
    case DescriptionSlot => p.description
    case ItemsTySlot => if p.items.Some? then p.items.value.ty else None
    case ItemsFormatSlot => if p.items.Some? then p.items.value.format else None
    case ItemsRefSlot => if p.items.Some? then p.items.value.ref else None
  }

  /** Level `i` sets `slot` of property `x`. */
  predicate SetsAt(levels: seq<map<string, Property>>, i: nat, x: string, slot: Slot)
    requires i < |levels|
  {
    x in levels[i] && At(levels[i][x], slot).Some?
  }

  /**
   * Reference definition of the precedence: the value of `slot` in property `x` comes
   * from the LAST level of the chain (the most remote ancestor) that sets it.
   */
  function Defined(levels: seq<map<string, Property>>, x: string, slot: Slot): (r: Option<string>)
    ensures r.None? <==> forall i | 0 <= i < |levels| :: !SetsAt(levels, i, x, slot)
    ensures r.Some? ==>
              exists i | 0 <= i < |levels| ::
                && SetsAt(levels, i, x, slot)
                && r == At(levels[i][x], slot)
                && forall j | i < j < |levels| :: !SetsAt(levels, j, x, slot)
  {
    if |levels| == 0 then None
    else
      var n := |levels| - 1;
      if SetsAt(levels, n, x, slot) then At(levels[n][x], slot)
      else
        var prev := Defined(levels[..n], x, slot);
        assert forall i | 0 <= i < n :: SetsAt(levels[..n], i, x, slot) == SetsAt(levels, i, x, slot);
        prev
  }

  lemma MergePropertySlot(d: Property, s: Property, slot: Slot)
    ensures At(MergeProperty(d, s), slot) == Over(At(d, slot), At(s, slot))
  {
  }

  /** The merged keys are exactly the keys of some level. */
  lemma {:induction false} MergeChainKeys(levels: seq<map<string, Property>>, x: string)
    ensures x in MergeChain(levels) <==> exists i | 0 <= i < |levels| :: x in levels[i]
  {
    if |levels| > 0 {
      var n := |levels| - 1;
      MergeChainKeys(levels[..n], x);
      assert forall i | 0 <= i < n :: levels[..n][i] == levels[i];
    }
  }

  /**
   * Ancestor wins: every scalar of a merged property (its own or inside `items`) is
   * the one set by the most remote class of the chain that sets it.
   */
  lemma {:induction false} MergeChainSlot(levels: seq<map<string, Property>>, x: string, slot: Slot)
    requires x in MergeChain(levels)
    ensures At(MergeChain(levels)[x], slot) == Defined(levels, x, slot)
  {
    var n := |levels| - 1;
    var prefix := levels[..n];
    var acc := MergeChain(prefix);
    var last := levels[n];
    assert forall i | 0 <= i < n :: SetsAt(prefix, i, x, slot) == SetsAt(levels, i, x, slot);
    if x in acc {
      MergeChainSlot(prefix, x, slot);
      if x in last {
        MergePropertySlot(acc[x], last[x], slot);
      }
    } else {
      MergeChainKeys(prefix, x);
      assert Defined(prefix, x, slot).None? by {
        forall i | 0 <= i < n ensures !SetsAt(prefix, i, x, slot) {
          assert x !in prefix[i];
        }
      }
    }
  }

  /** A merged property has `items` exactly when some class of the chain gives it `items`. */
  lemma {:induction false} MergeChainItems(levels: seq<map<string, Property>>, x: string)
    requires x in MergeChain(levels)
    ensures MergeChain(levels)[x].items.Some? <==>
              exists i | 0 <= i < |levels| :: x in levels[i] && levels[i][x].items.Some?
  {
    var n := |levels| - 1;
    var prefix := levels[..n];
    assert forall i | 0 <= i < n :: prefix[i] == levels[i];
    if x in MergeChain(prefix) {
      MergeChainItems(prefix, x);
    } else {
      MergeChainKeys(prefix, x);
    }
  }

  // ---------------------------------------------------------------------------
  // jsonSchemaPropertiesFromClassHierarchy

  /** All the values of a list of results, or the first failure. */
  function Collect<T>(rs: seq<Result<T, Thrown>>): (r: Result<seq<T>, Thrown>)
    ensures r.Success? <==> forall k | 0 <= k < |rs| :: rs[k].Success?
    ensures r.Success? ==> |r.value| == |rs| && forall k | 0 <= k < |rs| :: rs[k] == Success(r.value[k])
  {
    if |rs| == 0 then Success([])
    else
      var n := |rs| - 1;
      var prev :- Collect(rs[..n]);
      var last :- rs[n];
      assert forall k | 0 <= k < n :: rs[..n][k] == rs[k];
      Success(prev + [last])
  }

  /** The property hash of every class of the chain, or the first exception. */
  function Levels(chain: seq<string>, parse: string -> Doc): (r: Result<seq<map<string, Property>>, Thrown>)
    ensures r.Success? <==> forall k | 0 <= k < |chain| :: PropertiesFromClass(chain[k], parse).Success?
    ensures r.Success? ==> |r.value| == |chain|
    ensures r.Success? ==> forall k | 0 <= k < |chain| :: PropertiesFromClass(chain[k], parse) == Success(r.value[k])
  {
    var hashes := ClassHashes(chain, parse);
    Collect(hashes)
  }

  function ClassHashes(chain: seq<string>, parse: string -> Doc): (r: seq<Result<map<string, Property>, Thrown>>)
    ensures |r| == |chain|
    ensures forall k | 0 <= k < |chain| :: r[k] == PropertiesFromClass(chain[k], parse)
  {
    seq(|chain|, k requires 0 <= k < |chain| => PropertiesFromClass(chain[k], parse))
  }

  /**
   * `jsonSchemaPropertiesFromClassHierarchy`: `chain` holds the source text of the class
   * and of each ancestor up to the root, derived class first.
   */
  function PropertiesFromHierarchy(chain: seq<string>, parse: string -> Doc): (r: Result<map<string, Property>, Thrown>)
    ensures r.Success? <==> forall k | 0 <= k < |chain| :: PropertiesFromClass(chain[k], parse).Success?
    ensures r.Success? ==>
              forall x :: x in r.value <==>
                exists k | 0 <= k < |chain| :: x in NameSet(JavascriptParser.ParseAttributes(chain[k], parse))
  {
    var levels :- Levels(chain, parse);
    forall x ensures x in MergeChain(levels) <==>
        exists k | 0 <= k < |chain| :: x in NameSet(JavascriptParser.ParseAttributes(chain[k], parse))
    {
      MergeChainKeys(levels, x);
    }
    Success(MergeChain(levels))
  }

  /** In the hierarchy's hash, each field of a property comes from the most remote ancestor that sets it. */
  lemma AncestorWins(chain: seq<string>, parse: string -> Doc, x: string, slot: Slot)
    ensures var r := PropertiesFromHierarchy(chain, parse);
            r.Success? && x in r.value ==>
              At(r.value[x], slot) == Defined(Levels(chain, parse).value, x, slot)
  {
    var r := PropertiesFromHierarchy(chain, parse);
    if r.Success? && x in r.value {
      MergeChainSlot(Levels(chain, parse).value, x, slot);
    }
  }

  // ---------------------------------------------------------------------------
  // The documented example class, tag by tag

  function TypeDoc(description: string, ty: TypeExpr): JavascriptParser.Attribute {
    JavascriptParser.Attribute("p", Some(Doc(description, [Tag("type", None, Some(ty))])))
  }

  /** Type tags `bool` and `string`. */
  lemma NameExamples()
    ensures PropertyFor(TypeDoc("", NameExpr("bool"))) == Success(EmptyProperty.(ty := Some("boolean")))
    ensures PropertyFor(TypeDoc("", NameExpr("string"))) == Success(EmptyProperty.(ty := Some("string")))
  {
    assert ToLower("bool") == "bool";
    assert ToLower("string") == "string";
  }

  /** Capitalised type tags: `Number` is a known type, `SomeType` a reference. */
  lemma CapitalisedNameExamples()
    ensures PropertyFor(TypeDoc("", NameExpr("Number"))) == Success(EmptyProperty.(ty := Some("number")))
    ensures PropertyFor(TypeDoc("", NameExpr("SomeType"))) == Success(EmptyProperty.(ref := Some("SomeType")))
  {
    assert ToLower("Number") == "number";
    assert ToLower("SomeType") == "sometype";
  }

  /** No doc, a description only, and an unknown lower-case type with a description. */
  lemma DescriptionExamples()
    ensures PropertyFor(JavascriptParser.Attribute("a", None)) == Success(EmptyProperty)
    ensures PropertyFor(JavascriptParser.Attribute("b", Some(Doc("Just description", []))))
            == Success(EmptyProperty.(description := Some("Just description")))
    ensures PropertyFor(TypeDoc("Help should still show", NameExpr("invalid")))
            == Success(EmptyProperty.(description := Some("Help should still show")))
  {
    assert ToLower("invalid") == "invalid";
  }

  /** `Number[]`, `Array<SomeType>`, and an array of a non-name type, which throws. */
  lemma ArrayExamples()
    ensures PropertyFor(TypeDoc("", TypeApp(Some("Array"), [NameExpr("Number")])))
            == Success(EmptyProperty.(ty := Some("array"), items := Some(NameSchema(Some("number"), None, None))))
    ensures PropertyFor(TypeDoc("", TypeApp(Some("Array"), [NameExpr("SomeType")])))
            == Success(EmptyProperty.(ty := Some("array"), items := Some(NameSchema(None, None, Some("SomeType")))))
    ensures PropertyFor(TypeDoc("", TypeApp(Some("Array"), [OtherType]))) == Failure(TypeError)
  {
    assert ToLower("Number") == "number";
    assert ToLower("SomeType") == "sometype";
  }
}
