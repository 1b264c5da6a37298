/** What a compatible verdict guarantees about payloads.

    Payloads of the previous version, with only declared fields, are read under the
    next version with its defaults filled in. The guarantee is that all of them are
    valid there. It is characterised for every pair of record schemas, whatever
    their fields' schemas, and then set against what the four rules check.
 */
module SchemaGuarantee {
  import opened Sums
  import opened SchemaCompat
  import opened SchemaMeaning
  import opened SchemaContainment

  /** A schema that does not list whole payloads one by one. */
  predicate RecordSchema(schema: Json) {
    schema.JObj? && !HasEnum(schema)
  }

  /** Its type lets objects in and its keywords are well formed. */
  predicate AdmitsObjects(schema: Json) {
    WellFormed(schema) && KindAllowed(schema, ObjectKind)
  }

  predicate Declared(schema: Json, payload: Json) {
    payload.JObj? && payload.fields.Keys <= Properties(schema).Keys
  }

  /** A consumer on the schema reads a missing declared field as its default. */
  function Filled(schema: Json, payload: Json): Json
    requires payload.JObj?
  {
    var props := Properties(schema);
    var missing := map f | f in props && f !in payload.fields && HasDefault(props, f) :: props[f].fields["default"];
    JObj(missing + payload.fields)
  }

  ghost predicate Guarantee(prev: Json, next: Json) {
    forall payload :: Declared(prev, payload) && Valid(prev, payload) ==> Valid(next, Filled(next, payload))
  }

  lemma {:induction false} RecordValidity(schema: Json, payload: Json)
    requires RecordSchema(schema) && payload.JObj?
    ensures Valid(schema, payload) <==>
              AdmitsObjects(schema) && HasRequired(schema, payload.fields) && FieldsValid(schema, payload.fields)
  {
    ValidByParts(schema, payload);
    KindDecides(schema, payload);
  }

  // ── Exactly when old payloads stay valid ───────────────────────────────────

  /** Some payload of declared fields is valid. */
  predicate HasPayload(schema: Json) {
    Offers(schema, ObjectKind) && forall f :: f in Required(schema) ==> f in Properties(schema)
  }

  predicate FieldsContained(prev: Json, next: Json) {
    var pp, np := Properties(prev), Properties(next);
    forall f :: f in pp && f in np ==> Contained(pp[f], np[f])
  }

  predicate RequiredCovered(prev: Json, next: Json) {
    forall f :: f in Required(next) ==> f in Required(prev) || HasDefault(Properties(next), f)
  }

  /** Every default some payload needs is valid. One of a field that was required already never is needed. */
  predicate UsedDefaultsValid(prev: Json, next: Json) {
    var np := Properties(next);
    forall f :: f in np && HasDefault(np, f) && f !in Required(prev) ==> Valid(np[f], np[f].fields["default"])
  }

  lemma {:induction false} PayloadExists(schema: Json) returns (payload: Json)
    requires RecordSchema(schema) && HasPayload(schema)
    ensures Declared(schema, payload) && Valid(schema, payload)
  {
    var o := OfferedValue(schema, ObjectKind);
    RecordValidity(schema, o);
    payload := JObj(map f | f in Required(schema) :: o.fields[f]);
    RecordValidity(schema, payload);
  }

  lemma {:induction false} PayloadMeansHasPayload(schema: Json, payload: Json)
    requires RecordSchema(schema) && Declared(schema, payload) && Valid(schema, payload)
    ensures HasPayload(schema)
  {
    ValidIsOffered(schema, payload);
    RecordValidity(schema, payload);
  }

  predicate Absorbs(prev: Json, next: Json) {
    AdmitsObjects(next) && FieldsContained(prev, next) && RequiredCovered(prev, next) && UsedDefaultsValid(prev, next)
  }

  lemma {:induction false} FilledIsValid(prev: Json, next: Json, payload: Json)
    requires RecordSchema(prev) && RecordSchema(next) && Absorbs(prev, next)
    requires Declared(prev, payload) && Valid(prev, payload)
    ensures Valid(next, Filled(next, payload))
  {
    var pp, np := Properties(prev), Properties(next);
    var filled := Filled(next, payload);
    RecordValidity(prev, payload);
    RecordValidity(next, filled);
    forall f | f in np && f in filled.fields
      ensures Valid(np[f], filled.fields[f])
    {
      if f in payload.fields {
        ContainedAccepts(pp[f], np[f], payload.fields[f]);
      }
    }
  }

  /** A field whose schema lost a value breaks the guarantee. */
  lemma {:induction false} LostValueBreaks(prev: Json, next: Json, example: Json, f: string)
    requires RecordSchema(prev) && RecordSchema(next) && Declared(prev, example) && Valid(prev, example)
    requires f in Properties(prev) && f in Properties(next) && !Contained(Properties(prev)[f], Properties(next)[f])
    ensures !Guarantee(prev, next)
  {
    var x := NotContainedRejects(Properties(prev)[f], Properties(next)[f]);
    var bad := JObj(example.fields[f := x]);
    FieldChanged(prev, example, f, x);
    RecordValidity(next, Filled(next, bad));
    assert Filled(next, bad).fields[f] == x;
    assert Declared(prev, bad) && Valid(prev, bad);
  }

  /** So does a field newly required without a default, or with a default that is not valid. */
  lemma {:induction false} AbsentFieldBreaks(prev: Json, next: Json, example: Json, f: string)
    requires RecordSchema(prev) && RecordSchema(next) && Declared(prev, example) && Valid(prev, example)
    requires f !in Required(prev)
    requires var np := Properties(next);
             (f in Required(next) && !HasDefault(np, f))
             || (f in np && HasDefault(np, f) && !Valid(np[f], np[f].fields["default"]))
    ensures !Guarantee(prev, next)
  {
    var bad := JObj(example.fields - {f});
    FieldDropped(prev, example, f);
    RecordValidity(next, Filled(next, bad));
    assert Declared(prev, bad) && Valid(prev, bad);
  }

  /** For any two record schemas, all old payloads stay valid if and only if there are
      none, or next admits objects, every field kept still accepts the values it did,
      what is required was required or has a default, and the defaults that payloads
      need are valid.
   */
  lemma {:induction false} GuaranteeExactly(prev: Json, next: Json)
    requires RecordSchema(prev) && RecordSchema(next)
    ensures Guarantee(prev, next) <==> (HasPayload(prev) ==> Absorbs(prev, next))
  {
    if !HasPayload(prev) {
      forall payload | Declared(prev, payload) && Valid(prev, payload)
        ensures false
      {
        PayloadMeansHasPayload(prev, payload);
      }
    } else if Absorbs(prev, next) {
      forall payload | Declared(prev, payload) && Valid(prev, payload)
        ensures Valid(next, Filled(next, payload))
      {
        FilledIsValid(prev, next, payload);
      }
    } else {
      var example := PayloadExists(prev);
      var pp, np := Properties(prev), Properties(next);
      if !AdmitsObjects(next) {
        RecordValidity(next, Filled(next, example));
      } else if f :| f in pp && f in np && !Contained(pp[f], np[f]) {
        LostValueBreaks(prev, next, example, f);
      } else if f :| f in Required(next) && f !in Required(prev) && !HasDefault(np, f) {
        AbsentFieldBreaks(prev, next, example, f);
      } else {
        var f :| f in np && HasDefault(np, f) && f !in Required(prev) && !Valid(np[f], np[f].fields["default"]);
        AbsentFieldBreaks(prev, next, example, f);
      }
    }
  }

  // ── What the four rules contribute ─────────────────────────────────────────

  predicate DefaultsAreTyped(schema: Json) {
    var props := Properties(schema);
    forall f :: f in props && HasDefault(props, f) ==> Valid(props[f], props[f].fields["default"])
  }

  /** A compatible verdict settles what is required; with valid defaults, what it leaves
      open is exactly whether next admits objects and every field still accepts the
      values it did.
   */
  lemma {:induction false} CompatibleVerdictExactly(prev: Json, next: Json)
    requires RecordSchema(prev) && RecordSchema(next) && Compatible(prev, next)
    requires HasPayload(prev) && DefaultsAreTyped(next)
    ensures Guarantee(prev, next) <==> AdmitsObjects(next) && FieldsContained(prev, next)
  {
    GuaranteeExactly(prev, next);
  }

  const STANDARD_TYPES: set<string> := {"null", "boolean", "object", "array", "number", "integer", "string"}

  /** On the standard names rule 2 is exact: it lets a type change pass if and only if every
      value of the old type is one of the new.
   */
  lemma {:induction false} TypeRuleExactly(prev: string, next: string)
    requires prev in STANDARD_TYPES && next in STANDARD_TYPES
    ensures CompatibleType(prev, next) <==> forall v :: TypeMatches(prev, v) ==> TypeMatches(next, v)
  {
    if forall v :: TypeMatches(prev, v) ==> TypeMatches(next, v) {
      forall v | TypeMatches(prev, v)
        ensures TypeMatches(next, v)
      {
      }
      assert TypeMatches("null", JNull) && TypeMatches("boolean", JBool(true)) && TypeMatches("integer", JInt(0));
      assert (0.5).Floor == 0 && TypeMatches("number", JFloat(0.5)) && !TypeMatches("integer", JFloat(0.5));
      assert TypeMatches("string", JStr("")) && TypeMatches("array", JArr([])) && TypeMatches("object", JObj(map[]));
    }
  }

  /** A field definition constrained by a single type name and an enum, if at all. */
  predicate PlainField(def: Json) {
    && def.JObj?
    && ("type" in def.fields ==> def.fields["type"].JStr? && def.fields["type"].s in STANDARD_TYPES)
    && ("enum" in def.fields ==> def.fields["enum"].JArr?)
    && "required" !in def.fields && "properties" !in def.fields
  }

  /** next puts no enum on a field that had none, unless the enum lists all the type has. */
  predicate EnumHarmless(prev: Json, next: Json) {
    || HasEnum(prev) || !HasEnum(next)
    || (TypeOf(prev) == "boolean" && Exhausts(BoolKind, EnumValues(next)))
    || (TypeOf(prev) == "null" && Exhausts(NullKind, EnumValues(next)))
  }

  lemma {:induction false} PlainKinds(def: Json, kind: Kind)
    requires PlainField(def)
    ensures Offers(def, kind) <==> "type" !in def.fields || TypeMatches(TypeOf(def), Sample(kind, 0))
  {
  }

  lemma {:induction false} PlainValidity(def: Json, v: Json)
    requires PlainField(def)
    ensures Valid(def, v) <==> ("type" !in def.fields || TypeMatches(TypeOf(def), v)) && EnumAllows(def, v)
  {
    ValidByParts(def, v);
  }

  /** A type name other than boolean and null, or none, offers a kind that no list exhausts. */
  lemma {:induction false} InfiniteKindOffered(def: Json) returns (kind: Kind)
    requires PlainField(def) && ("type" in def.fields ==> TypeOf(def) !in {"boolean", "null"})
    ensures Offers(def, kind) && kind !in {BoolKind, NullKind}
  {
    kind := if TypeOf(def) == "string" then StringKind else if TypeOf(def) == "array" then ArrayKind
            else if TypeOf(def) == "object" then ObjectKind else WholeKind;
    PlainKinds(def, kind);
  }

  lemma {:induction false} ListedValuesKept(prev: Json, next: Json, v: Json)
    requires PlainField(prev) && PlainField(next) && CompatibleType(TypeOf(prev), TypeOf(next)) && EnumKept(prev, next)
    requires v in EnumValues(prev) && Valid(prev, v)
    ensures Valid(next, v)
  {
    PlainValidity(prev, v);
    PlainValidity(next, v);
  }

  /** For fields of one type name the rules check all that matters but one thing: that
      no enum is put on a field that had none without listing every value of its type.
   */
  lemma {:induction false} PlainFieldContainedExactly(prev: Json, next: Json)
    requires PlainField(prev) && PlainField(next)
    requires CompatibleType(TypeOf(prev), TypeOf(next)) && EnumKept(prev, next)
    ensures Contained(prev, next) <==> EnumHarmless(prev, next)
  {
    if HasEnum(prev) {
      forall i | 0 <= i < |EnumValues(prev)| && Valid(prev, EnumValues(prev)[i])
        ensures Valid(next, EnumValues(prev)[i])
      {
        ListedValuesKept(prev, next, EnumValues(prev)[i]);
      }
    } else {
      forall kind
        ensures Offers(prev, kind) ==> Offers(next, kind)
      {
        PlainKinds(prev, kind);
        PlainKinds(next, kind);
      }
      if HasEnum(next) && !EnumHarmless(prev, next) {
        PlainKinds(prev, BoolKind);
        PlainKinds(prev, NullKind);
        if "type" !in prev.fields || TypeOf(prev) !in {"boolean", "null"} {
          var kind := InfiniteKindOffered(prev);
          assert !KindKept(prev, next, kind);
        }
      } else {
        forall kind | Offers(prev, kind)
          ensures KindKept(prev, next, kind)
        {
          PlainKinds(prev, kind);
        }
      }
    }
  }

  predicate PlainSchema(schema: Json) {
    RecordSchema(schema) && AdmitsObjects(schema) && forall f :: f in Properties(schema) ==> PlainField(Properties(schema)[f])
  }

  predicate EnumsHarmless(prev: Json, next: Json) {
    var pp, np := Properties(prev), Properties(next);
    forall f :: f in pp && f in np ==> EnumHarmless(pp[f], np[f])
  }

  /** So for schemas of such fields a compatible verdict guarantees the old payloads if
      and only if no such enum is introduced.
   */
  lemma {:induction false} PlainVerdictExactly(prev: Json, next: Json)
    requires PlainSchema(prev) && PlainSchema(next) && Compatible(prev, next)
    requires HasPayload(prev) && DefaultsAreTyped(next)
    ensures Guarantee(prev, next) <==> EnumsHarmless(prev, next)
  {
    CompatibleVerdictExactly(prev, next);
    var pp, np := Properties(prev), Properties(next);
    forall f | f in pp && f in np
      ensures Contained(pp[f], np[f]) <==> EnumHarmless(pp[f], np[f])
    {
      PlainFieldContainedExactly(pp[f], np[f]);
    }
  }

  // ── Along a chain ──────────────────────────────────────────────────────────

  /** The payload read by each later version in turn. */
  function FilledThrough(versions: seq<Json>, payload: Json): Json
    requires payload.JObj?
    decreases |versions|
  {
    if versions == [] then payload else FilledThrough(versions[1..], Filled(versions[0], payload))
  }

  predicate GoodStep(prev: Json, next: Json) {
    RecordSchema(prev) && RecordSchema(next) && Compatible(prev, next) && Absorbs(prev, next)
  }

  /** A payload valid under prev, with only declared fields, is valid under next once
      its defaults are filled in, and has only fields next declares.
   */
  lemma {:induction false} CompatiblePayloadStaysValid(prev: Json, next: Json, payload: Json)
    requires GoodStep(prev, next) && Declared(prev, payload) && Valid(prev, payload)
    ensures Valid(next, Filled(next, payload)) && Declared(next, Filled(next, payload))
  {
    FilledIsValid(prev, next, payload);
  }

  /** A payload of the first version, read through every version of a chain of any length, is valid under the last. */
  lemma {:induction false} PayloadSurvivesChain(versions: seq<Json>, payload: Json)
    requires |versions| > 0
    requires forall i :: 0 <= i < |versions| - 1 ==> GoodStep(versions[i], versions[i + 1])
    requires Declared(versions[0], payload) && Valid(versions[0], payload)
    ensures Valid(versions[|versions| - 1], FilledThrough(versions[1..], payload))
    decreases |versions|
  {
    if |versions| > 1 {
      assert GoodStep(versions[0], versions[1]);
      CompatiblePayloadStaysValid(versions[0], versions[1], payload);
      assert versions[1..][0] == versions[1];
      PayloadSurvivesChain(versions[1..], Filled(versions[1], payload));
    }
  }

  // ── What the rules do not see ──────────────────────────────────────────────

  lemma {:induction false} OneFieldSchema(f: string, def: Json)
    ensures var schema := ObjectSchema(map[f := def], []);
            RecordSchema(schema) && AdmitsObjects(schema) && HasPayload(schema) && Required(schema) == [] && Properties(schema) == map[f := def]
  {
    var schema := ObjectSchema(map[f := def], []);
    assert Strings([]) == [];
    assert TypeMatches("object", Sample(ObjectKind, 0));
  }

  lemma {:induction false} OneFieldVerdict(f: string, p: Json, n: Json)
    requires CompatibleType(TypeOf(p), TypeOf(n)) && EnumKept(p, n) && n.Get("default").None?
    ensures var prev, next := ObjectSchema(map[f := p], []), ObjectSchema(map[f := n], []);
            Compatible(prev, next) && (Guarantee(prev, next) <==> Contained(p, n))
  {
    var prev, next := ObjectSchema(map[f := p], []), ObjectSchema(map[f := n], []);
    OneFieldCompatible(f, p, n);
    OneFieldSchema(f, p);
    OneFieldSchema(f, n);
    CompatibleVerdictExactly(prev, next);
    assert Properties(prev)[f] == p && Properties(next)[f] == n;
  }

  function TypeList(names: seq<Json>): Json {
    JObj(map["type" := JArr(names)])
  }

  lemma {:induction false} TypeListContained(before: seq<Json>, after: seq<Json>)
    ensures Contained(TypeList(before), TypeList(after))
            <==> forall kind :: KindAllowed(TypeList(before), kind) ==> KindAllowed(TypeList(after), kind)
  {
    forall kind
      ensures Offers(TypeList(before), kind) <==> KindAllowed(TypeList(before), kind)
      ensures KindKept(TypeList(before), TypeList(after), kind) <==> KindAllowed(TypeList(after), kind)
    {
    }
  }

  /** A list of types reads as no type at all, so any change from list to list is
      compatible; it keeps old payloads valid if and only if the new list admits
      every kind of value the old one did.
   */
  lemma {:induction false} TypeListChangeExactly(f: string, before: seq<Json>, after: seq<Json>)
    ensures var prev, next := ObjectSchema(map[f := TypeList(before)], []), ObjectSchema(map[f := TypeList(after)], []);
            && Compatible(prev, next)
            && (Guarantee(prev, next) <==>
                  forall kind :: KindAllowed(TypeList(before), kind) ==> KindAllowed(TypeList(after), kind))
  {
    OneFieldVerdict(f, TypeList(before), TypeList(after));
    TypeListContained(before, after);
  }

  lemma {:induction false} OnlyName(name: string, kind: Kind)
    ensures KindAllowed(TypeList([JStr(name)]), kind) <==> TypeMatches(name, Sample(kind, 0))
  {
    assert [JStr(name)][0] == JStr(name);
  }

  /** For one: from strings alone to null alone. */
  lemma {:induction false} TypeListsAreNotCompared(f: string)
    ensures var prev, next := ObjectSchema(map[f := TypeList([JStr("string")])], []), ObjectSchema(map[f := TypeList([JStr("null")])], []);
            Compatible(prev, next) && !Guarantee(prev, next)
  {
    TypeListChangeExactly(f, [JStr("string")], [JStr("null")]);
    OnlyName("string", StringKind);
    OnlyName("null", StringKind);
  }

  /** next's object with one required field, against any object. */
  lemma {:induction false} NewRequirementIsNotContained(g: string)
    ensures !Contained(JObj(map["type" := JStr("object")]),
                       JObj(map["type" := JStr("object"), "required" := JArr([JStr(g)])]))
  {
    var p := JObj(map["type" := JStr("object")]);
    var n := JObj(map["type" := JStr("object"), "required" := JArr([JStr(g)])]);
    assert Strings([JStr(g)]) == [g] + Strings([]);
    assert g in Required(n) && Required(p) == [];
    assert Offers(p, ObjectKind) && !KindKept(p, n, ObjectKind);
  }

  /** Nothing below a field is compared: an object that comes to require a field passes and breaks old payloads. */
  lemma {:induction false} NestedRequiredIsNotCompared(f: string, g: string)
    ensures var p := JObj(map["type" := JStr("object")]);
            var n := JObj(map["type" := JStr("object"), "required" := JArr([JStr(g)])]);
            var prev, next := ObjectSchema(map[f := p], []), ObjectSchema(map[f := n], []);
            Compatible(prev, next) && !Guarantee(prev, next)
  {
    OneFieldVerdict(f, JObj(map["type" := JStr("object")]),
                    JObj(map["type" := JStr("object"), "required" := JArr([JStr(g)])]));
    NewRequirementIsNotContained(g);
  }
}
