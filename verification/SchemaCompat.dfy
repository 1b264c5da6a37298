/** The schema registry's compatibility checker: four syntactic rules over two JSON
    Schemas, that every violation and nothing else is reported, and exactly when
    compatibility composes along a chain of versions.
 */
module SchemaCompat {
  import opened Sums

  /** serde_json's Value. An integer and a float of equal value are different Values. */
  datatype Json =
    | JNull
    | JBool(b: bool)
    | JInt(i: int)
    | JFloat(r: real)
    | JStr(s: string)
    | JArr(items: seq<Json>)
    | JObj(fields: map<string, Json>)
  {
    /** Value::get by name: only an object has members. */
    function Get(name: string): Option<Json> {
      if JObj? && name in fields then Some(fields[name]) else None
    }
  }

  // ── What a schema says, keyword by keyword ─────────────────────────────────

  predicate Declares(schema: Json, f: string) {
    && schema.JObj? && "properties" in schema.fields && schema.fields["properties"].JObj?
    && f in schema.fields["properties"].fields
  }

  function Definition(schema: Json, f: string): Json
    requires Declares(schema, f)
  {
    schema.fields["properties"].fields[f]
  }

  predicate Demands(schema: Json, f: string) {
    && schema.JObj? && "required" in schema.fields && schema.fields["required"].JArr?
    && JStr(f) in schema.fields["required"].items
  }

  /** The type keyword is this one name; anything but a name reads as unknown. */
  predicate Names(def: Json, t: string) {
    if def.JObj? && "type" in def.fields && def.fields["type"].JStr? then def.fields["type"].s == t else t == "unknown"
  }

  predicate Lists(def: Json, value: Json) {
    def.JObj? && "enum" in def.fields && def.fields["enum"].JArr? && value in def.fields["enum"].items
  }

  predicate HasKeyword(def: Json, keyword: string) {
    def.JObj? && keyword in def.fields
  }

  // ── Helpers of the checker ─────────────────────────────────────────────────

  function Properties(schema: Json): map<string, Json> {
    match schema.Get("properties")
    case Some(JObj(fields)) => fields
    case _ => map[]
  }

  function Strings(items: seq<Json>): seq<string> {
    if items == [] then []
    else (if items[0].JStr? then [items[0].s] else []) + Strings(items[1..])
  }

  function Required(schema: Json): seq<string> {
    match schema.Get("required")
    case Some(JArr(items)) => Strings(items)
    case _ => []
  }

  lemma {:induction false} StringsExactly(items: seq<Json>, s: string)
    ensures s in Strings(items) <==> JStr(s) in items
  {
    if items != [] {
      StringsExactly(items[1..], s);
      assert items == [items[0]] + items[1..];
    }
  }

  /** The required names are the strings of the array, every one of them and nothing else. */
  lemma {:induction false} RequiredExactly(schema: Json, f: string)
    ensures f in Required(schema) <==> Demands(schema, f)
  {
    if schema.Get("required").Some? && schema.Get("required").value.JArr? {
      StringsExactly(schema.Get("required").value.items, f);
    }
  }

  function TypeOf(def: Json): string {
    match def.Get("type")
    case Some(JStr(s)) => s
    case _ => "unknown"
  }

  predicate CompatibleType(prev: string, next: string) {
    prev == next || (prev == "integer" && next == "number")
  }

  predicate HasDefault(props: map<string, Json>, f: string) {
    f in props && props[f].Get("default").Some?
  }

  function EnumValues(def: Json): seq<Json> {
    match def.Get("enum")
    case Some(JArr(items)) => items
    case _ => []
  }

  predicate HasEnum(def: Json) {
    def.Get("enum").Some?
  }

  // ── The four rules ─────────────────────────────────────────────────────────

  datatype Violation =
    | FieldRemoved(field: string)
    | TypeChanged(field: string, from: string, to: string)
    | FieldNowRequired(field: string)
    | NewRequiredField(field: string)
    | EnumValueRemoved(field: string, value: Json)

  predicate IsViolation(v: Violation, prev: Json, next: Json) {
    var pp, np := Properties(prev), Properties(next);
    match v
    case FieldRemoved(f) => f in pp && f !in np
    case TypeChanged(f, from, to) =>
      f in pp && f in np && from == TypeOf(pp[f]) && to == TypeOf(np[f]) && !CompatibleType(from, to)
    case FieldNowRequired(f) => f in Required(next) && f !in Required(prev) && f in pp
    case NewRequiredField(f) => f in Required(next) && f !in Required(prev) && f !in pp && !HasDefault(np, f)
    case EnumValueRemoved(f, value) =>
      f in pp && f in np && HasEnum(pp[f]) && HasEnum(np[f])
      && value in EnumValues(pp[f]) && value !in EnumValues(np[f])
  }

  /** What each report says of the two schemas, read off their keywords. */
  predicate Breaks(v: Violation, prev: Json, next: Json) {
    match v
    case FieldRemoved(f) => Declares(prev, f) && !Declares(next, f)
    case TypeChanged(f, from, to) =>
      && Declares(prev, f) && Declares(next, f) && Names(Definition(prev, f), from) && Names(Definition(next, f), to)
      && from != to && !(from == "integer" && to == "number")
    case FieldNowRequired(f) => Demands(next, f) && !Demands(prev, f) && Declares(prev, f)
    case NewRequiredField(f) =>
      && Demands(next, f) && !Demands(prev, f) && !Declares(prev, f)
      && !(Declares(next, f) && HasKeyword(Definition(next, f), "default"))
    case EnumValueRemoved(f, value) =>
      && Declares(prev, f) && Declares(next, f)
      && Lists(Definition(prev, f), value) && !Lists(Definition(next, f), value) && HasKeyword(Definition(next, f), "enum")
  }

  lemma {:induction false} ViolationsExactly(v: Violation, prev: Json, next: Json)
    ensures IsViolation(v, prev, next) <==> Breaks(v, prev, next)
  {
    RequiredExactly(prev, v.field);
    RequiredExactly(next, v.field);
  }

  predicate EnumKept(prev: Json, next: Json) {
    HasEnum(prev) && HasEnum(next) ==> forall v :: v in EnumValues(prev) ==> v in EnumValues(next)
  }

  predicate FieldsKept(prev: map<string, Json>, next: map<string, Json>) {
    forall f :: f in prev ==>
      f in next && CompatibleType(TypeOf(prev[f]), TypeOf(next[f])) && EnumKept(prev[f], next[f])
  }

  predicate RequiredKept(prev: Json, next: Json) {
    forall f :: f in Required(next) && f !in Required(prev) ==>
      f !in Properties(prev) && HasDefault(Properties(next), f)
  }

  /** What the rules amount to: fields stay with compatible types and enums, and
      a field can only become required together with its own introduction and a default. */
  predicate Compatible(prev: Json, next: Json) {
    FieldsKept(Properties(prev), Properties(next)) && RequiredKept(prev, next)
  }

  lemma {:induction false} UnreportedFieldIsKept(prev: Json, next: Json, f: string)
    requires (forall v :: !IsViolation(v, prev, next)) && f in Properties(prev)
    ensures var pp, np := Properties(prev), Properties(next);
            f in np && CompatibleType(TypeOf(pp[f]), TypeOf(np[f])) && EnumKept(pp[f], np[f])
  {
    var pp, np := Properties(prev), Properties(next);
    assert !IsViolation(FieldRemoved(f), prev, next);
    assert !IsViolation(TypeChanged(f, TypeOf(pp[f]), TypeOf(np[f])), prev, next);
    forall v | v in EnumValues(pp[f]) && HasEnum(pp[f]) && HasEnum(np[f])
      ensures v in EnumValues(np[f])
    {
      assert !IsViolation(EnumValueRemoved(f, v), prev, next);
    }
  }

  lemma {:induction false} UnreportedRequirement(prev: Json, next: Json, f: string)
    requires (forall v :: !IsViolation(v, prev, next)) && f in Required(next) && f !in Required(prev)
    ensures f !in Properties(prev) && HasDefault(Properties(next), f)
  {
    assert !IsViolation(FieldNowRequired(f), prev, next) && !IsViolation(NewRequiredField(f), prev, next);
  }

  lemma {:induction false} CompatibleMeansNoViolation(prev: Json, next: Json)
    ensures Compatible(prev, next) <==> forall v :: !IsViolation(v, prev, next)
  {
    if forall v :: !IsViolation(v, prev, next) {
      forall f | f in Properties(prev)
        ensures var pp, np := Properties(prev), Properties(next);
                f in np && CompatibleType(TypeOf(pp[f]), TypeOf(np[f])) && EnumKept(pp[f], np[f])
      {
        UnreportedFieldIsKept(prev, next, f);
      }
      forall f | f in Required(next) && f !in Required(prev)
        ensures f !in Properties(prev) && HasDefault(Properties(next), f)
      {
        UnreportedRequirement(prev, next, f);
      }
    }
  }

  /** Rule 1. Properties are visited in whatever order the hash map yields them, here and below. */
  method RemovedFields(prev: Json, next: Json) returns (violations: seq<Violation>)
    ensures forall v :: v in violations <==> v.FieldRemoved? && IsViolation(v, prev, next)
  {
    var pp, np := Properties(prev), Properties(next);
    violations := [];
    var left := pp.Keys;
    while left != {}
      invariant left <= pp.Keys
      invariant forall v :: v in violations <==> v.FieldRemoved? && v.field !in left && IsViolation(v, prev, next)
      decreases left
    {
      var f :| f in left;
      if f !in np {
        violations := violations + [FieldRemoved(f)];
      }
      left := left - {f};
    }
  }

  /** Rule 2. */
  method ChangedTypes(prev: Json, next: Json) returns (violations: seq<Violation>)
    ensures forall v :: v in violations <==> v.TypeChanged? && IsViolation(v, prev, next)
  {
    var pp, np := Properties(prev), Properties(next);
    violations := [];
    var left := pp.Keys;
    while left != {}
      invariant left <= pp.Keys
      invariant forall v :: v in violations <==> v.TypeChanged? && v.field !in left && IsViolation(v, prev, next)
      decreases left
    {
      var f :| f in left;
      if f in np {
        var from, to := TypeOf(pp[f]), TypeOf(np[f]);
        if !CompatibleType(from, to) {
          violations := violations + [TypeChanged(f, from, to)];
        }
      }
      left := left - {f};
    }
  }

  predicate Rule3Broken(v: Violation, prev: Json, next: Json) {
    (v.FieldNowRequired? || v.NewRequiredField?) && IsViolation(v, prev, next)
  }

  /** Rule 3. */
  method RequiredFields(prev: Json, next: Json) returns (violations: seq<Violation>)
    ensures forall v :: v in violations <==> (v.FieldNowRequired? || v.NewRequiredField?) && IsViolation(v, prev, next)
  {
    var pp, np := Properties(prev), Properties(next);
    var prevRequired, nextRequired := Required(prev), Required(next);
    violations := [];
    for i := 0 to |nextRequired|
      invariant forall v :: v in violations <==> v.field in nextRequired[..i] && Rule3Broken(v, prev, next)
    {
      var f := nextRequired[i];
      assert nextRequired[..i + 1] == nextRequired[..i] + [f];
      if f !in prevRequired {
        if f in pp {
          violations := violations + [FieldNowRequired(f)];
        }
        if f !in pp {
          if !HasDefault(np, f) {
            violations := violations + [NewRequiredField(f)];
          }
        }
      }
    }
    assert nextRequired[..|nextRequired|] == nextRequired;
  }

  /** The inner loop of rule 4. */
  method RemovedValues(f: string, prevValues: seq<Json>, nextValues: seq<Json>) returns (removed: seq<Violation>)
    ensures forall v :: v in removed <==>
              v.EnumValueRemoved? && v.field == f && v.value in prevValues && v.value !in nextValues
  {
    removed := [];
    for i := 0 to |prevValues|
      invariant forall v :: v in removed <==>
                  v.EnumValueRemoved? && v.field == f && v.value in prevValues[..i] && v.value !in nextValues
    {
      assert prevValues[..i + 1] == prevValues[..i] + [prevValues[i]];
      if prevValues[i] !in nextValues {
        removed := removed + [EnumValueRemoved(f, prevValues[i])];
      }
    }
    assert prevValues[..|prevValues|] == prevValues;
  }

  /** Rule 4. */
  method RemovedEnumValues(prev: Json, next: Json) returns (violations: seq<Violation>)
    ensures forall v :: v in violations <==> v.EnumValueRemoved? && IsViolation(v, prev, next)
  {
    var pp, np := Properties(prev), Properties(next);
    violations := [];
    var left := pp.Keys;
    while left != {}
      invariant left <= pp.Keys
      invariant forall v :: v in violations <==> v.EnumValueRemoved? && v.field !in left && IsViolation(v, prev, next)
      decreases left
    {
      var f :| f in left;
      if HasEnum(pp[f]) && f in np && HasEnum(np[f]) {
        var removed := RemovedValues(f, EnumValues(pp[f]), EnumValues(np[f]));
        violations := violations + removed;
      }
      left := left - {f};
    }
  }

  /** check_compatibility: every violation is reported, nothing else is, and the verdict is their absence. */
  method CheckCompatibility(prev: Json, next: Json) returns (isCompatible: bool, violations: seq<Violation>)
    ensures forall v :: v in violations <==> Breaks(v, prev, next)
    ensures isCompatible <==> forall v :: !Breaks(v, prev, next)
    ensures isCompatible <==> Compatible(prev, next)
  {
    var removed := RemovedFields(prev, next);
    var changed := ChangedTypes(prev, next);
    var required := RequiredFields(prev, next);
    var enums := RemovedEnumValues(prev, next);
    violations := removed + changed + required + enums;
    isCompatible := violations == [];
    CompatibleMeansNoViolation(prev, next);
    forall v
      ensures IsViolation(v, prev, next) <==> Breaks(v, prev, next)
    {
      ViolationsExactly(v, prev, next);
    }
    if violations != [] {
      assert violations[0] in violations && IsViolation(violations[0], prev, next);
    }
  }

  // ── Chains of versions ─────────────────────────────────────────────────────

  predicate CompatibleChain(versions: seq<Json>) {
    forall i :: 0 <= i < |versions| - 1 ==> Compatible(versions[i], versions[i + 1])
  }

  predicate EnumsAgree(first: Json, last: Json) {
    forall f :: f in Properties(first) && f in Properties(last) ==> EnumKept(Properties(first)[f], Properties(last)[f])
  }

  predicate NewRequiredHaveDefaults(first: Json, last: Json) {
    forall f :: f in Required(last) && f !in Required(first) ==> HasDefault(Properties(last), f)
  }

  /** Fields and types compose by themselves, and a field optional at the start is still optional. */
  lemma {:induction false} ChainKeepsFields(versions: seq<Json>, n: nat)
    requires CompatibleChain(versions) && n < |versions|
    ensures forall f :: f in Properties(versions[0]) ==>
              && f in Properties(versions[n])
              && CompatibleType(TypeOf(Properties(versions[0])[f]), TypeOf(Properties(versions[n])[f]))
              && (f in Required(versions[n]) ==> f in Required(versions[0]))
    decreases n
  {
    if n > 0 {
      ChainKeepsFields(versions, n - 1);
      assert Compatible(versions[n - 1], versions[n]);
    }
  }

  /** Exactly when compatibility composes: along any chain of compatible
      versions, the last is compatible with the first if and only if the enums
      present at both ends agree and what the last newly requires has a default there. */
  lemma {:induction false} ChainEndsCompatibleExactly(versions: seq<Json>)
    requires |versions| > 0 && CompatibleChain(versions)
    ensures var first, last := versions[0], versions[|versions| - 1];
            Compatible(first, last) <==> EnumsAgree(first, last) && NewRequiredHaveDefaults(first, last)
  {
    ChainKeepsFields(versions, |versions| - 1);
  }

  /** Each field with an enum at both ends keeps one in every version between. */
  predicate EnumsStay(versions: seq<Json>)
    requires |versions| > 0
  {
    var first, last := Properties(versions[0]), Properties(versions[|versions| - 1]);
    forall f | f in first && f in last && HasEnum(first[f]) && HasEnum(last[f]) ::
      forall i | 0 <= i < |versions| && f in Properties(versions[i]) :: HasEnum(Properties(versions[i])[f])
  }

  /** A field required since after the first version keeps its default while it stays required. */
  predicate DefaultsKept(first: Json, prev: Json, next: Json) {
    forall f | f in Required(prev) && f in Required(next) && f !in Required(first) && HasDefault(Properties(prev), f) ::
      HasDefault(Properties(next), f)
  }

  predicate DefaultsStay(versions: seq<Json>)
    requires |versions| > 0
  {
    forall i | 0 <= i < |versions| - 1 :: DefaultsKept(versions[0], versions[i], versions[i + 1])
  }

  lemma {:induction false} DefaultReachesEnd(versions: seq<Json>, n: nat, f: string)
    requires CompatibleChain(versions) && n < |versions| && DefaultsStay(versions)
    requires f in Required(versions[n]) && f !in Required(versions[0])
    ensures HasDefault(Properties(versions[n]), f)
    decreases n
  {
    if n > 0 {
      assert Compatible(versions[n - 1], versions[n]);
      assert DefaultsKept(versions[0], versions[n - 1], versions[n]);
      if f in Required(versions[n - 1]) {
        DefaultReachesEnd(versions, n - 1, f);
      }
    }
  }

  lemma {:induction false} EnumReaches(versions: seq<Json>, n: nat, f: string)
    requires CompatibleChain(versions) && n < |versions| && f in Properties(versions[0])
    requires forall i :: 0 <= i <= n && f in Properties(versions[i]) ==> HasEnum(Properties(versions[i])[f])
    ensures f in Properties(versions[n]) && EnumKept(Properties(versions[0])[f], Properties(versions[n])[f])
    decreases n
  {
    ChainKeepsFields(versions, n);
    if n > 0 {
      EnumReaches(versions, n - 1, f);
      assert Compatible(versions[n - 1], versions[n]);
      assert HasEnum(Properties(versions[n - 1])[f]);
    }
  }

  /** Conditions on the versions between under which any chain composes. */
  lemma {:induction false} ChainComposes(versions: seq<Json>)
    requires |versions| > 0 && CompatibleChain(versions) && EnumsStay(versions) && DefaultsStay(versions)
    ensures Compatible(versions[0], versions[|versions| - 1])
  {
    var last := |versions| - 1;
    ChainEndsCompatibleExactly(versions);
    forall f | f in Properties(versions[0]) && f in Properties(versions[last])
      ensures EnumKept(Properties(versions[0])[f], Properties(versions[last])[f])
    {
      if HasEnum(Properties(versions[0])[f]) && HasEnum(Properties(versions[last])[f]) {
        EnumReaches(versions, last, f);
      }
    }
    forall f | f in Required(versions[last]) && f !in Required(versions[0])
      ensures HasDefault(Properties(versions[last]), f)
    {
      DefaultReachesEnd(versions, last, f);
    }
  }

  function ObjectSchema(props: map<string, Json>, required: seq<Json>): Json {
    JObj(map["type" := JStr("object"), "properties" := JObj(props), "required" := JArr(required)])
  }

  lemma {:induction false} ObjectSchemaParts(props: map<string, Json>, required: seq<Json>)
    ensures Properties(ObjectSchema(props, required)) == props
    ensures Required(ObjectSchema(props, required)) == Strings(required)
  {
  }

  lemma {:induction false} OneFieldCompatible(f: string, p: Json, n: Json)
    ensures Compatible(ObjectSchema(map[f := p], []), ObjectSchema(map[f := n], []))
            <==> CompatibleType(TypeOf(p), TypeOf(n)) && EnumKept(p, n)
  {
    ObjectSchemaParts(map[f := p], []);
    ObjectSchemaParts(map[f := n], []);
    var pp, np := map[f := p], map[f := n];
    assert f in pp && pp[f] == p && np[f] == n;
  }

  /** An enum dropped and brought back smaller: each step passes, the whole does not. */
  lemma {:induction false} DroppedEnumBreaksTheChain(a: Json, b: Json)
    requires a != b
    ensures var v1 := ObjectSchema(map["mood" := JObj(map["enum" := JArr([a])])], []);
            var v2 := ObjectSchema(map["mood" := JObj(map[])], []);
            var v3 := ObjectSchema(map["mood" := JObj(map["enum" := JArr([b])])], []);
            Compatible(v1, v2) && Compatible(v2, v3) && !Compatible(v1, v3)
  {
    var d1, d2, d3 := JObj(map["enum" := JArr([a])]), JObj(map[]), JObj(map["enum" := JArr([b])]);
    OneFieldCompatible("mood", d1, d2);
    OneFieldCompatible("mood", d2, d3);
    OneFieldCompatible("mood", d1, d3);
    assert a in EnumValues(d1) && a !in EnumValues(d3);
  }

  /** A field introduced as required with a default that a later version drops. */
  lemma {:induction false} DroppedDefaultBreaksTheChain(default: Json)
    ensures var v1 := ObjectSchema(map[], []);
            var v2 := ObjectSchema(map["name" := JObj(map["default" := default])], [JStr("name")]);
            var v3 := ObjectSchema(map["name" := JObj(map[])], [JStr("name")]);
            Compatible(v1, v2) && Compatible(v2, v3) && !Compatible(v1, v3)
  {
    ObjectSchemaParts(map[], []);
    ObjectSchemaParts(map["name" := JObj(map["default" := default])], [JStr("name")]);
    ObjectSchemaParts(map["name" := JObj(map[])], [JStr("name")]);
    assert [JStr("name")][1..] == [];
    assert Strings([JStr("name")]) == ["name"] && Strings([]) == [];
    assert "name" in Strings([JStr("name")]);
    assert HasDefault(map["name" := JObj(map["default" := default])], "name");
    assert !HasDefault(map["name" := JObj(map[])], "name");
  }
}
