/** When every value one schema accepts is accepted by another.

    Containment is decided from the two schemas alone, for every schema over type
    (a name or a list of names), enum, required and properties, nested to any
    depth, boolean schemas and malformed keywords included. The decision is proved
    exact: it holds if and only if no value tells the schemas apart.
 */
module SchemaContainment {
  import opened Sums
  import opened SchemaCompat
  import opened SchemaMeaning

  // ── Kinds of values ────────────────────────────────────────────────────────

  /** What a type keyword can see of a value. */
  datatype Kind = NullKind | BoolKind | WholeKind | FractionKind | StringKind | ArrayKind | ObjectKind

  function KindOf(v: Json): Kind {
    match v
    case JNull => NullKind
    case JBool(_) => BoolKind
    case JInt(_) => WholeKind
    case JFloat(r) => if IsWhole(r) then WholeKind else FractionKind
    case JStr(_) => StringKind
    case JArr(_) => ArrayKind
    case JObj(_) => ObjectKind
  }

  function Nulls(n: nat): (r: seq<Json>)
    ensures |r| == n
  {
    if n == 0 then [] else [JNull] + Nulls(n - 1)
  }

  function Long(n: nat): (r: string)
    ensures |r| == n
  {
    if n == 0 then "" else "x" + Long(n - 1)
  }

  /** Values of each kind: different ones for numbers, strings and arrays. */
  function Sample(kind: Kind, k: nat): Json {
    match kind
    case NullKind => JNull
    case BoolKind => JBool(k % 2 == 0)
    case WholeKind => JInt(k)
    case FractionKind => JFloat(k as real + 0.5)
    case StringKind => JStr(Long(k))
    case ArrayKind => JArr(Nulls(k))
    case ObjectKind => JObj(map[])
  }

  predicate KindAllowed(def: Json, kind: Kind) {
    TypeAllows(def, Sample(kind, 0))
  }

  lemma {:induction false} SampleHasKind(kind: Kind, k: nat)
    ensures KindOf(Sample(kind, k)) == kind
  {
    assert (k as real + 0.5).Floor == k;
  }

  lemma {:induction false} KindDecides(def: Json, v: Json)
    ensures TypeAllows(def, v) <==> KindAllowed(def, KindOf(v))
  {
    SampleHasKind(KindOf(v), 0);
    forall t
      ensures TypeMatches(t, v) <==> TypeMatches(t, Sample(KindOf(v), 0))
    {
    }
  }

  // ── Which values a schema accepts at all ───────────────────────────────────

  /** No required field is declared with a schema that accepts nothing. */
  predicate ObjectsExist(def: Json)
    decreases def, 0
  {
    def.JObj? && "properties" in def.fields && def.fields["properties"].JObj? ==>
      forall f :: f in def.fields["properties"].fields && f in Required(def) ==>
        Satisfiable(def.fields["properties"].fields[f])
  }

  /** A schema without enum accepts some value of the kind. */
  predicate Offers(def: Json, kind: Kind)
    decreases def, 1
  {
    if def.JObj? then WellFormed(def) && KindAllowed(def, kind) && (kind == ObjectKind ==> ObjectsExist(def))
    else def == JBool(true)
  }

  predicate Satisfiable(def: Json)
    decreases def, 2
  {
    if HasEnum(def) then exists i :: 0 <= i < |EnumValues(def)| && Valid(def, EnumValues(def)[i])
    else exists kind :: Offers(def, kind)
  }

  // ── Containment ────────────────────────────────────────────────────────────

  /** The values list all there are of the kind. Only null and boolean have finitely many. */
  predicate Exhausts(kind: Kind, values: seq<Json>) {
    || (kind == NullKind && InEnum(JNull, values))
    || (kind == BoolKind && InEnum(JBool(true), values) && InEnum(JBool(false), values))
  }

  function FieldOf(def: Json, f: string): Json {
    if f in Properties(def) then Properties(def)[f] else JBool(true)
  }

  predicate RequiredWithin(next: Json, prev: Json) {
    forall f :: f in Required(next) ==> f in Required(prev)
  }

  /** prev's enum is checked value by value, and without one prev's values kind by kind. */
  predicate Contained(prev: Json, next: Json)
    decreases next, 1
  {
    if HasEnum(prev) then
      forall i :: 0 <= i < |EnumValues(prev)| && Valid(prev, EnumValues(prev)[i]) ==> Valid(next, EnumValues(prev)[i])
    else
      forall kind :: Offers(prev, kind) ==> KindKept(prev, next, kind)
  }

  /** next takes no value of the kind away from prev, which has no enum. */
  predicate KindKept(prev: Json, next: Json, kind: Kind)
    decreases next, 0
  {
    if next.JObj? then
      && WellFormed(next) && KindAllowed(next, kind)
      && (HasEnum(next) ==> Exhausts(kind, EnumValues(next)))
      && (kind == ObjectKind ==>
            && RequiredWithin(next, prev)
            && ("properties" in next.fields && next.fields["properties"].JObj? ==>
                  forall f :: f in next.fields["properties"].fields ==>
                    Contained(FieldOf(prev, f), next.fields["properties"].fields[f])))
    else next == JBool(true)
  }

  // ── Offers and satisfiability mean what they say ───────────────────────────

  lemma {:induction false} ValidIsOffered(def: Json, v: Json)
    requires Valid(def, v) && !HasEnum(def)
    ensures Offers(def, KindOf(v))
    decreases def, 0
  {
    if def.JObj? {
      ValidByParts(def, v);
      KindDecides(def, v);
      if v.JObj? && "properties" in def.fields && def.fields["properties"].JObj? {
        forall f | f in def.fields["properties"].fields && f in Required(def)
          ensures Satisfiable(def.fields["properties"].fields[f])
        {
          assert Properties(def)[f] == def.fields["properties"].fields[f];
          ValidIsSatisfiable(def.fields["properties"].fields[f], v.fields[f]);
        }
      }
    }
  }

  lemma {:induction false} ValidIsSatisfiable(def: Json, v: Json)
    requires Valid(def, v)
    ensures Satisfiable(def)
    decreases def, 1
  {
    if HasEnum(def) {
      ValidByParts(def, v);
      var values := EnumValues(def);
      var i :| 0 <= i < |values| && Normal(values[i]) == Normal(v);
      NormalDecides(def, v, values[i]);
    } else {
      ValidIsOffered(def, v);
    }
  }

  ghost function SomeValue(def: Json): Json {
    if exists v :: Valid(def, v) then var v :| Valid(def, v); v else JNull
  }

  lemma {:induction false} OfferedValue(def: Json, kind: Kind) returns (v: Json)
    requires Offers(def, kind) && !HasEnum(def)
    ensures Valid(def, v) && KindOf(v) == kind
    decreases def, 0
  {
    v := Sample(kind, 0);
    SampleHasKind(kind, 0);
    if def.JObj? {
      if kind == ObjectKind {
        forall f | f in Required(def) && f in Properties(def)
          ensures exists x :: Valid(Properties(def)[f], x)
        {
          assert Properties(def)[f] == def.fields["properties"].fields[f];
          var x := SatisfiableHasValue(def.fields["properties"].fields[f]);
        }
        v := JObj(map f | f in Required(def) :: if f in Properties(def) then SomeValue(Properties(def)[f]) else JNull);
        KindDecides(def, v);
      }
      ValidByParts(def, v);
    }
  }

  lemma {:induction false} SatisfiableHasValue(def: Json) returns (v: Json)
    requires Satisfiable(def)
    ensures Valid(def, v)
    decreases def, 1
  {
    if HasEnum(def) {
      var i :| 0 <= i < |EnumValues(def)| && Valid(def, EnumValues(def)[i]);
      v := EnumValues(def)[i];
    } else {
      var kind :| Offers(def, kind);
      v := OfferedValue(def, kind);
    }
  }

  /** Satisfiability is decided exactly. */
  lemma {:induction false} SatisfiableExactly(def: Json)
    ensures Satisfiable(def) <==> exists v :: Valid(def, v)
  {
    if Satisfiable(def) {
      var v := SatisfiableHasValue(def);
      assert Valid(def, v);
    } else {
      forall v | Valid(def, v)
        ensures false
      {
        ValidIsSatisfiable(def, v);
      }
    }
  }

  /** Changing one field of a valid object to another value its schema accepts keeps it valid. */
  lemma {:induction false} FieldChanged(def: Json, o: Json, f: string, x: Json)
    requires Valid(def, o) && o.JObj? && !HasEnum(def) && Valid(FieldOf(def, f), x)
    ensures Valid(def, JObj(o.fields[f := x]))
  {
    if def.JObj? {
      var v := JObj(o.fields[f := x]);
      ValidByParts(def, o);
      ValidByParts(def, v);
      KindDecides(def, o);
      KindDecides(def, v);
    }
  }

  lemma {:induction false} FieldDropped(def: Json, o: Json, f: string)
    requires Valid(def, o) && o.JObj? && !HasEnum(def) && f !in Required(def)
    ensures Valid(def, JObj(o.fields - {f}))
  {
    if def.JObj? {
      var v := JObj(o.fields - {f});
      ValidByParts(def, o);
      ValidByParts(def, v);
      KindDecides(def, o);
      KindDecides(def, v);
    }
  }

  // ── A finite list misses a value of every infinite kind ────────────────────

  lemma {:induction false} SamplesDiffer(kind: Kind, j: nat, k: nat)
    requires j != k && kind !in {NullKind, BoolKind, ObjectKind}
    ensures Normal(Sample(kind, j)) != Normal(Sample(kind, k))
  {
    SampleHasKind(kind, j);
    SampleHasKind(kind, k);
    if kind == ArrayKind {
      assert |Normal(Sample(kind, j)).items| == j && |Normal(Sample(kind, k)).items| == k;
    } else if kind == StringKind {
      assert |Long(j)| == j && |Long(k)| == k;
    }
  }

  lemma {:induction false} SampleOutside(kind: Kind, values: seq<Json>, n: nat) returns (k: nat)
    requires kind !in {NullKind, BoolKind, ObjectKind}
    ensures k >= n && !InEnum(Sample(kind, k), values)
    decreases |values|
  {
    if values == [] {
      k := n;
    } else {
      k := SampleOutside(kind, values[1..], n);
      if Normal(values[0]) == Normal(Sample(kind, k)) {
        var hit := k;
        k := SampleOutside(kind, values[1..], hit + 1);
        SamplesDiffer(kind, hit, k);
      }
      assert forall i :: 0 < i < |values| ==> values[i] == values[1..][i - 1];
    }
  }

  lemma {:induction false} LongerThanAll(keys: set<string>) returns (n: nat)
    ensures forall s :: s in keys ==> |s| < n
    decreases |keys|
  {
    n := 0;
    if keys != {} {
      var s :| s in keys;
      n := LongerThanAll(keys - {s});
      n := if n > |s| then n else |s| + 1;
    }
  }

  function KeysOf(values: seq<Json>): set<string> {
    set i, f | 0 <= i < |values| && values[i].JObj? && f in values[i].fields :: f
  }

  /** An object with a field that no listed object has is not in the list. */
  lemma {:induction false} NewKeyIsOutside(v: Json, key: string, values: seq<Json>)
    requires v.JObj? && key in v.fields && key !in KeysOf(values)
    ensures !InEnum(v, values)
  {
    forall i | 0 <= i < |values|
      ensures Normal(values[i]) != Normal(v)
    {
      if Normal(values[i]) == Normal(v) {
        SameFields(v, values[i]);
      }
    }
  }

  /** A field of a new name leaves an object valid and takes it out of any finite list. */
  lemma {:induction false} ObjectOutside(def: Json, o: Json, values: seq<Json>) returns (v: Json)
    requires Valid(def, o) && o.JObj? && !HasEnum(def)
    ensures Valid(def, v) && v.JObj? && !InEnum(v, values)
  {
    var n := LongerThanAll(KeysOf(values) + Properties(def).Keys);
    var key := Long(n);
    assert key !in KeysOf(values) && key !in Properties(def);
    FieldChanged(def, o, key, JNull);
    v := JObj(o.fields[key := JNull]);
    NewKeyIsOutside(v, key, values);
  }

  lemma {:induction false} OfferedOutside(def: Json, kind: Kind, values: seq<Json>) returns (v: Json)
    requires Offers(def, kind) && !HasEnum(def) && !Exhausts(kind, values)
    ensures Valid(def, v) && !InEnum(v, values)
  {
    v := OfferedValue(def, kind);
    if kind == ObjectKind {
      v := ObjectOutside(def, v, values);
    } else {
      if kind == BoolKind {
        v := JBool(!InEnum(JBool(true), values));
      } else if kind != NullKind {
        var k := SampleOutside(kind, values, 0);
        v := Sample(kind, k);
        SampleHasKind(kind, k);
      }
      KindDecides(def, v);
      if def.JObj? {
        ValidByParts(def, v);
      }
    }
  }

  // ── The decision is exact ──────────────────────────────────────────────────

  lemma {:induction false} ExhaustedKindAllowed(next: Json, v: Json)
    requires HasEnum(next) ==> Exhausts(KindOf(v), EnumValues(next))
    ensures EnumAllows(next, v)
  {
  }

  lemma {:induction false} ContainedAccepts(prev: Json, next: Json, v: Json)
    requires Contained(prev, next) && Valid(prev, v)
    ensures Valid(next, v)
    decreases next
  {
    if HasEnum(prev) {
      ValidByParts(prev, v);
      var values := EnumValues(prev);
      var i :| 0 <= i < |values| && Normal(values[i]) == Normal(v);
      NormalDecides(prev, v, values[i]);
      NormalDecides(next, v, values[i]);
    } else {
      ValidIsOffered(prev, v);
      assert KindKept(prev, next, KindOf(v));
      if next.JObj? {
        KindDecides(next, v);
        ExhaustedKindAllowed(next, v);
        if v.JObj? {
          KeptObjectAccepted(prev, next, v);
        }
        ValidByParts(next, v);
      }
    }
  }

  lemma {:induction false} KeptObjectAccepted(prev: Json, next: Json, v: Json)
    requires KindKept(prev, next, ObjectKind) && next.JObj? && Valid(prev, v) && v.JObj?
    ensures HasRequired(next, v.fields) && FieldsValid(next, v.fields)
    decreases next, 0
  {
    if prev.JObj? {
      ValidByParts(prev, v);
    }
    forall f | f in Properties(next) && f in v.fields
      ensures Valid(Properties(next)[f], v.fields[f])
    {
      assert Properties(next)[f] == next.fields["properties"].fields[f];
      assert Valid(FieldOf(prev, f), v.fields[f]);
      ContainedAccepts(FieldOf(prev, f), next.fields["properties"].fields[f], v.fields[f]);
    }
  }

  /** Whatever the decision rejects is rejected for a value. */
  lemma {:induction false} NotContainedRejects(prev: Json, next: Json) returns (v: Json)
    requires !Contained(prev, next)
    ensures Valid(prev, v) && !Valid(next, v)
    decreases next, 1
  {
    if HasEnum(prev) {
      var values := EnumValues(prev);
      var i :| 0 <= i < |values| && Valid(prev, values[i]) && !Valid(next, values[i]);
      v := values[i];
    } else {
      var kind :| Offers(prev, kind) && !KindKept(prev, next, kind);
      v := KindLost(prev, next, kind);
    }
  }

  lemma {:induction false} KindLost(prev: Json, next: Json, kind: Kind) returns (v: Json)
    requires Offers(prev, kind) && !HasEnum(prev) && !KindKept(prev, next, kind)
    ensures Valid(prev, v) && !Valid(next, v)
    decreases next, 0
  {
    v := OfferedValue(prev, kind);
    if next.JObj? {
      KindDecides(next, v);
      if HasEnum(next) && !Exhausts(kind, EnumValues(next)) {
        v := OfferedOutside(prev, kind, EnumValues(next));
      } else if WellFormed(next) && KindAllowed(next, kind) {
        if !RequiredWithin(next, prev) {
          var f :| f in Required(next) && f !in Required(prev);
          FieldDropped(prev, v, f);
          v := JObj(v.fields - {f});
        } else {
          var f :| f in next.fields["properties"].fields && !Contained(FieldOf(prev, f), next.fields["properties"].fields[f]);
          assert Properties(next)[f] == next.fields["properties"].fields[f];
          var x := NotContainedRejects(FieldOf(prev, f), next.fields["properties"].fields[f]);
          FieldChanged(prev, v, f, x);
          v := JObj(v.fields[f := x]);
        }
      }
      ValidByParts(next, v);
    }
  }

  /** Containment, as decided from the schemas, is exactly that every value prev accepts is accepted by next. */
  lemma {:induction false} ContainedExactly(prev: Json, next: Json)
    ensures Contained(prev, next) <==> forall v :: Valid(prev, v) ==> Valid(next, v)
  {
    if Contained(prev, next) {
      forall v | Valid(prev, v)
        ensures Valid(next, v)
      {
        ContainedAccepts(prev, next, v);
      }
    } else {
      var v := NotContainedRejects(prev, next);
    }
  }
}
