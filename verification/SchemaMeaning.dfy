/** What a schema means: which values it accepts.

    Validity follows JSON Schema Validation draft-07: section 6.1.1 (type),
    6.1.2 (enum) and 6.5.3 (required), with properties applied recursively.
    A keyword whose value is malformed makes the schema accept nothing.
 */
module SchemaMeaning {
  import opened Sums
  import opened SchemaCompat

  // ── Validity ───────────────────────────────────────────────────────────────

  predicate IsWhole(r: real) {
    r.Floor as real == r
  }

  /** Section 6.1.1: an integer is any number without a fractional part. */
  predicate TypeMatches(t: string, v: Json) {
    match v
    case JNull => t == "null"
    case JBool(_) => t == "boolean"
    case JInt(_) => t == "integer" || t == "number"
    case JFloat(r) => t == "number" || (t == "integer" && IsWhole(r))
    case JStr(_) => t == "string"
    case JArr(_) => t == "array"
    case JObj(_) => t == "object"
  }

  function NormalAll(items: seq<Json>): (n: seq<Json>)
    ensures |n| == |items|
  {
    if items == [] then [] else [Normal(items[0])] + NormalAll(items[1..])
  }

  /** Numbers by value: a whole float becomes the integer it equals. */
  function Normal(v: Json): Json {
    match v
    case JFloat(r) => if IsWhole(r) then JInt(r.Floor) else v
    case JArr(items) => JArr(NormalAll(items))
    case JObj(fields) => JObj(map k | k in fields :: Normal(fields[k]))
    case _ => v
  }

  /** Section 6.1.2: equality of instances, which compares numbers by value. */
  predicate InEnum(v: Json, values: seq<Json>) {
    exists i :: 0 <= i < |values| && Normal(values[i]) == Normal(v)
  }

  predicate TypeAllows(def: Json, v: Json) {
    match def.Get("type")
    case None => true
    case Some(JStr(t)) => TypeMatches(t, v)
    case Some(JArr(ts)) => exists i :: 0 <= i < |ts| && ts[i].JStr? && TypeMatches(ts[i].s, v)
    case _ => false
  }

  predicate EnumAllows(def: Json, v: Json) {
    match def.Get("enum")
    case None => true
    case Some(JArr(values)) => InEnum(v, values)
    case _ => false
  }

  predicate RequiredAllows(def: Json, v: Json) {
    match def.Get("required")
    case None => true
    case Some(JArr(names)) => v.JObj? ==> forall i :: 0 <= i < |names| && names[i].JStr? ==> names[i].s in v.fields
    case _ => false
  }

  predicate Valid(schema: Json, v: Json) {
    match schema
    case JBool(b) => b
    case JObj(keywords) =>
      && TypeAllows(schema, v) && EnumAllows(schema, v) && RequiredAllows(schema, v)
      && ("properties" in keywords ==>
            keywords["properties"].JObj? &&
            (v.JObj? ==> forall f :: f in keywords["properties"].fields && f in v.fields ==>
                           Valid(keywords["properties"].fields[f], v.fields[f])))
    case _ => false
  }

  // ── Validity by parts ──────────────────────────────────────────────────────

  /** Keywords with malformed values accept nothing. */
  predicate WellFormed(def: Json) {
    && (def.Get("required").Some? ==> def.Get("required").value.JArr?)
    && (def.Get("properties").Some? ==> def.Get("properties").value.JObj?)
  }

  predicate HasRequired(def: Json, fields: map<string, Json>) {
    forall f :: f in Required(def) ==> f in fields
  }

  predicate FieldsValid(def: Json, fields: map<string, Json>) {
    forall f :: f in Properties(def) && f in fields ==> Valid(Properties(def)[f], fields[f])
  }

  lemma {:induction false} ValidByParts(def: Json, v: Json)
    requires def.JObj?
    ensures Valid(def, v) <==>
              && TypeAllows(def, v) && EnumAllows(def, v) && WellFormed(def)
              && (v.JObj? ==> HasRequired(def, v.fields) && FieldsValid(def, v.fields))
  {
    forall f
      ensures f in Required(def) <==> Demands(def, f)
    {
      RequiredExactly(def, f);
    }
  }

  /** Draft-07 core, section 4.2.3: instances are equal as data, numbers by their value. */
  predicate SameValue(v: Json, w: Json) {
    match (v, w)
    case (JInt(i), JInt(j)) => i == j
    case (JInt(i), JFloat(s)) => i as real == s
    case (JFloat(r), JInt(j)) => r == j as real
    case (JFloat(r), JFloat(s)) => r == s
    case (JArr(xs), JArr(ys)) => |xs| == |ys| && forall i :: 0 <= i < |xs| ==> SameValue(xs[i], ys[i])
    case (JObj(m), JObj(n)) => m.Keys == n.Keys && forall k :: k in m ==> SameValue(m[k], n[k])
    case _ => v == w
  }

  lemma {:induction false} NormalItem(items: seq<Json>, i: nat)
    requires i < |items|
    ensures NormalAll(items)[i] == Normal(items[i])
  {
    if i > 0 {
      NormalItem(items[1..], i - 1);
    }
  }

  lemma {:induction false} NormalItems(xs: seq<Json>, ys: seq<Json>)
    ensures NormalAll(xs) == NormalAll(ys) <==> |xs| == |ys| && forall i :: 0 <= i < |xs| ==> Normal(xs[i]) == Normal(ys[i])
  {
    forall i | 0 <= i < |xs|
      ensures NormalAll(xs)[i] == Normal(xs[i])
    {
      NormalItem(xs, i);
    }
    forall i | 0 <= i < |ys|
      ensures NormalAll(ys)[i] == Normal(ys[i])
    {
      NormalItem(ys, i);
    }
  }

  lemma {:induction false} NormalFields(v: Json, w: Json)
    requires v.JObj? && w.JObj?
    ensures Normal(v) == Normal(w) <==>
              v.fields.Keys == w.fields.Keys && forall k :: k in v.fields ==> Normal(v.fields[k]) == Normal(w.fields[k])
  {
    var m, n := Normal(v).fields, Normal(w).fields;
    assert m.Keys == v.fields.Keys && n.Keys == w.fields.Keys;
    forall k | k in v.fields
      ensures m[k] == Normal(v.fields[k])
    {
    }
    forall k | k in w.fields
      ensures n[k] == Normal(w.fields[k])
    {
    }
    if v.fields.Keys == w.fields.Keys && forall k :: k in v.fields ==> Normal(v.fields[k]) == Normal(w.fields[k]) {
      assert m == n;
    }
  }

  /** Two values are told apart after normalisation exactly when they are different instances. */
  lemma {:induction false} NormalExactly(v: Json, w: Json)
    ensures Normal(v) == Normal(w) <==> SameValue(v, w)
    decreases v
  {
    if v.JArr? && w.JArr? {
      NormalItems(v.items, w.items);
      if |v.items| == |w.items| {
        forall i | 0 <= i < |v.items|
          ensures Normal(v.items[i]) == Normal(w.items[i]) <==> SameValue(v.items[i], w.items[i])
        {
          NormalExactly(v.items[i], w.items[i]);
        }
      }
    } else if v.JObj? && w.JObj? {
      NormalFields(v, w);
      if v.fields.Keys == w.fields.Keys {
        forall k | k in v.fields
          ensures Normal(v.fields[k]) == Normal(w.fields[k]) <==> SameValue(v.fields[k], w.fields[k])
        {
          NormalExactly(v.fields[k], w.fields[k]);
        }
      }
    }
  }

  lemma {:induction false} EnumExactly(v: Json, values: seq<Json>)
    ensures InEnum(v, values) <==> exists i :: 0 <= i < |values| && SameValue(values[i], v)
  {
    forall i | 0 <= i < |values|
      ensures Normal(values[i]) == Normal(v) <==> SameValue(values[i], v)
    {
      NormalExactly(values[i], v);
    }
  }

  /** A schema is an object or a boolean, and one with a malformed keyword accepts nothing. */
  lemma {:induction false} MalformedAcceptsNothing(def: Json, v: Json)
    requires || !(def.JBool? || def.JObj?)
             || (HasKeyword(def, "type") && !(def.fields["type"].JStr? || def.fields["type"].JArr?))
             || (HasKeyword(def, "enum") && !def.fields["enum"].JArr?)
             || (HasKeyword(def, "required") && !def.fields["required"].JArr?)
             || (HasKeyword(def, "properties") && !def.fields["properties"].JObj?)
    ensures !Valid(def, v)
  {
  }

  // ── Equal numbers are the same value ───────────────────────────────────────

  lemma {:induction false} TypeIgnoresSpelling(def: Json, v: Json, w: Json)
    requires Normal(v) == Normal(w)
    ensures TypeAllows(def, v) <==> TypeAllows(def, w)
  {
    forall t
      ensures TypeMatches(t, v) <==> TypeMatches(t, w)
    {
    }
  }

  lemma {:induction false} SameFields(v: Json, w: Json)
    requires Normal(v) == Normal(w) && v.JObj?
    ensures w.JObj? && v.fields.Keys == w.fields.Keys
    ensures forall f :: f in v.fields ==> Normal(v.fields[f]) == Normal(w.fields[f])
  {
    var m := Normal(v).fields;
    assert m.Keys == v.fields.Keys && m.Keys == w.fields.Keys;
    forall f | f in v.fields
      ensures Normal(v.fields[f]) == Normal(w.fields[f])
    {
      assert m[f] == Normal(v.fields[f]) && Normal(w).fields[f] == Normal(w.fields[f]);
    }
  }

  /** No schema tells equal instances apart, an integer from a float of the same value at any depth. */
  lemma {:induction false} ValidityIgnoresSpelling(def: Json, v: Json, w: Json)
    requires SameValue(v, w)
    ensures Valid(def, v) <==> Valid(def, w)
  {
    NormalExactly(v, w);
    NormalDecides(def, v, w);
  }

  lemma {:induction false} NormalDecides(def: Json, v: Json, w: Json)
    requires Normal(v) == Normal(w)
    ensures Valid(def, v) <==> Valid(def, w)
    decreases def
  {
    if def.JObj? {
      ValidByParts(def, v);
      ValidByParts(def, w);
      TypeIgnoresSpelling(def, v, w);
      if v.JObj? {
        SameFields(v, w);
        forall f | f in Properties(def) && f in v.fields
          ensures Valid(Properties(def)[f], v.fields[f]) <==> Valid(Properties(def)[f], w.fields[f])
        {
          assert def.fields["properties"].fields[f] == Properties(def)[f];
          NormalDecides(def.fields["properties"].fields[f], v.fields[f], w.fields[f]);
        }
      } else if w.JObj? {
        SameFields(w, v);
      }
    }
  }
}
