/**
 What `_resolve_schema` (workspace_agent/openapi_mcp.py) computes: the expansion of a schema, defined as a
 relation that follows references without a depth limit, and the proof that resolution returns it.
 */
module SchemaExpansion {
  import opened OpenApiSchema
  import opened Sequences
  import opened Wrappers

  /** Following at most n references leads from this one to these fields; what leads nowhere is any object. */
  ghost predicate RefersTo(spec: Json, ref: Json, fields: Fields, n: nat)
    decreases n
  {
    && n > 0 && ref.Str?
    && var target := if "#/" <= ref.s then Lookup(spec, ref.s[2..]) else None;
       if target.None? || !target.value.Obj? then fields == map["type" := Str("object")]
       else if "$ref" in target.value.fields then RefersTo(spec, target.value.fields["$ref"], fields, n - 1)
       else fields == target.value.fields
  }

  ghost predicate MergesTo(schemas: seq<Json>, e: Json) {
    Merge(schemas).Some? && e == Obj(Merge(schemas).value)
  }

  /** The siblings of a keyword are merged on top of what the keyword gives. */
  ghost predicate WithSiblings(given: Json, siblings: Fields, e: Json) {
    if siblings == map[] then e == given else MergesTo([given, Obj(siblings)], e)
  }

  ghost predicate IsParts(j: Json, parts: seq<Json>) {
    (j.Arr? && parts == j.items) || ((j.Obj? || j.Str?) && parts == [])
  }

  ghost predicate Falsy(j: Json) {
    j == Null || j == Bool(false) || j == Num(0.0) || j == Str("") || j == Arr([]) || j == Obj(map[])
  }

  ghost predicate IsFirst(j: Json, x: Json) {
    (j.Arr? && j.items != [] && x == j.items[0]) || (j.Str? && j.s != "" && x == Str([j.s[0]]))
  }

  /** e is the expansion of the schema, with at most n references and levels on any way down. */
  ghost predicate Expands(spec: Json, schema: Json, e: Json, n: nat)
    decreases n, 1
  {
    if !schema.Obj? then e == schema
    else
      var m := schema.fields;
      if "$ref" in m then exists t :: ByReference(spec, m, t, e, n)
      else if "allOf" in m then exists parts, es :: ByParts(spec, m, parts, es, e, n)
      else if "oneOf" in m then ByChoice(spec, m, "oneOf", e, n)
      else if "anyOf" in m then ByChoice(spec, m, "anyOf", e, n)
      else ByFields(spec, m, e, n)
  }

  /** A reference alone is expanded to what its target is; with siblings the target is merged with them. */
  ghost predicate ByReference(spec: Json, m: Fields, t: Fields, e: Json, n: nat)
    requires "$ref" in m
    decreases n, 0
  {
    && n > 0 && RefersTo(spec, m["$ref"], t, n)
    && if m.Keys == {"$ref"} then Expands(spec, Obj(t), e, n - 1) else MergesTo([Obj(t), Obj(m - {"$ref"})], e)
  }

  /** The expansions of all parts are merged. */
  ghost predicate ByParts(spec: Json, m: Fields, parts: seq<Json>, es: seq<Json>, e: Json, n: nat)
    requires "allOf" in m
    decreases n, 0
  {
    && n > 0 && IsParts(m["allOf"], parts) && |es| == |parts|
    && (forall i :: 0 <= i < |parts| ==> Expands(spec, parts[i], es[i], n - 1))
    && Merge(es).Some? && WithSiblings(Obj(Merge(es).value), m - {"allOf"}, e)
  }

  /** A choice is its first alternative. */
  ghost predicate ByChoice(spec: Json, m: Fields, keyword: string, e: Json, n: nat)
    requires keyword in m
    decreases n, 0
  {
    if Falsy(m[keyword]) then n > 0 && e == Obj(map["type" := Str("object")])
    else
      n > 0 && exists x, given ::
        FirstExpands(spec, m[keyword], x, given, n) && WithSiblings(given, m - {keyword}, e)
  }

  ghost predicate FirstExpands(spec: Json, j: Json, x: Json, given: Json, n: nat)
    requires n > 0
    decreases n - 1, 2
  {
    IsFirst(j, x) && Expands(spec, x, given, n - 1)
  }

  /** Properties and items are expanded one by one, and everything else stays. */
  ghost predicate ByFields(spec: Json, m: Fields, e: Json, n: nat)
    decreases n, 0
  {
    && e.Obj? && e.fields.Keys == m.Keys
    && (forall k :: k in m && k != "properties" && k != "items" ==> e.fields[k] == m[k])
    && ("properties" in m ==>
          && n > 0 && m["properties"].Obj? && e.fields["properties"].Obj?
          && e.fields["properties"].fields.Keys == m["properties"].fields.Keys
          && forall k :: k in m["properties"].fields ==>
               Expands(spec, m["properties"].fields[k], e.fields["properties"].fields[k], n - 1))
    && ("items" in m ==> n > 0 && Expands(spec, m["items"], e.fields["items"], n - 1))
  }

  // ---- what is resolved is an expansion ----

  lemma {:induction false} ResolvedRefersTo(spec: Json, ref: Json, left: nat)
    requires RefSettled(spec, ref, left) && ResolveRef(spec, ref, left).Some?
    ensures RefersTo(spec, ref, ResolveRef(spec, ref, left).value, left)
    decreases left
  {
    if "#/" <= ref.s {
      var target := Lookup(spec, ref.s[2..]);
      if target.Some? && target.value.Obj? && "$ref" in target.value.fields {
        ResolvedRefersTo(spec, target.value.fields["$ref"], left - 1);
      }
    }
  }

  lemma OnlyKey(m: Fields, key: string)
    requires key in m
    ensures m - {key} == map[] <==> m.Keys == {key}
  {
    if k :| k in m && k != key {
      assert k in m - {key};
    }
  }

  lemma {:induction false} ResolveExpands(spec: Json, schema: Json, left: nat)
    requires Settled(spec, schema, left) && Resolve(spec, schema, left).Some?
    ensures Expands(spec, schema, Resolve(spec, schema, left).value, left)
    decreases left, 2
  {
    if schema.Obj? {
      if Plain(schema.fields) {
        FieldsResolve(spec, schema, left);
      } else if "$ref" in schema.fields {
        ReferenceExpands(spec, schema, left);
      } else if "allOf" in schema.fields {
        PartsExpand(spec, schema, left);
      } else if ChoiceKeyword(schema.fields).Some? {
        ChoiceExpands(spec, schema, left);
      } else {
        FieldsExpand(spec, schema, left);
      }
    }
  }

  lemma FieldsResolve(spec: Json, schema: Json, left: nat)
    requires schema.Obj? && Plain(schema.fields)
    ensures Resolve(spec, schema, left) == Some(schema) && Expands(spec, schema, schema, left)
  {
  }

  lemma ReferenceExpands(spec: Json, schema: Json, left: nat)
    requires schema.Obj? && "$ref" in schema.fields
    requires Settled(spec, schema, left) && Resolve(spec, schema, left).Some?
    ensures Expands(spec, schema, Resolve(spec, schema, left).value, left)
    decreases left, 0
  {
    var m := schema.fields;
    var t := ResolveRef(spec, m["$ref"], left).value;
    ResolvedRefersTo(spec, m["$ref"], left);
    OnlyKey(m, "$ref");
    if m - {"$ref"} == map[] {
      ResolveExpands(spec, Obj(t), left - 1);
    }
    assert ByReference(spec, m, t, Resolve(spec, schema, left).value, left);
  }

  lemma {:induction false} AllResolveExpand(spec: Json, schemas: seq<Json>, left: nat, i: nat)
    requires i < |schemas| && ResolveAll(spec, schemas, left).Some?
    requires forall x :: x in schemas ==> Settled(spec, x, left)
    ensures |ResolveAll(spec, schemas, left).value| == |schemas|
    ensures Expands(spec, schemas[i], ResolveAll(spec, schemas, left).value[i], left)
    decreases left, 3, |schemas|
  {
    assert schemas[0] in schemas;
    ResolvedLength(spec, schemas[1..], left);
    if i == 0 {
      ResolveExpands(spec, schemas[0], left);
    } else {
      AllResolveExpand(spec, schemas[1..], left, i - 1);
    }
  }

  lemma {:induction false} ResolvedLength(spec: Json, schemas: seq<Json>, left: nat)
    ensures ResolveAll(spec, schemas, left).Some? ==> |ResolveAll(spec, schemas, left).value| == |schemas|
    decreases |schemas|
  {
    if schemas != [] {
      ResolvedLength(spec, schemas[1..], left);
    }
  }

  lemma PartsExpand(spec: Json, schema: Json, left: nat)
    requires schema.Obj? && "$ref" !in schema.fields && "allOf" in schema.fields
    requires Settled(spec, schema, left) && Resolve(spec, schema, left).Some?
    ensures Expands(spec, schema, Resolve(spec, schema, left).value, left)
    decreases left, 0
  {
    var m := schema.fields;
    var parts := Iterate(m["allOf"]).value;
    var es := ResolveAll(spec, parts, left - 1).value;
    ResolvedLength(spec, parts, left - 1);
    forall i | 0 <= i < |parts| ensures Expands(spec, parts[i], es[i], left - 1) {
      AllResolveExpand(spec, parts, left - 1, i);
    }
    assert ByParts(spec, m, parts, es, Resolve(spec, schema, left).value, left);
  }

  lemma TruthOfFalsy(j: Json)
    ensures Truthy(j) <==> !Falsy(j)
  {
  }

  lemma FirstIs(j: Json)
    requires Truthy(j)
    ensures First(j).Some? ==> IsFirst(j, First(j).value)
    ensures forall x :: IsFirst(j, x) ==> First(j) == Some(x)
  {
    if j.Str? {
      assert j.s[..1] == [j.s[0]];
    }
  }

  /** A choice is resolved as its first alternative, with the siblings merged on top. */
  ghost function ResolveChoice(spec: Json, m: Fields, keyword: string, left: nat): Option<Json>
    requires keyword in m
  {
    if Falsy(m[keyword]) then Some(Obj(OBJECT_TYPE))
    else
      var first := First(m[keyword]);
      if first.None? then None
      else
        var r := Resolve(spec, first.value, left);
        if r.None? then None else MergeWithOthers(r.value, m - {keyword})
  }

  lemma ResolveOfChoice(spec: Json, schema: Json, left: nat)
    requires schema.Obj? && "$ref" !in schema.fields && "allOf" !in schema.fields
    requires ChoiceKeyword(schema.fields).Some? && Settled(spec, schema, left)
    ensures left > 0
    ensures var m, keyword := schema.fields, ChoiceKeyword(schema.fields).value;
            && Resolve(spec, schema, left) == ResolveChoice(spec, m, keyword, left - 1)
            && (!Falsy(m[keyword]) && First(m[keyword]).Some? ==> Settled(spec, First(m[keyword]).value, left - 1))
  {
    TruthOfFalsy(schema.fields[ChoiceKeyword(schema.fields).value]);
  }

  lemma ChoiceExpands(spec: Json, schema: Json, left: nat)
    requires schema.Obj? && "$ref" !in schema.fields && "allOf" !in schema.fields
    requires ChoiceKeyword(schema.fields).Some?
    requires Settled(spec, schema, left) && Resolve(spec, schema, left).Some?
    ensures Expands(spec, schema, Resolve(spec, schema, left).value, left)
    decreases left, 0
  {
    var m := schema.fields;
    var keyword := ChoiceKeyword(m).value;
    ResolveOfChoice(spec, schema, left);
    if !Falsy(m[keyword]) {
      TruthOfFalsy(m[keyword]);
      FirstIs(m[keyword]);
      var x := First(m[keyword]).value;
      var given := Resolve(spec, x, left - 1).value;
      ResolveExpands(spec, x, left - 1);
      assert FirstExpands(spec, m[keyword], x, given, left);
    }
    assert ByChoice(spec, m, keyword, Resolve(spec, schema, left).value, left);
  }

  lemma PropertiesExpand(spec: Json, m: Fields, left: nat)
    requires "properties" in m && ResolveProperties(spec, m, left).Some?
    requires forall k :: k in m["properties"].fields ==> Settled(spec, m["properties"].fields[k], left)
    ensures var found := ResolveProperties(spec, m, left).value["properties"];
            && found.Obj? && found.fields.Keys == m["properties"].fields.Keys
            && forall k :: k in m["properties"].fields ==>
                 Expands(spec, m["properties"].fields[k], found.fields[k], left)
    decreases left, 3
  {
    forall k | k in m["properties"].fields
      ensures Expands(spec, m["properties"].fields[k],
                      ResolveProperties(spec, m, left).value["properties"].fields[k], left)
    {
      ResolveExpands(spec, m["properties"].fields[k], left);
    }
  }

  /** Resolving properties and items keeps the other fields. */
  lemma NestedFields(spec: Json, m: Fields, left: nat)
    requires ResolveNested(spec, m, left).Some?
    ensures var r := ResolveNested(spec, m, left).value;
            && r.Obj? && r.fields.Keys == m.Keys
            && (forall k :: k in m && k != "properties" && k != "items" ==> r.fields[k] == m[k])
            && ("properties" in m ==> && m["properties"].Obj? && ResolveProperties(spec, m, left).Some?
                                      && "properties" in ResolveProperties(spec, m, left).value
                                      && r.fields["properties"] == ResolveProperties(spec, m, left).value["properties"])
            && ("items" in m ==> Resolve(spec, m["items"], left) == Some(r.fields["items"]))
  {
  }

  lemma ResolveOfFields(spec: Json, schema: Json, left: nat)
    requires schema.Obj? && !Plain(schema.fields) && "$ref" !in schema.fields && "allOf" !in schema.fields
    requires ChoiceKeyword(schema.fields).None? && Settled(spec, schema, left)
    ensures left > 0 && Resolve(spec, schema, left) == ResolveNested(spec, schema.fields, left - 1)
    ensures "items" in schema.fields ==> Settled(spec, schema.fields["items"], left - 1)
    ensures "properties" in schema.fields && schema.fields["properties"].Obj? ==>
              forall k :: k in schema.fields["properties"].fields ==>
                Settled(spec, schema.fields["properties"].fields[k], left - 1)
  {
  }

  lemma FieldsExpand(spec: Json, schema: Json, left: nat)
    requires schema.Obj? && !Plain(schema.fields) && "$ref" !in schema.fields && "allOf" !in schema.fields
    requires ChoiceKeyword(schema.fields).None?
    requires Settled(spec, schema, left) && Resolve(spec, schema, left).Some?
    ensures Expands(spec, schema, Resolve(spec, schema, left).value, left)
    decreases left, 0
  {
    var m, e := schema.fields, Resolve(spec, schema, left).value;
    ResolveOfFields(spec, schema, left);
    NestedExpand(spec, m, left - 1);
    assert ByFields(spec, m, e, left);
  }

  lemma NestedExpand(spec: Json, m: Fields, left: nat)
    requires ResolveNested(spec, m, left).Some?
    requires "items" in m ==> Settled(spec, m["items"], left)
    requires "properties" in m && m["properties"].Obj? ==>
               forall k :: k in m["properties"].fields ==> Settled(spec, m["properties"].fields[k], left)
    ensures ByFields(spec, m, ResolveNested(spec, m, left).value, left + 1)
    decreases left, 4
  {
    NestedFields(spec, m, left);
    if "properties" in m {
      PropertiesExpand(spec, m, left);
    }
    if "items" in m {
      ResolveExpands(spec, m["items"], left);
    }
  }

  // ---- every expansion is what is resolved ----

  lemma {:induction false} ReferredIsResolved(spec: Json, ref: Json, t: Fields, n: nat, left: nat)
    requires RefersTo(spec, ref, t, n) && RefSettled(spec, ref, left)
    ensures ResolveRef(spec, ref, left) == Some(t)
    decreases n
  {
    if "#/" <= ref.s {
      var target := Lookup(spec, ref.s[2..]);
      if target.Some? && target.value.Obj? && "$ref" in target.value.fields {
        ReferredIsResolved(spec, target.value.fields["$ref"], t, n - 1, left - 1);
      }
    }
  }

  lemma {:induction false} ExpansionIsResolved(spec: Json, schema: Json, e: Json, n: nat, left: nat)
    requires Expands(spec, schema, e, n) && Settled(spec, schema, left)
    ensures Resolve(spec, schema, left) == Some(e)
    decreases n, 2
  {
    if schema.Obj? {
      var m := schema.fields;
      if Plain(m) {
        FieldsResolve(spec, schema, left);
        assert e.fields == m;
      } else if "$ref" in m {
        var t :| ByReference(spec, m, t, e, n);
        ReferenceIsResolved(spec, schema, t, e, n, left);
      } else if "allOf" in m {
        var parts, es :| ByParts(spec, m, parts, es, e, n);
        PartsAreResolved(spec, schema, parts, es, e, n, left);
      } else if ChoiceKeyword(m).Some? {
        ChoiceIsResolved(spec, schema, e, n, left);
      } else {
        FieldsAreResolved(spec, schema, e, n, left);
      }
    }
  }

  lemma ReferenceIsResolved(spec: Json, schema: Json, t: Fields, e: Json, n: nat, left: nat)
    requires schema.Obj? && "$ref" in schema.fields && ByReference(spec, schema.fields, t, e, n)
    requires Settled(spec, schema, left)
    ensures Resolve(spec, schema, left) == Some(e)
    decreases n, 0
  {
    ReferredIsResolved(spec, schema.fields["$ref"], t, n, left);
    OnlyKey(schema.fields, "$ref");
    if schema.fields - {"$ref"} == map[] {
      ExpansionIsResolved(spec, Obj(t), e, n - 1, left - 1);
    }
  }

  lemma {:induction false} AllAreResolved(spec: Json, schemas: seq<Json>, es: seq<Json>, n: nat, left: nat)
    requires |es| == |schemas|
    requires forall i :: 0 <= i < |schemas| ==> Expands(spec, schemas[i], es[i], n)
    requires forall x :: x in schemas ==> Settled(spec, x, left)
    ensures ResolveAll(spec, schemas, left) == Some(es)
    decreases n, 3, |schemas|
  {
    if schemas == [] {
      assert es == [];
    } else {
      assert schemas[0] in schemas;
      ExpansionIsResolved(spec, schemas[0], es[0], n, left);
      AllAreResolved(spec, schemas[1..], es[1..], n, left);
      assert es == [es[0]] + es[1..];
    }
  }

  lemma PartsAreResolved(spec: Json, schema: Json, parts: seq<Json>, es: seq<Json>, e: Json, n: nat, left: nat)
    requires schema.Obj? && "$ref" !in schema.fields && "allOf" in schema.fields
    requires ByParts(spec, schema.fields, parts, es, e, n) && Settled(spec, schema, left)
    ensures Resolve(spec, schema, left) == Some(e)
    decreases n, 0
  {
    assert Iterate(schema.fields["allOf"]) == Some(parts);
    AllAreResolved(spec, parts, es, n - 1, left - 1);
  }

  lemma ChoiceIsResolved(spec: Json, schema: Json, e: Json, n: nat, left: nat)
    requires schema.Obj? && "$ref" !in schema.fields && "allOf" !in schema.fields
    requires ChoiceKeyword(schema.fields).Some?
    requires ByChoice(spec, schema.fields, ChoiceKeyword(schema.fields).value, e, n) && Settled(spec, schema, left)
    ensures Resolve(spec, schema, left) == Some(e)
    decreases n, 0
  {
    var m := schema.fields;
    var keyword := ChoiceKeyword(m).value;
    ResolveOfChoice(spec, schema, left);
    if !Falsy(m[keyword]) {
      var x, given :| FirstExpands(spec, m[keyword], x, given, n) && WithSiblings(given, m - {keyword}, e);
      TruthOfFalsy(m[keyword]);
      FirstIs(m[keyword]);
      ExpansionIsResolved(spec, x, given, n - 1, left - 1);
    }
  }

  lemma PropertiesAreResolved(spec: Json, m: Fields, e: Json, n: nat, left: nat)
    requires "properties" in m && ByFields(spec, m, e, n)
    requires m["properties"].Obj? ==> forall k :: k in m["properties"].fields ==>
               Settled(spec, m["properties"].fields[k], left)
    ensures ResolveProperties(spec, m, left) == Some(m["properties" := e.fields["properties"]])
    decreases n - 1, 4
  {
    var props, found := m["properties"].fields, e.fields["properties"].fields;
    forall k | k in props ensures Resolve(spec, props[k], left) == Some(found[k]) {
      ExpansionIsResolved(spec, props[k], found[k], n - 1, left);
    }
    assert found == (map k | k in props :: Resolve(spec, props[k], left).value);
  }

  /** Fields that agree but for properties and items. */
  lemma FieldsDetermined(m: Fields, e: Fields)
    requires e.Keys == m.Keys && forall k :: k in m && k != "properties" && k != "items" ==> e[k] == m[k]
    ensures var m1 := if "properties" in m then m["properties" := e["properties"]] else m;
            e == if "items" in m then m1["items" := e["items"]] else m1
  {
  }

  lemma FieldsAreResolved(spec: Json, schema: Json, e: Json, n: nat, left: nat)
    requires schema.Obj? && !Plain(schema.fields) && "$ref" !in schema.fields && "allOf" !in schema.fields
    requires ChoiceKeyword(schema.fields).None?
    requires ByFields(spec, schema.fields, e, n) && Settled(spec, schema, left)
    ensures Resolve(spec, schema, left) == Some(e)
    decreases n, 0
  {
    var m := schema.fields;
    FieldsDetermined(m, e.fields);
    if "properties" in m {
      PropertiesAreResolved(spec, m, e, n, left - 1);
    }
    if "items" in m {
      ExpansionIsResolved(spec, m["items"], e.fields["items"], n - 1, left - 1);
    }
  }

  /**
   If the depth limit is not what stops it, resolution returns exactly the expansion of the schema: it
   raises if there is none, and there is at most one.
   */
  lemma ResolutionIsExpansion(spec: Json, schema: Json, e: Json)
    requires Settled(spec, schema, 11)
    ensures ResolveSchema(spec, schema) == Some(e) <==> exists n: nat :: Expands(spec, schema, e, n)
  {
    if ResolveSchema(spec, schema) == Some(e) {
      var n := MAX_REF_DEPTH + 1;
      ResolveExpands(spec, schema, n);
      assert Expands(spec, schema, e, n);
    }
    if exists n: nat :: Expands(spec, schema, e, n) {
      var n: nat :| Expands(spec, schema, e, n);
      ExpansionIsResolved(spec, schema, e, n, MAX_REF_DEPTH + 1);
    }
  }

  // ---- the parts of an `allOf` ----

  lemma {:induction false} MergedAreMergeable(m: Merged, schemas: seq<Json>)
    requires MergeFrom(m, schemas).Some?
    ensures forall x :: x in schemas ==> Mergeable(x)
    decreases |schemas|
  {
    if schemas != [] {
      MergedAreMergeable(MergeOne(m, schemas[0]), schemas[1..]);
    }
  }

  /** The expansions of the parts, and the siblings if there are any. */
  ghost function Collected(es: seq<Json>, siblings: Fields): seq<Json> {
    es + (if siblings == map[] then [] else [Obj(siblings)])
  }

  /** The siblings are merged last. */
  lemma PartsMergeTo(spec: Json, m: Fields, parts: seq<Json>, es: seq<Json>, e: Json, n: nat)
    requires "allOf" in m && ByParts(spec, m, parts, es, e, n)
    ensures MergesTo(Collected(es, m - {"allOf"}), e)
  {
    var siblings := m - {"allOf"};
    if siblings == map[] {
      EmptyUnit(es);
    } else {
      MergeFlattens(es, [Obj(siblings)]);
      assert [Obj(Merge(es).value)] + [Obj(siblings)] == [Obj(Merge(es).value), Obj(siblings)];
    }
  }

  /** A merge has the union of the properties; the last schema that has one decides it. */
  lemma MergedProperties(all: seq<Json>, e: Json, name: string)
    requires MergesTo(all, e)
    ensures forall x :: x in all ==> Mergeable(x)
    ensures e.Obj? && Mergeable(e)
    ensures name in Properties(e) <==> LastProperty(all, name).Some?
    ensures name in Properties(e) ==> Properties(e)[name] == LastProperty(all, name).value
  {
    MergedAreMergeable(NOTHING_MERGED, all);
    MergedProperty(all, name);
    MergedFields(MergeFrom(NOTHING_MERGED, all).value);
  }

  /** Its other fields: the last type and description, and the required names if there are any. */
  lemma MergedOthers(all: seq<Json>, e: Json)
    requires MergesTo(all, e) && forall x :: x in all ==> Mergeable(x)
    ensures Mergeable(e) && Required(e) == FirstOccurrences(AllRequired(all))
    ensures var t, d := LastField(all, "type"), LastField(all, "description");
            && "type" in e.fields && e.fields["type"] == (if t.Some? then t.value else Str("object"))
            && ("description" in e.fields <==> d.Some?)
            && ("description" in e.fields ==> e.fields["description"] == d.value)
            && e.fields.Keys == {"type", "properties"} + (if Required(e) == [] then {} else {"required"})
                                + (if d.Some? then {"description"} else {})
  {
    MergedScalars(all);
    MergedRequired(all);
    MergedFields(MergeFrom(NOTHING_MERGED, all).value);
  }

  /**
   The expansion of an `allOf` has the properties and required names of all its expanded parts and of the
   siblings: the last one that has a property decides it, and the last type and description count.
   */
  lemma PartsAreCollected(spec: Json, m: Fields, parts: seq<Json>, es: seq<Json>, e: Json, n: nat, name: string)
    requires "allOf" in m && ByParts(spec, m, parts, es, e, n)
    ensures var all := Collected(es, m - {"allOf"});
            && (forall x :: x in all ==> Mergeable(x))
            && e.Obj? && Mergeable(e)
            && (name in Properties(e) <==> LastProperty(all, name).Some?)
            && (name in Properties(e) ==> Properties(e)[name] == LastProperty(all, name).value)
            && Required(e) == FirstOccurrences(AllRequired(all))
            && var t, d := LastField(all, "type"), LastField(all, "description");
               && "type" in e.fields && e.fields["type"] == (if t.Some? then t.value else Str("object"))
               && ("description" in e.fields <==> d.Some?)
               && ("description" in e.fields ==> e.fields["description"] == d.value)
               && e.fields.Keys == {"type", "properties"} + (if Required(e) == [] then {} else {"required"})
                                   + (if d.Some? then {"description"} else {})
  {
    var all := Collected(es, m - {"allOf"});
    PartsMergeTo(spec, m, parts, es, e, n);
    MergedProperties(all, e, name);
    MergedOthers(all, e);
  }
}
