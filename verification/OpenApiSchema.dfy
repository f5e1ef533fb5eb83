/**
 Resolution of OpenAPI schemas into flat ones (workspace_agent/openapi_mcp.py, `_resolve_ref`,
 `_resolve_schema`, `_merge_schemas`).

 JSON objects are maps, so the order of keys is not modelled.  A result of None is a Python
 exception that the code lets through.
 */
module OpenApiSchema {
  import opened Bytes
  import opened PercentEncoding
  import opened Sequences
  import opened Text
  import opened Wrappers

  datatype Json =
    | Null
    | Bool(b: bool)
    | Num(n: real)
    | Str(s: string)
    | Arr(items: seq<Json>)
    | Obj(fields: Fields)

  type Fields = map<string, Json>

  const OBJECT_TYPE: Fields := map["type" := Str("object")]

  const MAX_REF_DEPTH: nat := 10

  // ---- JSON pointers (RFC 6901) ----

  function Unescape(part: string): string {
    Replace(Replace(part, "~1", "/"), "~0", "~")
  }

  function Escape(key: string): string {
    if key == "" then ""
    else (if key[0] == '~' then "~0" else if key[0] == '/' then "~1" else [key[0]]) + Escape(key[1..])
  }

  /** The reference that points at `spec[keys[0]][keys[1]]...`, after its leading "#/". */
  function PointerTo(keys: seq<string>): string
    requires keys != []
  {
    if |keys| == 1 then Escape(keys[0]) else Escape(keys[0]) + ['/'] + PointerTo(keys[1..])
  }

  /** The value found by indexing with each key in turn; None for the KeyError or TypeError. */
  function Walk(value: Json, keys: seq<string>): Option<Json>
    decreases |keys|
  {
    if keys == [] then Some(value)
    else if value.Obj? && keys[0] in value.fields then Walk(value.fields[keys[0]], keys[1..])
    else None
  }

  function UnescapeAll(parts: seq<string>): seq<string> {
    if parts == [] then [] else [Unescape(parts[0])] + UnescapeAll(parts[1..])
  }

  function Lookup(spec: Json, pointer: string): Option<Json> {
    Walk(spec, UnescapeAll(Split(pointer, '/')))
  }

  // ---- merging ----

  /** The dictionary that `_merge_schemas` builds up. */
  datatype Merged = Merged(type_: Json, properties: Fields, required: seq<Json>, description: Option<Json>) {
    function ToFields(): Fields {
      map["type" := type_, "properties" := Obj(properties)]
      + (if required == [] then map[] else map["required" := Arr(required)])
      + (if description.Some? then map["description" := description.value] else map[])
    }
  }

  const NOTHING_MERGED := Merged(Str("object"), map[], [], None)

  function AddRequired(required: seq<Json>, names: seq<Json>): seq<Json>
    decreases |names|
  {
    if names == [] then required
    else AddRequired(if names[0] in required then required else required + [names[0]], names[1..])
  }

  /** `properties` must be an object and `required` an array; anything else raises. */
  predicate Mergeable(schema: Json) {
    schema.Obj? ==>
      && ("properties" in schema.fields ==> schema.fields["properties"].Obj?)
      && ("required" in schema.fields ==> schema.fields["required"].Arr?)
  }

  function Properties(schema: Json): Fields
    requires Mergeable(schema)
  {
    if schema.Obj? && "properties" in schema.fields then schema.fields["properties"].fields else map[]
  }

  function Required(schema: Json): seq<Json>
    requires Mergeable(schema)
  {
    if schema.Obj? && "required" in schema.fields then schema.fields["required"].items else []
  }

  function MergeOne(m: Merged, schema: Json): Merged
    requires Mergeable(schema)
  {
    if !schema.Obj? then m
    else
      Merged(
        if "type" in schema.fields then schema.fields["type"] else m.type_,
        m.properties + Properties(schema),
        AddRequired(m.required, Required(schema)),
        if "description" in schema.fields then Some(schema.fields["description"]) else m.description)
  }

  function MergeFrom(m: Merged, schemas: seq<Json>): Option<Merged>
    decreases |schemas|
  {
    if schemas == [] then Some(m)
    else if !Mergeable(schemas[0]) then None
    else MergeFrom(MergeOne(m, schemas[0]), schemas[1..])
  }

  function Merge(schemas: seq<Json>): Option<Fields> {
    var m := MergeFrom(NOTHING_MERGED, schemas);
    if m.None? then None else Some(m.value.ToFields())
  }

  /** `_merge_schemas` as the code runs it. */
  method MergeSchemas(schemas: seq<Json>) returns (r: Option<Fields>)
    ensures r == Merge(schemas)
  {
    var m := NOTHING_MERGED;
    var i := 0;
    while i < |schemas|
      invariant i <= |schemas|
      invariant MergeFrom(m, schemas[i..]) == MergeFrom(NOTHING_MERGED, schemas)
    {
      var schema := schemas[i];
      assert schemas[i..][1..] == schemas[i + 1..];
      if !Mergeable(schema) {
        return None;
      }
      if schema.Obj? {
        var names := Required(schema);
        var required := m.required;
        var j := 0;
        while j < |names|
          invariant j <= |names|
          invariant AddRequired(required, names[j..]) == AddRequired(m.required, names)
        {
          assert names[j..][1..] == names[j + 1..];
          if names[j] !in required {
            required := required + [names[j]];
          }
          j := j + 1;
        }
        m := Merged(
          if "type" in schema.fields then schema.fields["type"] else m.type_,
          m.properties + Properties(schema),
          required,
          if "description" in schema.fields then Some(schema.fields["description"]) else m.description);
      }
      i := i + 1;
    }
    return Some(m.ToFields());
  }

  // ---- references and schemas ----

  /**
   `_resolve_ref`; `left` is MAX_REF_DEPTH + 1 minus the depth argument of the code.
   */
  function ResolveRef(spec: Json, ref: Json, left: nat): Option<Fields>
    decreases left
  {
    if left == 0 then Some(OBJECT_TYPE)
    else if !ref.Str? then None
    else if !("#/" <= ref.s) then Some(OBJECT_TYPE)
    else
      var target := Lookup(spec, ref.s[2..]);
      if target.None? || !target.value.Obj? then Some(OBJECT_TYPE)
      else if "$ref" in target.value.fields then ResolveRef(spec, target.value.fields["$ref"], left - 1)
      else Some(target.value.fields)
  }

  /** What a `for` loop over the value sees, without the strings that merging skips anyway. */
  function Iterate(j: Json): Option<seq<Json>> {
    match j
    case Arr(items) => Some(items)
    case Obj(_) => Some([])
    case Str(_) => Some([])
    case _ => None
  }

  predicate Truthy(j: Json) {
    match j
    case Null => false
    case Bool(b) => b
    case Num(n) => n != 0.0
    case Str(s) => s != ""
    case Arr(items) => items != []
    case Obj(fields) => fields != map[]
  }

  /** `j[0]` for a truthy value. */
  function First(j: Json): Option<Json>
    requires Truthy(j)
  {
    match j
    case Arr(items) => Some(items[0])
    case Str(s) => Some(Str(s[..1]))
    case _ => None
  }

  function ChoiceKeyword(m: Fields): Option<string> {
    if "oneOf" in m then Some("oneOf") else if "anyOf" in m then Some("anyOf") else None
  }

  function MergeWithOthers(first: Json, others: Fields): Option<Json> {
    if others == map[] then Some(first)
    else
      var r := Merge([first, Obj(others)]);
      if r.None? then None else Some(Obj(r.value))
  }

  function Resolve(spec: Json, schema: Json, left: nat): Option<Json>
    decreases left, 0, 0
  {
    if left == 0 || !schema.Obj? then Some(schema)
    else
      var m := schema.fields;
      if "$ref" in m then
        var r := ResolveRef(spec, m["$ref"], left);
        if r.None? then None
        else if m - {"$ref"} != map[] then MergeWithOthers(Obj(r.value), m - {"$ref"})
        else Resolve(spec, Obj(r.value), left - 1)
      else if "allOf" in m then
        var parts := Iterate(m["allOf"]);
        if parts.None? then None
        else
          var all := ResolveAll(spec, parts.value, left - 1);
          if all.None? then None
          else
            var merged := Merge(all.value);
            if merged.None? then None else MergeWithOthers(Obj(merged.value), m - {"allOf"})
      else if ChoiceKeyword(m).Some? then
        var keyword := ChoiceKeyword(m).value;
        if !Truthy(m[keyword]) then Some(Obj(OBJECT_TYPE))
        else
          var first := First(m[keyword]);
          if first.None? then None
          else
            var r := Resolve(spec, first.value, left - 1);
            if r.None? then None else MergeWithOthers(r.value, m - {keyword})
      else
        var m1 := ResolveProperties(spec, m, left - 1);
        if m1.None? then None else ResolveItems(spec, m1.value, left - 1)
  }

  function ResolveAll(spec: Json, schemas: seq<Json>, left: nat): Option<seq<Json>>
    decreases left, 1, |schemas|
  {
    if schemas == [] then Some([])
    else
      var first := Resolve(spec, schemas[0], left);
      var rest := ResolveAll(spec, schemas[1..], left);
      if first.None? || rest.None? then None else Some([first.value] + rest.value)
  }

  function ResolveProperties(spec: Json, m: Fields, left: nat): Option<Fields>
    decreases left, 1, 0
  {
    if "properties" !in m then Some(m)
    else if !m["properties"].Obj? then None
    else
      var props := m["properties"].fields;
      if exists k :: k in props && Resolve(spec, props[k], left).None? then None
      else Some(m["properties" := Obj(map k | k in props :: Resolve(spec, props[k], left).value)])
  }

  function ResolveItems(spec: Json, m: Fields, left: nat): Option<Json>
    decreases left, 1, 0
  {
    if "items" !in m then Some(Obj(m))
    else
      var r := Resolve(spec, m["items"], left);
      if r.None? then None else Some(Obj(m["items" := r.value]))
  }

  /** `_resolve_schema` as its callers use it, from depth 0. */
  function ResolveSchema(spec: Json, schema: Json): Option<Json> {
    Resolve(spec, schema, MAX_REF_DEPTH + 1)
  }

  // ---- pointers reach their targets ----

  lemma {:induction false} UnescapeSlashes(key: string)
    ensures Replace(Escape(key), "~1", "/") == TildesEscaped(key)
  {
    if key != "" {
      UnescapeSlashes(key[1..]);
      var e, rest := Escape(key), Escape(key[1..]);
      if key[0] == '/' {
        ReplaceHits(rest, "~1", "/");
      } else {
        assert key[0] == '~' ==> e[0] == '~' && e[1] == '0' && e[1..] == ['0'] + rest && e[1..][1..] == rest;
        assert key[0] != '~' ==> e[0] == key[0] && e[1..] == rest;
        assert !("~1" <= e) by {
          assert "~1"[0] == '~' && "~1"[1] == '1';
        }
        ReplaceSkips(e, "~1", "/");
        if key[0] == '~' {
          assert e[1..][0] != "~1"[0];
          ReplaceSkips(e[1..], "~1", "/");
        }
      }
    }
  }

  /** The key with only its tildes escaped. */
  ghost function TildesEscaped(key: string): string {
    if key == "" then "" else (if key[0] == '~' then "~0" else [key[0]]) + TildesEscaped(key[1..])
  }

  lemma {:induction false} UnescapeTildes(key: string)
    ensures Replace(TildesEscaped(key), "~0", "~") == key
  {
    if key != "" {
      UnescapeTildes(key[1..]);
      var e, rest := TildesEscaped(key), TildesEscaped(key[1..]);
      if key[0] == '~' {
        ReplaceHits(rest, "~0", "~");
      } else {
        assert e[0] != "~0"[0] && e[1..] == rest;
        ReplaceSkips(e, "~0", "~");
      }
    }
  }

  /** Unescaping inverts the escaping of section 3 of RFC 6901. */
  lemma UnescapeInvertsEscape(key: string)
    ensures Unescape(Escape(key)) == key
  {
    UnescapeSlashes(key);
    UnescapeTildes(key);
  }

  lemma {:induction false} EscapedHasNoSlash(key: string)
    ensures '/' !in Escape(key)
  {
    if key != "" {
      EscapedHasNoSlash(key[1..]);
    }
  }

  lemma UnescapeAllCons(part: string, parts: seq<string>)
    ensures UnescapeAll([part] + parts) == [Unescape(part)] + UnescapeAll(parts)
  {
    assert ([part] + parts)[1..] == parts;
  }

  lemma LastPart(part: string)
    requires '/' !in part
    ensures UnescapeAll(Split(part, '/')) == [Unescape(part)]
  {
    SplitAtSeparator(part, '/', "");
    UnescapeAllCons(part, []);
  }

  lemma FirstPart(part: string, rest: string)
    requires '/' !in part
    ensures UnescapeAll(Split(part + ['/'] + rest, '/')) == [Unescape(part)] + UnescapeAll(Split(rest, '/'))
  {
    SplitAtSeparator(part, '/', rest);
    UnescapeAllCons(part, Split(rest, '/'));
  }

  lemma {:induction false} PointerParts(keys: seq<string>)
    requires keys != []
    ensures UnescapeAll(Split(PointerTo(keys), '/')) == keys
  {
    EscapedHasNoSlash(keys[0]);
    UnescapeInvertsEscape(keys[0]);
    if |keys| == 1 {
      LastPart(Escape(keys[0]));
      assert keys == [keys[0]];
    } else {
      PointerParts(keys[1..]);
      FirstPart(Escape(keys[0]), PointerTo(keys[1..]));
      assert keys == [keys[0]] + keys[1..];
    }
  }

  /** A reference in the string representation (section 3 of RFC 6901) finds what indexing with its keys finds. */
  lemma ReferenceReachesTarget(spec: Json, keys: seq<string>)
    requires keys != []
    ensures Lookup(spec, PointerTo(keys)) == Walk(spec, keys)
  {
    PointerParts(keys);
  }

  // ---- pointers as URI fragments ----

  /** Characters that a fragment may have as they are (section 3.5 of RFC 3986). */
  predicate FragmentChar(c: char) {
    ((c as int) < 256 && Unreserved(c as int))
    || c in {'!', '$', '&', '\'', '(', ')', '*', '+', ',', ';', '=', ':', '@', '/', '?'}
  }

  function FragmentPart(c: char): string {
    if FragmentChar(c) then [c] else PercentEncode(Utf8(c))
  }

  /** The URI fragment representation of a pointer (section 6 of RFC 6901). */
  function Fragment(pointer: string): string {
    FlatMap(FragmentPart, pointer)
  }

  function FragmentKeys(keys: seq<string>): (r: seq<string>)
    ensures |r| == |keys|
  {
    if keys == [] then [] else [Fragment(keys[0])] + FragmentKeys(keys[1..])
  }

  lemma FragmentAdd(a: string, b: string)
    ensures Fragment(a + b) == Fragment(a) + Fragment(b)
  {
    FlatMapAdd(FragmentPart, a, b);
  }

  lemma {:induction false} FragmentKept(s: string)
    requires forall c :: c in s ==> FragmentChar(c)
    ensures Fragment(s) == s
  {
    if s != "" {
      assert s[0] in s && forall c :: c in s[1..] ==> c in s;
      FragmentKept(s[1..]);
      assert s == [s[0]] + s[1..];
    }
  }

  lemma {:induction false} FragmentGrows(s: string)
    ensures |Fragment(s)| >= |s|
    ensures |Fragment(s)| == |s| ==> forall c :: c in s ==> FragmentChar(c)
  {
    if s != "" {
      FragmentGrows(s[1..]);
      assert PercentEncode(Utf8(s[0])) != "" && |PercentEncode(Utf8(s[0]))| >= 3;
      assert |Fragment(s)| == |FragmentPart(s[0])| + |Fragment(s[1..])|;
    }
  }

  lemma {:induction false} EscapeAdd(a: string, b: string)
    ensures Escape(a + b) == Escape(a) + Escape(b)
  {
    if a == "" {
      EmptyUnit(b);
      EmptyUnit(Escape(b));
    } else {
      assert (a + b)[0] == a[0] && (a + b)[1..] == a[1..] + b;
      EscapeAdd(a[1..], b);
      Assoc(if a[0] == '~' then "~0" else if a[0] == '/' then "~1" else [a[0]], Escape(a[1..]), Escape(b));
    }
  }

  lemma {:induction false} EscapePlain(s: string)
    requires '~' !in s && '/' !in s
    ensures Escape(s) == s
  {
    if s != "" {
      var c, rest := s[0], s[1..];
      assert c in s && forall x :: x in rest ==> x in s;
      EscapePlain(rest);
      assert Escape(s) == [c] + Escape(rest);
      assert s == [c] + rest;
    }
  }

  lemma {:induction false} PercentEncodedIsPlain(b: bytes)
    ensures '~' !in PercentEncode(b) && '/' !in PercentEncode(b)
  {
    if b != [] {
      PercentEncodedIsPlain(b[1..]);
    }
  }

  /** One character of a key. */
  lemma EscapePart(c: char)
    ensures Fragment(Escape([c])) == Escape(FragmentPart(c))
  {
    assert [c][1..] == "";
    if c == '~' || c == '/' {
      FragmentKept(Escape([c]));
    } else {
      EscapePlain([c]);
      EmptyUnit(FragmentPart(c));
      assert Fragment([c]) == FragmentPart(c) + Fragment("");
      PercentEncodedIsPlain(Utf8(c));
      EscapePlain(FragmentPart(c));
    }
  }

  /** Encoding an escaped key is escaping the encoded key. */
  lemma {:induction false} FragmentOfEscape(key: string)
    ensures Fragment(Escape(key)) == Escape(Fragment(key))
  {
    if key != "" {
      var rest := key[1..];
      assert key == [key[0]] + rest;
      EscapeAdd([key[0]], rest);
      FragmentAdd(Escape([key[0]]), Escape(rest));
      EscapePart(key[0]);
      FragmentOfEscape(rest);
      EscapeAdd(FragmentPart(key[0]), Fragment(rest));
    }
  }

  /** The fragment points at the encoded keys. */
  lemma {:induction false} FragmentOfPointer(keys: seq<string>)
    requires keys != []
    ensures Fragment(PointerTo(keys)) == PointerTo(FragmentKeys(keys))
  {
    FragmentOfEscape(keys[0]);
    if |keys| > 1 {
      var rest := PointerTo(keys[1..]);
      FragmentOfPointer(keys[1..]);
      FragmentAdd(Escape(keys[0]) + ['/'], rest);
      FragmentAdd(Escape(keys[0]), ['/']);
      FragmentKept(['/']);
      assert FragmentKeys(keys)[1..] == FragmentKeys(keys[1..]);
    }
  }

  /** A document in which only these keys lead anywhere. */
  function Nest(keys: seq<string>): Json {
    if keys == [] then Null else Obj(map[keys[0] := Nest(keys[1..])])
  }

  lemma {:induction false} OnlyKeysReach(keys: seq<string>, others: seq<string>)
    requires |others| == |keys|
    ensures Walk(Nest(keys), others).Some? <==> others == keys
  {
    if keys != [] {
      assert keys == [keys[0]] + keys[1..] && others == [others[0]] + others[1..];
      OnlyKeysReach(keys[1..], others[1..]);
    }
  }

  lemma {:induction false} FragmentKeysUnchangedIff(keys: seq<string>)
    ensures FragmentKeys(keys) == keys <==> forall k, c :: k in keys && c in k ==> FragmentChar(c)
  {
    if keys != [] {
      var first, rest := keys[0], keys[1..];
      assert keys == [first] + rest && FragmentKeys(keys)[1..] == FragmentKeys(rest);
      FragmentKeysUnchangedIff(rest);
      FragmentGrows(first);
      if forall c :: c in first ==> FragmentChar(c) {
        FragmentKept(first);
      }
    }
  }

  /**
   The code does not decode a fragment, so a reference in the fragment representation finds what indexing
   with its keys finds, in every specification, exactly if the keys need no percent-encoding.
   */
  lemma FragmentReachesTargetIff(keys: seq<string>)
    requires keys != []
    ensures (forall spec :: Lookup(spec, Fragment(PointerTo(keys))) == Walk(spec, keys))
            <==> forall k, c :: k in keys && c in k ==> FragmentChar(c)
  {
    var encoded := FragmentKeys(keys);
    FragmentOfPointer(keys);
    FragmentKeysUnchangedIff(keys);
    forall spec ensures Lookup(spec, Fragment(PointerTo(keys))) == Walk(spec, encoded) {
      ReferenceReachesTarget(spec, encoded);
    }
    if encoded != keys {
      OnlyKeysReach(keys, encoded);
      OnlyKeysReach(keys, keys);
    }
  }

  /** A resolved reference is never itself a reference, also on cyclic specifications. */
  lemma {:induction false} ResolvedRefIsNoRef(spec: Json, ref: Json, left: nat)
    ensures ResolveRef(spec, ref, left).Some? ==> "$ref" !in ResolveRef(spec, ref, left).value
    decreases left
  {
    if left > 0 && ref.Str? && "#/" <= ref.s {
      var target := Lookup(spec, ref.s[2..]);
      if target.Some? && target.value.Obj? && "$ref" in target.value.fields {
        ResolvedRefIsNoRef(spec, target.value.fields["$ref"], left - 1);
      }
    }
  }

  /** A reference to itself is any object, whatever the limit. */
  lemma {:induction false} SelfReferenceIsAnyObject(spec: Json, ref: string, m: Fields, left: nat)
    requires "#/" <= ref && Lookup(spec, ref[2..]) == Some(Obj(m)) && "$ref" in m && m["$ref"] == Str(ref)
    ensures ResolveRef(spec, Str(ref), left) == Some(map["type" := Str("object")])
    decreases left
  {
    if left > 0 {
      SelfReferenceIsAnyObject(spec, ref, m, left - 1);
    }
  }

  /** Past the limit schemas stay as they are. */
  lemma DeepSchemaStays(spec: Json, schema: Json)
    ensures Resolve(spec, schema, 0) == Some(schema) && ResolveSchema(spec, schema) == Resolve(spec, schema, 11)
  {
  }

  // ---- the depth limit ----

  /** The chain of references ends within `left` steps. */
  ghost predicate RefSettled(spec: Json, ref: Json, left: nat)
    decreases left
  {
    left > 0 &&
    (ref.Str? && "#/" <= ref.s ==>
       var target := Lookup(spec, ref.s[2..]);
       target.Some? && target.value.Obj? && "$ref" in target.value.fields ==>
         RefSettled(spec, target.value.fields["$ref"], left - 1))
  }

  predicate Plain(m: Fields) {
    && "$ref" !in m && "allOf" !in m && "oneOf" !in m && "anyOf" !in m && "properties" !in m && "items" !in m
  }

  /** The expansion of the schema has height at most `left`: the depth limit is never what stops it. */
  ghost predicate Settled(spec: Json, schema: Json, left: nat)
    decreases left
  {
    schema.Obj? && !Plain(schema.fields) ==>
      && left > 0
      && var m := schema.fields;
         if "$ref" in m then
           && RefSettled(spec, m["$ref"], left)
           && (m - {"$ref"} == map[] && ResolveRef(spec, m["$ref"], left).Some? ==>
                 Settled(spec, Obj(ResolveRef(spec, m["$ref"], left).value), left - 1))
         else if "allOf" in m then
           Iterate(m["allOf"]).Some? ==>
             forall x :: x in Iterate(m["allOf"]).value ==> Settled(spec, x, left - 1)
         else if ChoiceKeyword(m).Some? then
           Truthy(m[ChoiceKeyword(m).value]) && First(m[ChoiceKeyword(m).value]).Some? ==>
             Settled(spec, First(m[ChoiceKeyword(m).value]).value, left - 1)
         else
           && ("properties" in m && m["properties"].Obj? ==>
                 forall k :: k in m["properties"].fields ==> Settled(spec, m["properties"].fields[k], left - 1))
           && ("items" in m ==> Settled(spec, m["items"], left - 1))
  }

  lemma {:induction false} RefDepthIrrelevant(spec: Json, ref: Json, left: nat, more: nat)
    requires RefSettled(spec, ref, left) && left <= more
    ensures RefSettled(spec, ref, more) && ResolveRef(spec, ref, more) == ResolveRef(spec, ref, left)
    decreases left
  {
    if ref.Str? && "#/" <= ref.s {
      var target := Lookup(spec, ref.s[2..]);
      if target.Some? && target.value.Obj? && "$ref" in target.value.fields {
        RefDepthIrrelevant(spec, target.value.fields["$ref"], left - 1, more - 1);
      }
    }
  }

  lemma {:induction false} AllDepthIrrelevant(spec: Json, schemas: seq<Json>, left: nat, more: nat)
    requires forall x :: x in schemas ==> Settled(spec, x, left)
    requires left <= more
    ensures forall x :: x in schemas ==> Settled(spec, x, more)
    ensures ResolveAll(spec, schemas, more) == ResolveAll(spec, schemas, left)
    decreases left, 1, |schemas|
  {
    if schemas != [] {
      assert schemas[0] in schemas;
      DepthIrrelevant(spec, schemas[0], left, more);
      AllDepthIrrelevant(spec, schemas[1..], left, more);
    }
  }

  lemma PropertiesDepthIrrelevant(spec: Json, m: Fields, left: nat, more: nat)
    requires left <= more
    requires "properties" in m && m["properties"].Obj? ==>
               forall k :: k in m["properties"].fields ==> Settled(spec, m["properties"].fields[k], left)
    ensures "properties" in m && m["properties"].Obj? ==>
               forall k :: k in m["properties"].fields ==> Settled(spec, m["properties"].fields[k], more)
    ensures ResolveProperties(spec, m, more) == ResolveProperties(spec, m, left)
    decreases left, 1, 0
  {
    if "properties" in m && m["properties"].Obj? {
      var props := m["properties"].fields;
      forall k | k in props
        ensures Settled(spec, props[k], more) && Resolve(spec, props[k], more) == Resolve(spec, props[k], left)
      {
        DepthIrrelevant(spec, props[k], left, more);
      }
      if ResolveProperties(spec, m, left).Some? {
        assert (map k | k in props :: Resolve(spec, props[k], more).value)
            == (map k | k in props :: Resolve(spec, props[k], left).value);
      }
    }
  }

  /** When the expansion fits, more depth changes nothing. */
  lemma {:induction false} DepthIrrelevant(spec: Json, schema: Json, left: nat, more: nat)
    requires Settled(spec, schema, left) && left <= more
    ensures Settled(spec, schema, more) && Resolve(spec, schema, more) == Resolve(spec, schema, left)
    decreases left, 0, 0
  {
    if schema.Obj? && !Plain(schema.fields) {
      if "$ref" in schema.fields {
        ReferenceDepthIrrelevant(spec, schema, left, more);
      } else if "allOf" in schema.fields {
        AllOfDepthIrrelevant(spec, schema, left, more);
      } else {
        UnreferencedDepthIrrelevant(spec, schema, left, more);
      }
    }
  }

  lemma ReferenceDepthIrrelevant(spec: Json, schema: Json, left: nat, more: nat)
    requires schema.Obj? && !Plain(schema.fields) && "$ref" in schema.fields
    requires Settled(spec, schema, left) && left <= more
    ensures Settled(spec, schema, more) && Resolve(spec, schema, more) == Resolve(spec, schema, left)
    decreases left - 1, 2, 0
  {
    var ref := schema.fields["$ref"];
    var r := ResolveRef(spec, ref, left);
    RefDepthIrrelevant(spec, ref, left, more);
    if schema.fields - {"$ref"} == map[] && r.Some? {
      DepthIrrelevant(spec, Obj(r.value), left - 1, more - 1);
    }
  }

  lemma AllOfDepthIrrelevant(spec: Json, schema: Json, left: nat, more: nat)
    requires schema.Obj? && !Plain(schema.fields) && "$ref" !in schema.fields && "allOf" in schema.fields
    requires Settled(spec, schema, left) && left <= more
    ensures Settled(spec, schema, more) && Resolve(spec, schema, more) == Resolve(spec, schema, left)
    decreases left - 1, 2, 0
  {
    var parts := Iterate(schema.fields["allOf"]);
    if parts.Some? {
      AllDepthIrrelevant(spec, parts.value, left - 1, more - 1);
    }
  }

  /** The cases of a choice and of a schema with properties or items. */
  lemma UnreferencedDepthIrrelevant(spec: Json, schema: Json, left: nat, more: nat)
    requires schema.Obj? && !Plain(schema.fields) && "$ref" !in schema.fields && "allOf" !in schema.fields
    requires Settled(spec, schema, left) && left <= more
    ensures Settled(spec, schema, more) && Resolve(spec, schema, more) == Resolve(spec, schema, left)
    decreases left - 1, 4, 0
  {
    if ChoiceKeyword(schema.fields).Some? {
      ChoiceDepthIrrelevant(spec, schema, left, more);
    } else {
      NestedDepthIrrelevant(spec, schema, left, more);
    }
  }

  lemma ChoiceDepthIrrelevant(spec: Json, schema: Json, left: nat, more: nat)
    requires schema.Obj? && !Plain(schema.fields) && "$ref" !in schema.fields && "allOf" !in schema.fields
    requires ChoiceKeyword(schema.fields).Some?
    requires Settled(spec, schema, left) && left <= more
    ensures Settled(spec, schema, more) && Resolve(spec, schema, more) == Resolve(spec, schema, left)
    decreases left - 1, 1, 0
  {
    var choice := schema.fields[ChoiceKeyword(schema.fields).value];
    if Truthy(choice) && First(choice).Some? {
      DepthIrrelevant(spec, First(choice).value, left - 1, more - 1);
    }
  }

  lemma ItemsDepthIrrelevant(spec: Json, m: Fields, left: nat, more: nat)
    requires left <= more && ("items" in m ==> Settled(spec, m["items"], left))
    ensures "items" in m ==> Settled(spec, m["items"], more)
    ensures ResolveItems(spec, m, more) == ResolveItems(spec, m, left)
    decreases left, 1, 0
  {
    if "items" in m {
      DepthIrrelevant(spec, m["items"], left, more);
    }
  }

  /** Properties first, then items. */
  function ResolveNested(spec: Json, m: Fields, left: nat): Option<Json> {
    var m1 := ResolveProperties(spec, m, left);
    if m1.None? then None else ResolveItems(spec, m1.value, left)
  }

  lemma NestedFieldsDepthIrrelevant(spec: Json, m: Fields, left: nat, more: nat)
    requires left <= more && ("items" in m ==> Settled(spec, m["items"], left))
    requires "properties" in m && m["properties"].Obj? ==>
               forall k :: k in m["properties"].fields ==> Settled(spec, m["properties"].fields[k], left)
    ensures "items" in m ==> Settled(spec, m["items"], more)
    ensures "properties" in m && m["properties"].Obj? ==>
              forall k :: k in m["properties"].fields ==> Settled(spec, m["properties"].fields[k], more)
    ensures ResolveNested(spec, m, more) == ResolveNested(spec, m, left)
    decreases left, 2, 0
  {
    PropertiesDepthIrrelevant(spec, m, left, more);
    ItemsDepthIrrelevant(spec, m, left, more);
    var m1 := ResolveProperties(spec, m, left);
    if m1.Some? {
      assert "items" in m1.value <==> "items" in m;
      ItemsDepthIrrelevant(spec, m1.value, left, more);
    }
  }

  lemma NestedDepthIrrelevant(spec: Json, schema: Json, left: nat, more: nat)
    requires schema.Obj? && !Plain(schema.fields) && "$ref" !in schema.fields && "allOf" !in schema.fields
    requires ChoiceKeyword(schema.fields).None?
    requires Settled(spec, schema, left) && left <= more
    ensures Settled(spec, schema, more) && Resolve(spec, schema, more) == Resolve(spec, schema, left)
    decreases left - 1, 3, 0
  {
    NestedFieldsDepthIrrelevant(spec, schema.fields, left - 1, more - 1);
  }

  /**
   The bounded resolution is the unbounded one: if the expansion of a schema fits in the depth limit,
   no larger limit gives another result, and the result is not a reference.
   */
  lemma BoundedResolutionIsComplete(spec: Json, schema: Json, more: nat)
    requires Settled(spec, schema, MAX_REF_DEPTH + 1) && MAX_REF_DEPTH + 1 <= more
    ensures Resolve(spec, schema, more) == ResolveSchema(spec, schema)
    ensures ResolveSchema(spec, schema).Some? && ResolveSchema(spec, schema).value.Obj? ==>
              "$ref" !in ResolveSchema(spec, schema).value.fields
  {
    DepthIrrelevant(spec, schema, MAX_REF_DEPTH + 1, more);
    SettledResultIsNoRef(spec, schema, MAX_REF_DEPTH + 1);
  }

  ghost predicate NoRef(r: Option<Json>) {
    r.Some? && r.value.Obj? ==> "$ref" !in r.value.fields
  }

  lemma MergeIsNoRef(schemas: seq<Json>)
    ensures Merge(schemas).Some? ==> "$ref" !in Merge(schemas).value
  {
  }

  lemma MergeWithOthersIsNoRef(first: Json, others: Fields)
    requires NoRef(Some(first))
    ensures NoRef(MergeWithOthers(first, others))
  {
    MergeIsNoRef([first, Obj(others)]);
  }

  lemma NestedResultIsNoRef(spec: Json, m: Fields, left: nat)
    requires "$ref" !in m
    ensures ResolveProperties(spec, m, left).Some? ==> "$ref" !in ResolveProperties(spec, m, left).value
    ensures NoRef(ResolveItems(spec, m, left))
  {
    assert "properties" != "$ref" && "items" != "$ref";
  }

  lemma AllOfResultIsNoRef(spec: Json, schema: Json, left: nat)
    requires schema.Obj? && left > 0 && "$ref" !in schema.fields && "allOf" in schema.fields
    ensures NoRef(Resolve(spec, schema, left))
  {
    var m := schema.fields;
    var parts := Iterate(m["allOf"]);
    if parts.Some? && ResolveAll(spec, parts.value, left - 1).Some? {
      var all := ResolveAll(spec, parts.value, left - 1).value;
      MergeIsNoRef(all);
      if Merge(all).Some? {
        MergeWithOthersIsNoRef(Obj(Merge(all).value), m - {"allOf"});
      }
    }
  }

  lemma {:induction false} SettledResultIsNoRef(spec: Json, schema: Json, left: nat)
    requires Settled(spec, schema, left)
    ensures NoRef(Resolve(spec, schema, left))
    decreases left, 1
  {
    if schema.Obj? && left > 0 {
      var m := schema.fields;
      if "$ref" in m {
        RefResultIsNoRef(spec, schema, left);
      } else if "allOf" in m {
        AllOfResultIsNoRef(spec, schema, left);
      } else if ChoiceKeyword(m).Some? {
        ChoiceResultIsNoRef(spec, schema, left);
      } else {
        NestedResultIsNoRef(spec, m, left - 1);
        if ResolveProperties(spec, m, left - 1).Some? {
          NestedResultIsNoRef(spec, ResolveProperties(spec, m, left - 1).value, left - 1);
        }
      }
    }
  }

  lemma RefResultIsNoRef(spec: Json, schema: Json, left: nat)
    requires Settled(spec, schema, left) && schema.Obj? && left > 0 && "$ref" in schema.fields
    ensures NoRef(Resolve(spec, schema, left))
    decreases left, 0
  {
    var m := schema.fields;
    var r := ResolveRef(spec, m["$ref"], left);
    ResolvedRefIsNoRef(spec, m["$ref"], left);
    if r.Some? {
      if m - {"$ref"} == map[] {
        SettledResultIsNoRef(spec, Obj(r.value), left - 1);
      } else {
        MergeWithOthersIsNoRef(Obj(r.value), m - {"$ref"});
      }
    }
  }

  lemma ChoiceResultIsNoRef(spec: Json, schema: Json, left: nat)
    requires Settled(spec, schema, left) && schema.Obj? && left > 0
    requires "$ref" !in schema.fields && "allOf" !in schema.fields && ChoiceKeyword(schema.fields).Some?
    ensures NoRef(Resolve(spec, schema, left))
    decreases left, 0
  {
    var m := schema.fields;
    var keyword := ChoiceKeyword(m).value;
    if Truthy(m[keyword]) && First(m[keyword]).Some? {
      var first := First(m[keyword]).value;
      SettledResultIsNoRef(spec, first, left - 1);
      if Resolve(spec, first, left - 1).Some? {
        MergeWithOthersIsNoRef(Resolve(spec, first, left - 1).value, m - {keyword});
      }
    }
  }

  // ---- what a merge is ----

  lemma {:induction false} MergeFromAppend(m: Merged, xs: seq<Json>, ys: seq<Json>)
    ensures MergeFrom(m, xs + ys) ==
            (var first := MergeFrom(m, xs); if first.None? then None else MergeFrom(first.value, ys))
    decreases |xs|
  {
    if xs == [] {
      assert xs + ys == ys;
    } else {
      assert (xs + ys)[1..] == xs[1..] + ys;
      if Mergeable(xs[0]) {
        MergeFromAppend(MergeOne(m, xs[0]), xs[1..], ys);
      }
    }
  }

  ghost predicate NoDuplicates(s: seq<Json>) {
    forall i, j :: 0 <= i < j < |s| ==> s[i] != s[j]
  }

  lemma {:induction false} AddRequiredKeepsDistinct(required: seq<Json>, names: seq<Json>)
    requires NoDuplicates(required)
    ensures NoDuplicates(AddRequired(required, names))
    decreases |names|
  {
    if names != [] {
      AddRequiredKeepsDistinct(if names[0] in required then required else required + [names[0]], names[1..]);
    }
  }

  /** Names already distinct and absent are simply appended. */
  lemma {:induction false} AddDistinct(required: seq<Json>, names: seq<Json>)
    requires NoDuplicates(required + names)
    ensures AddRequired(required, names) == required + names
    decreases |names|
  {
    if names == [] {
      assert required + names == required;
    } else {
      var all := required + names;
      assert all[|required|] == names[0];
      forall i | 0 <= i < |required| ensures required[i] != names[0] {
        assert all[i] == required[i];
      }
      assert (required + [names[0]]) + names[1..] == all;
      AddDistinct(required + [names[0]], names[1..]);
    }
  }

  lemma {:induction false} MergedNamesDistinct(m: Merged, xs: seq<Json>)
    requires NoDuplicates(m.required)
    ensures MergeFrom(m, xs).Some? ==> NoDuplicates(MergeFrom(m, xs).value.required)
    decreases |xs|
  {
    if xs != [] && Mergeable(xs[0]) {
      AddRequiredKeepsDistinct(m.required, Required(xs[0]));
      MergedNamesDistinct(MergeOne(m, xs[0]), xs[1..]);
    }
  }

  lemma MergedFields(m: Merged)
    ensures Mergeable(Obj(m.ToFields()))
    ensures m.ToFields().Keys == {"type", "properties"} + (if m.required == [] then {} else {"required"})
                                 + (if m.description.Some? then {"description"} else {})
    ensures Properties(Obj(m.ToFields())) == m.properties && Required(Obj(m.ToFields())) == m.required
    ensures "type" in m.ToFields() && m.ToFields()["type"] == m.type_
    ensures ("description" in m.ToFields()) == m.description.Some?
    ensures m.description.Some? ==> m.ToFields()["description"] == m.description.value
  {
  }

  lemma MergeOfMerged(m: Merged, fields: Fields)
    requires NoDuplicates(m.required) && fields == m.ToFields()
    ensures Mergeable(Obj(fields)) && MergeOne(NOTHING_MERGED, Obj(fields)) == m
  {
    MergedFields(m);
    assert [] + m.required == m.required;
    AddDistinct([], m.required);
    assert map[] + m.properties == m.properties;
  }

  /** Merging a merged schema first is merging its parts first. */
  lemma MergeFlattens(xs: seq<Json>, ys: seq<Json>)
    ensures Merge(xs).None? ==> Merge(xs + ys).None?
    ensures Merge(xs).Some? ==> Merge([Obj(Merge(xs).value)] + ys) == Merge(xs + ys)
  {
    MergeFromAppend(NOTHING_MERGED, xs, ys);
    if Merge(xs).Some? {
      var m := MergeFrom(NOTHING_MERGED, xs).value;
      MergedNamesDistinct(NOTHING_MERGED, xs);
      MergeOfMerged(m, m.ToFields());
      assert ([Obj(m.ToFields())] + ys)[1..] == ys;
    }
  }

  /** The last schema of the list that has the property decides it. */
  ghost function LastProperty(schemas: seq<Json>, name: string): Option<Json>
    requires forall x :: x in schemas ==> Mergeable(x)
    decreases |schemas|
  {
    if schemas == [] then None
    else
      var last := schemas[|schemas| - 1];
      if name in Properties(last) then Some(Properties(last)[name])
      else LastProperty(schemas[..|schemas| - 1], name)
  }

  ghost function LastField(schemas: seq<Json>, key: string): Option<Json>
    decreases |schemas|
  {
    if schemas == [] then None
    else
      var last := schemas[|schemas| - 1];
      if last.Obj? && key in last.fields then Some(last.fields[key])
      else LastField(schemas[..|schemas| - 1], key)
  }

  ghost function AllRequired(schemas: seq<Json>): seq<Json>
    requires forall x :: x in schemas ==> Mergeable(x)
    decreases |schemas|
  {
    if schemas == [] then [] else AllRequired(schemas[..|schemas| - 1]) + Required(schemas[|schemas| - 1])
  }

  /** The first occurrences, in order. */
  ghost function FirstOccurrences(s: seq<Json>): seq<Json> {
    if s == [] then []
    else if s[|s| - 1] in s[..|s| - 1] then FirstOccurrences(s[..|s| - 1])
    else FirstOccurrences(s[..|s| - 1]) + [s[|s| - 1]]
  }

  lemma {:induction false} FirstOccurrencesHasAll(s: seq<Json>, x: Json)
    ensures x in FirstOccurrences(s) <==> x in s
  {
    if s != [] {
      FirstOccurrencesHasAll(s[..|s| - 1], x);
      assert s == s[..|s| - 1] + [s[|s| - 1]];
    }
  }

  lemma {:induction false} AddRequiredIsFirstOccurrences(seen: seq<Json>, names: seq<Json>)
    ensures AddRequired(FirstOccurrences(seen), names) == FirstOccurrences(seen + names)
    decreases |names|
  {
    if names == [] {
      assert seen + names == seen;
    } else {
      var seen' := seen + [names[0]];
      assert seen + names == seen' + names[1..];
      assert seen'[..|seen'| - 1] == seen;
      FirstOccurrencesHasAll(seen, names[0]);
      AddRequiredIsFirstOccurrences(seen', names[1..]);
    }
  }

  /** The last schema of a list is merged into what the others gave. */
  lemma MergeLast(init: seq<Json>, last: Json)
    requires MergeFrom(NOTHING_MERGED, init).Some? && Mergeable(last)
    ensures MergeFrom(NOTHING_MERGED, init + [last])
         == Some(MergeOne(MergeFrom(NOTHING_MERGED, init).value, last))
  {
    MergeFromAppend(NOTHING_MERGED, init, [last]);
    assert [last][1..] == [];
  }

  lemma {:induction false} MergedRequired(schemas: seq<Json>)
    requires forall x :: x in schemas ==> Mergeable(x)
    ensures var r := MergeFrom(NOTHING_MERGED, schemas);
            r.Some? && r.value.required == FirstOccurrences(AllRequired(schemas))
    decreases |schemas|
  {
    if schemas != [] {
      var init, last := schemas[..|schemas| - 1], schemas[|schemas| - 1];
      assert last in schemas && schemas == init + [last];
      MergedRequired(init);
      MergeLast(init, last);
      AddRequiredIsFirstOccurrences(AllRequired(init), Required(last));
      EmptyUnit(AllRequired(init));
    }
  }

  /** Merging raises exactly for an object whose properties are no object or whose required names are no array. */
  lemma {:induction false} MergeRaisesIff(m: Merged, schemas: seq<Json>)
    ensures MergeFrom(m, schemas).None? <==> exists x :: x in schemas && Unmergeable(x)
    ensures MergeFrom(NOTHING_MERGED, schemas).None? <==> Merge(schemas).None?
    ensures Merge(schemas).Some? ==> Merge(schemas).value == MergeFrom(NOTHING_MERGED, schemas).value.ToFields()
    decreases |schemas|
  {
    if schemas != [] {
      assert schemas[0] in schemas && schemas == [schemas[0]] + schemas[1..];
      if Mergeable(schemas[0]) {
        MergeRaisesIff(MergeOne(m, schemas[0]), schemas[1..]);
      }
    }
  }

  ghost predicate Unmergeable(x: Json) {
    && x.Obj?
    && (|| ("properties" in x.fields && !x.fields["properties"].Obj?)
        || ("required" in x.fields && !x.fields["required"].Arr?))
  }

  lemma {:induction false} MergedScalars(schemas: seq<Json>)
    requires forall x :: x in schemas ==> Mergeable(x)
    ensures var r := MergeFrom(NOTHING_MERGED, schemas);
            && r.Some?
            && r.value.type_ ==
               (if LastField(schemas, "type").Some? then LastField(schemas, "type").value else Str("object"))
            && r.value.description == LastField(schemas, "description")
    decreases |schemas|
  {
    if schemas != [] {
      var init, last := schemas[..|schemas| - 1], schemas[|schemas| - 1];
      assert last in schemas && schemas == init + [last];
      MergedScalars(init);
      MergeLast(init, last);
    }
  }

  lemma {:induction false} MergedProperty(schemas: seq<Json>, name: string)
    requires forall x :: x in schemas ==> Mergeable(x)
    ensures var r := MergeFrom(NOTHING_MERGED, schemas);
            && r.Some?
            && (name in r.value.properties <==> LastProperty(schemas, name).Some?)
            && (name in r.value.properties ==> r.value.properties[name] == LastProperty(schemas, name).value)
    decreases |schemas|
  {
    if schemas != [] {
      var init, last := schemas[..|schemas| - 1], schemas[|schemas| - 1];
      assert last in schemas && schemas == init + [last];
      MergedProperty(init, name);
      MergeLast(init, last);
    }
  }

  /**
   Merging as a definition: the last `type` and `description` of the list, the right-biased union of
   the properties, and the first occurrences of the required names, left out when there are none.
   */
  lemma MergeMeaning(schemas: seq<Json>, name: string)
    requires forall x :: x in schemas ==> Mergeable(x)
    ensures var r := MergeFrom(NOTHING_MERGED, schemas);
            && r.Some?
            && r.value.type_ ==
               (if LastField(schemas, "type").Some? then LastField(schemas, "type").value else Str("object"))
            && r.value.description == LastField(schemas, "description")
            && (name in r.value.properties <==> LastProperty(schemas, name).Some?)
            && (name in r.value.properties ==> r.value.properties[name] == LastProperty(schemas, name).value)
            && r.value.required == FirstOccurrences(AllRequired(schemas))
  {
    MergedRequired(schemas);
    MergedScalars(schemas);
    MergedProperty(schemas, name);
  }
}
