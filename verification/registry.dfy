/** The converter registry built by the writer's constructor and the per-record
    converter resolution and document conversion. */
module ConverterRegistry {
  import opened Records

  /** The converters in registration order and the map from a schema name to
      the position of the converter registered under it. */
  datatype Registry = Registry(converters: seq<Converter>, mapping: map<string, nat>)
  {
    /** Every registered name points at one of the converters. */
    ghost predicate Valid() {
      forall name :: name in mapping ==> mapping[name] < |converters|
    }
  }

  /** Converter `j` of `cs` advertises `name`. */
  ghost predicate Advertises(cs: seq<Converter>, j: int, name: string) {
    0 <= j < |cs| && name in cs[j].supportedSchemaNames
  }

  /** Puts the names of one converter, in order, into the map. */
  function Register(m: map<string, nat>, names: seq<string>, index: nat): (r: map<string, nat>)
    ensures forall name :: name in r <==> name in m || name in names
    ensures forall name :: name in r ==> r[name] == (if name in names then index else m[name])
    decreases |names|
  {
    if names == [] then m else Register(m[names[0] := index], names[1..], index)
  }

  /** The registry map made from a converter list: every advertised name is a
      key, it points at a converter advertising it, and on a name advertised
      twice the later converter wins. */
  function BuildMapping(cs: seq<Converter>): (m: map<string, nat>)
    ensures forall name :: name in m <==> exists j :: Advertises(cs, j, name)
    ensures forall name :: name in m ==>
              && Advertises(cs, m[name], name)
              && forall j :: m[name] < j < |cs| ==> !Advertises(cs, j, name)
    decreases |cs|
  {
    if cs == [] then map[]
    else
      var last := |cs| - 1;
      var m := Register(BuildMapping(cs[..last]), cs[last].supportedSchemaNames, last);
      RegisterLastConverter(cs, cs[..last], BuildMapping(cs[..last]), m);
      m
  }

  /** Registering the last converter of `cs` on top of the map of the others
      keeps the registry properties. */
  lemma RegisterLastConverter(cs: seq<Converter>, front: seq<Converter>, prev: map<string, nat>, m: map<string, nat>)
    requires |cs| > 0 && front == cs[..|cs| - 1]
    requires forall name :: name in prev <==> exists j :: Advertises(front, j, name)
    requires forall name :: name in prev ==>
               && Advertises(front, prev[name], name)
               && forall j :: prev[name] < j < |front| ==> !Advertises(front, j, name)
    requires m == Register(prev, cs[|cs| - 1].supportedSchemaNames, |cs| - 1)
    ensures forall name :: name in m <==> exists j :: Advertises(cs, j, name)
    ensures forall name :: name in m ==>
              && Advertises(cs, m[name], name)
              && forall j :: m[name] < j < |cs| ==> !Advertises(cs, j, name)
  {
    var last := |cs| - 1;
    assert forall j, name :: 0 <= j < last ==> (Advertises(front, j, name) <==> Advertises(cs, j, name));
    forall name | name in m
      ensures Advertises(cs, m[name], name)
      ensures forall j :: m[name] < j < |cs| ==> !Advertises(cs, j, name)
    {
      if name !in cs[last].supportedSchemaNames {
        assert name in prev && m[name] == prev[name];
        assert !Advertises(cs, last, name);
      }
    }
    forall name | name in m
      ensures exists j :: Advertises(cs, j, name)
    {
      if name in cs[last].supportedSchemaNames {
        assert Advertises(cs, last, name);
      } else {
        assert Advertises(cs, prev[name], name);
      }
    }
    forall name | exists j :: Advertises(cs, j, name)
      ensures name in m
    {
      var j :| Advertises(cs, j, name);
      if j < last {
        assert Advertises(front, j, name);
      }
    }
  }

  /** Registering one more name is one more map update. */
  lemma RegisterSnoc(m: map<string, nat>, names: seq<string>, x: string, index: nat)
    ensures Register(m, names + [x], index) == Register(m, names, index)[x := index]
  {
    var a := Register(m, names + [x], index);
    var b := Register(m, names, index)[x := index];
    assert forall name :: name in names + [x] <==> name in names || name == x;
    assert a.Keys == b.Keys;
  }

  /** The constructor's nested registration loop. */
  method BuildRegistry(converters: seq<Converter>) returns (reg: Registry)
    ensures reg.converters == converters
    ensures reg.mapping == BuildMapping(converters)
    ensures reg.Valid()
  {
    var mapping: map<string, nat> := map[];
    var i := 0;
    while i < |converters|
      invariant 0 <= i <= |converters|
      invariant mapping == BuildMapping(converters[..i])
    {
      var names := converters[i].supportedSchemaNames;
      var k := 0;
      while k < |names|
        invariant 0 <= k <= |names|
        invariant mapping == Register(BuildMapping(converters[..i]), names[..k], i)
      {
        assert names[..k + 1] == names[..k] + [names[k]];
        RegisterSnoc(BuildMapping(converters[..i]), names[..k], names[k], i);
        mapping := mapping[names[k] := i];
        k := k + 1;
      }
      assert names[..k] == names;
      assert converters[..i + 1][..i] == converters[..i];
      assert converters[..i + 1][i] == converters[i];
      assert mapping == BuildMapping(converters[..i + 1]);
      i := i + 1;
    }
    assert converters[..i] == converters;
    reg := Registry(converters, mapping);
  }

  /** The composite name tried first for a record with a key schema. */
  function CompositeName(key: Schema, value: Schema): string {
    NameText(key.name) + "-" + NameText(value.name)
  }

  /** The names a record with value schema `vs` is looked up under, in the
      order they are tried. A null value-schema name never matches. */
  function Candidates(keySchema: Option<Schema>, vs: Schema): seq<string> {
    (if keySchema.Some? then [CompositeName(keySchema.value, vs)] else [])
    + (if vs.name.Some? then [vs.name.value] else [])
  }

  /** The first of `names` that is registered, if any. */
  function FirstRegistered(mapping: map<string, nat>, names: seq<string>): (r: Option<string>)
    ensures r.Some? ==> r.value in mapping && r.value in names
    ensures r.None? <==> forall i :: 0 <= i < |names| ==> names[i] !in mapping
    decreases |names|
  {
    if names == [] then None
    else if names[0] in mapping then Some(names[0])
    else FirstRegistered(mapping, names[1..])
  }

  /** getConverter: the composite name first when there is a key schema,
      then the value-schema name, otherwise an unsupported-schema fault.
      Reading the name of an absent value schema is a null dereference. */
  function Resolve(reg: Registry, r: Record): (res: Result<nat>)
    ensures r.valueSchema.None? ==> res == Err(NullSchema)
    ensures r.valueSchema.Some? ==>
              (res.Ok? <==> exists name :: name in Candidates(r.keySchema, r.valueSchema.value) && name in reg.mapping)
    ensures res.Ok? ==>
              exists name :: name in Candidates(r.keySchema, r.valueSchema.value) && name in reg.mapping
                             && reg.mapping[name] == res.value
    ensures res.Err? && r.valueSchema.Some? ==> res.fault == UnsupportedSchema(r.valueSchema)
  {
    match r.valueSchema
    case None => Err(NullSchema)
    case Some(vs) =>
      if r.keySchema.Some? && CompositeName(r.keySchema.value, vs) in reg.mapping then
        Ok(reg.mapping[CompositeName(r.keySchema.value, vs)])
      else if vs.name.Some? && vs.name.value in reg.mapping then
        Ok(reg.mapping[vs.name.value])
      else
        Err(UnsupportedSchema(r.valueSchema))
  }

  /** Resolution is "the first registered candidate name": the composite name
      wins over the value-schema name, and nothing registered means
      unsupported. */
  lemma ResolvePrecedence(reg: Registry, r: Record)
    requires r.valueSchema.Some?
    ensures Resolve(reg, r) ==
              match FirstRegistered(reg.mapping, Candidates(r.keySchema, r.valueSchema.value))
              case Some(name) => Ok(reg.mapping[name])
              case None => Err(UnsupportedSchema(r.valueSchema))
  {
    var vs := r.valueSchema.value;
    var cands := Candidates(r.keySchema, vs);
    if r.keySchema.Some? {
      assert cands[0] == CompositeName(r.keySchema.value, vs);
      if cands[0] !in reg.mapping {
        assert cands[1..] == (if vs.name.Some? then [vs.name.value] else []);
      }
    }
  }

  /** getDoc: resolve a converter, then convert. A conversion that throws is
      reported as unconvertible, the same non-retried exception type as an
      unsupported schema. */
  function GetDoc(reg: Registry, r: Record): (res: Result<Document>)
    requires reg.Valid()
    ensures res.Ok? <==> Resolve(reg, r).Ok? && reg.converters[Resolve(reg, r).value].convert(r).Some?
    ensures res.Ok? ==> reg.converters[Resolve(reg, r).value].convert(r) == Some(res.value)
    ensures res.Err? ==> (res.fault.Retryable() <==> r.valueSchema.None?)
    ensures res.Err? && Resolve(reg, r).Err? ==> res.fault == Resolve(reg, r).fault
  {
    match Resolve(reg, r)
    case Err(f) => Err(f)
    case Ok(i) =>
      match reg.converters[i].convert(r)
      case Some(doc) => Ok(doc)
      case None => Err(Unconvertible)
  }
}
