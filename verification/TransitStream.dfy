/** A stream as a whole: its metadata is flattened, its dependencies are extracted, and both buffers are parsed. */
module TransitStream {
  import opened Basics
  import opened TransitQueue
  import opened TransitParser
  import opened TransitEvents
  import opened TransitLayout
  import opened TransitDependencies
  import opened TransitRoundTrip

  /** What reflect_contained() says of a queue, the sizes that its types have in the process, and where a StringId keeps
      its length. */
  datatype QueueTypes = QueueTypes(sizes: Sizes, reflected: seq<Reflected>, stringId: Udt, lenOffset: nat)

  /** What the process knows: the types of the queue, and StringId if one of them has a member of that type. */
  function Declared(q: QueueTypes): Schema {
    var secondary := AllSecondary(q.reflected);
    var inner := if "StringId" in secondary then [secondary["StringId"]] else [];
    Schema(q.sizes, Primary(q.reflected) + inner, q.stringId, q.lenOffset)
  }

  /** What a reader knows, who has the flattened metadata. */
  function Read(q: QueueTypes, flat: seq<Udt>): Schema {
    Declared(q).(udts := flat)
  }

  /** reflect_contained() has one type for each of the queue, with its size. */
  predicate Reflects(q: QueueTypes) {
    |q.sizes| == |q.reflected| && Describes(Primary(q.reflected), q.sizes)
  }

  // ---------------------------------------------------------------------------
  // The reader knows as much as the process
  // ---------------------------------------------------------------------------

  /** The type that a name stands for in a list of types. */
  function Named(udts: seq<Udt>, name: string): Option<Udt> {
    match Position(udts, name) case None => None case Some(i) => Some(udts[i])
  }

  lemma {:induction false} NamedInJoin(a: seq<Udt>, b: seq<Udt>, name: string)
    ensures Named(a + b, name) == if Named(a, name).Some? then Named(a, name) else Named(b, name)
    decreases |a|
  {
    if a == [] {
      assert a + b == b;
    } else {
      assert (a + b)[0] == a[0] && (a + b)[1..] == a[1..] + b;
      NamedInJoin(a[1..], b, name);
    }
  }

  lemma {:induction false} NamedIsThere(udts: seq<Udt>, name: string)
    ensures Named(udts, name).Some? ==> Named(udts, name).value in udts && Named(udts, name).value.name == name
    ensures Named(udts, name).None? ==> forall udt :: udt in udts ==> udt.name != name
    decreases |udts|
  {
    if udts != [] {
      NamedIsThere(udts[1..], name);
      assert udts[0] in udts && forall udt :: udt in udts <==> udt == udts[0] || udt in udts[1..];
    }
  }

  /** Flattened metadata gives a name that the queue's own types do not have to the type that the map has for it. */
  lemma SameStringId(q: QueueTypes, flat: seq<Udt>)
    requires Flattened(q.reflected, flat)
    ensures KnowsStringId(Declared(q)) <==> KnowsStringId(Read(q, flat))
  {
    var own, n, name := Primary(q.reflected), |q.reflected|, "StringId";
    var secondary, mine, theirs := AllSecondary(q.reflected), Declared(q).udts[n..], flat[n..];
    SecondaryNames(map[], q.reflected);
    assert Declared(q).udts == own + mine && flat == own + theirs;
    NamedInJoin(own, mine, name);
    NamedInJoin(own, theirs, name);
    NamedIsThere(theirs, name);
    assert name in secondary ==> mine == [secondary[name]] && secondary[name] in theirs;
    assert name !in secondary ==> mine == [];
    assert Named(mine, name) == Named(theirs, name);
    KnowsByName(Declared(q));
    KnowsByName(Read(q, flat));
  }

  lemma KnowsByName(t: Schema)
    ensures KnowsStringId(t) <==> StringIdOk(t) && Named(t.udts, "StringId") == Some(t.stringId)
  {
  }

  /** The two schemas agree on the types of the queue and on StringId. */
  ghost predicate Agree(t: Schema, t': Schema) {
    && t.sizes == t'.sizes && t.stringId == t'.stringId && t.lenOffset == t'.lenOffset
    && |t.sizes| <= |t.udts| && |t.sizes| <= |t'.udts| && t.udts[..|t.sizes|] == t'.udts[..|t.sizes|]
    && (KnowsStringId(t) <==> KnowsStringId(t'))
  }

  lemma ReaderAgrees(q: QueueTypes, flat: seq<Udt>)
    requires Reflects(q) && Flattened(q.reflected, flat)
    ensures Agree(Declared(q), Read(q, flat)) && Describes(flat, q.sizes)
  {
    SameStringId(q, flat);
    var n := |q.reflected|;
    assert flat[..n] == Declared(q).udts[..n] == Primary(q.reflected);
    forall i | 0 <= i < n
      ensures flat[i] == Primary(q.reflected)[i]
    {
      assert flat[..n][i] == flat[i];
    }
  }

  lemma SameType(t: Schema, t': Schema, i: nat)
    requires Agree(t, t') && i < |t.sizes|
    ensures t.udts[i] == t'.udts[i]
  {
    assert t.udts[..|t.sizes|][i] == t'.udts[..|t.sizes|][i];
  }

  lemma SameField(t: Schema, t': Schema, raw: seq<Byte>, m: Member, f: Field)
    requires Agree(t, t')
    ensures HoldsField(t, raw, m, f) <==> HoldsField(t', raw, m, f)
  {
    hide IsNumber;
  }

  lemma SamePod(t: Schema, t': Schema, raw: seq<Byte>, udt: Udt, fields: seq<Field>)
    requires Agree(t, t')
    ensures HoldsPod(t, raw, udt, fields) <==> HoldsPod(t', raw, udt, fields)
  {
    hide HoldsField, Agree;
    forall i | 0 <= i < |fields| && |fields| == |udt.members|
      ensures HoldsField(t, raw, udt.members[i], fields[i]) <==> HoldsField(t', raw, udt.members[i], fields[i])
    {
      SameField(t, t', raw, udt.members[i], fields[i]);
    }
  }

  lemma SameEvents(t: Schema, t': Schema, es: seq<Event>)
    requires Agree(t, t') && EventsOk(t, es)
    ensures EventsOk(t', es) && (NoFakeCustom(t, es) <==> NoFakeCustom(t', es))
  {
    forall e | e in es
      ensures EventOk(t', e) && t.udts[e.typeIndex] == t'.udts[e.typeIndex]
    {
      assert EventOk(t, e);
      SameType(t, t', e.typeIndex as nat);
      if e.Pod? {
        SamePod(t, t', e.raw, t.udts[e.typeIndex], e.fields);
      }
    }
  }

  lemma {:induction false} SameValues(t: Schema, t': Schema, es: seq<Event>, deps: map<nat, Value>)
    requires Agree(t, t') && EventsOk(t, es) && EventsOk(t', es)
    ensures ExpectedValues(t, es, deps) == ExpectedValues(t', es, deps)
    decreases |es|
  {
    if es != [] {
      assert EventOk(t, es[0]) && EventOk(t', es[0]);
      SameType(t, t', es[0].typeIndex as nat);
      SameValues(t, t', es[1..], deps);
    }
  }

  lemma SameItems(d: DepTypes, t': Schema, w: World, images: Images)
    requires Agree(d.t, t') && DepTypesOk(d, w, images) && Describes(t'.udts, t'.sizes)
    ensures DepTypesOk(d.(t := t'), w, images)
    ensures forall key :: key in w ==> Resolve(d, w, images, key) == Resolve(d.(t := t'), w, images, key)
  {
    SameType(d.t, t', d.textIndex as nat);
    forall key | key in w
      ensures ItemOk(d.(t := t'), images, key, w[key])
      ensures w[key].Metadata? ==> UdtOf(d, w[key]) == UdtOf(d.(t := t'), w[key])
    {
      assert ItemOk(d, images, key, w[key]);
      if w[key].Metadata? {
        SameType(d.t, t', d.recordIndex(w[key].kind) as nat);
        SamePod(d.t, t', images(key), UdtOf(d, w[key]), RecordFields(key, w[key]));
      }
    }
  }

  // ---------------------------------------------------------------------------
  // From the process to the reader
  // ---------------------------------------------------------------------------

  /** The types of the dependencies queue as the process knows them. */
  function DeclaredDeps(q: QueueTypes, textIndex: Byte, recordIndex: nat -> Byte): DepTypes {
    DepTypes(Declared(q), textIndex, recordIndex)
  }

  /** The values of the events, with every reference resolved to the item that it names. */
  ghost function Intended(t: Schema, d: DepTypes, w: World, images: Images, es: seq<Event>): seq<Value>
    requires EventsOk(t, es) && WorldOk(w) && DepTypesOk(d, w, images) && KnownReferences(w, es)
  {
    ExpectedValues(t, es, map key | key in w :: Resolve(d, w, images, key))
  }

  lemma {:induction false} ExpectedValuesAt(t: Schema, es: seq<Event>, deps: map<nat, Value>, k: nat)
    requires EventsOk(t, es) && k < |es|
    ensures EventOk(t, es[k]) && ExpectedValues(t, es, deps)[k] == ExpectedValue(t, es[k], deps)
  {
    hide EventOk, ExpectedValue;
    if k != 0 {
      ExpectedValuesAt(t, es[1..], deps, k - 1);
    }
  }

  lemma {:induction false} ReferenceOf(fields: seq<Field>, j: nat)
    requires j < |fields|
    ensures fields[j].Ref? ==> fields[j].key in References(fields)
    ensures fields[j].StrId? ==> fields[j].ptr in References(fields)
  {
    if j != 0 {
      ReferenceOf(fields[1..], j - 1);
    }
  }

  lemma {:induction false} ReferenceAmong(es: seq<Event>, k: nat, key: nat)
    requires k < |es| && key in ReferencesOf(es[k])
    ensures key in AllReferences(es)
  {
    hide ReferencesOf;
    if k != 0 {
      ReferenceAmong(es[1..], k - 1, key);
    }
  }

  /** Every field of an event that is plain old data, as the consumer should see it: a number as it is, with its sign,
      and the item that a reference names. */
  lemma IntendedField(t: Schema, d: DepTypes, w: World, images: Images, es: seq<Event>, k: nat, j: nat)
    requires EventsOk(t, es) && WorldOk(w) && DepTypesOk(d, w, images) && KnownReferences(w, es)
    requires k < |es| && es[k].Pod? && j < |es[k].fields|
    ensures var v, f := Intended(t, d, w, images, es)[k], es[k].fields[j];
      && v.Object? && |v.members| == |es[k].fields| && es[k].typeIndex as nat < |t.udts|
      && j < |t.udts[es[k].typeIndex].members| && v.members[j].0 == t.udts[es[k].typeIndex].members[j].name
      && match f
      case NumU8(n) => v.members[j].1 == U8(n)
      case NumU32(n) => v.members[j].1 == U32(n)
      case NumU64(n) => v.members[j].1 == U64(n)
      case NumI64(i) => v.members[j].1 == I64(i)
      case NumF64(bits) => v.members[j].1 == F64(bits)
      case Ref(key) => key in w && v.members[j].1 == Resolve(d, w, images, key)
      case StrId(ptr, _) => ptr in w && v.members[j].1 == Resolve(d, w, images, ptr)
  {
    hide Resolve, HoldsField, DepTypesOk, WorldOk;
    var deps, fields := map key | key in w :: Resolve(d, w, images, key), es[k].fields;
    ExpectedValuesAt(t, es, deps, k);
    ExpectedMembersAt(t.udts[es[k].typeIndex].members, fields, deps, j);
    ReferenceOf(fields, j);
    if fields[j].Ref? {
      ReferenceAmong(es, k, fields[j].key);
    } else if fields[j].StrId? {
      ReferenceAmong(es, k, fields[j].ptr);
    }
  }

  /** make_stream_info and extract() in the process, read_dependencies and parse_object_buffer in the reader: the
      consumer gets one value per event, in order, with the event's fields and every reference resolved, as long as it
      asks for more. */
  method Transmit(types: QueueTypes, depTypes: QueueTypes, textIndex: Byte, recordIndex: nat -> Byte, w: World,
      images: Images,
                  q: Queue, ghost es: seq<Event>, fun: Consumer)
    returns (r: Option<bool>, seen: seq<Value>)
    requires Reflects(types) && Reflects(depTypes)
    requires EventsOk(Declared(types), es) && NoFakeCustom(Declared(types), es)
    requires q.Valid() && q.types == types.sizes && q.pushed == ObjsOf(es)
    requires WorldOk(w) && DepTypesOk(DeclaredDeps(depTypes, textIndex, recordIndex), w, images)
      && KnownReferences(w, es)
    ensures var all := Intended(Declared(types), DeclaredDeps(depTypes, textIndex, recordIndex), w, images, es);
            && |all| == |es| && seen <= all
            && (Wanted(fun, all) ==> r == Some(true) && seen == all)
            && (!Wanted(fun, all) ==>
                  r != Some(true) && seen != [] && fun(seen) == r && Wanted(fun, seen[..|seen| - 1]))
  {
    var flat := FlattenMetadata(types.reflected);
    var depFlat := FlattenMetadata(depTypes.reflected);
    var d := DeclaredDeps(depTypes, textIndex, recordIndex);
    var extractor := new Extractor(d, w, images);
    extractor.Extract(Declared(types), q, es);
    var deps := ReadDependencies(depFlat, extractor.deps.buffer);
    ReadersSee(types, flat, depTypes, depFlat, d, w, images, es);
    r, seen := ParseObjectBuffer(deps.value, flat, q.buffer, fun);
  }

  /** What the reader's functions make of the two buffers. */
  lemma ReadersSee(types: QueueTypes, flat: seq<Udt>, depTypes: QueueTypes, depFlat: seq<Udt>, d: DepTypes, w: World,
                   images: Images, es: seq<Event>)
    requires Reflects(types) && Reflects(depTypes) && Flattened(types.reflected, flat)
      && Flattened(depTypes.reflected, depFlat)
    requires EventsOk(Declared(types), es) && d.t == Declared(depTypes)
    requires WorldOk(w) && DepTypesOk(d, w, images) && KnownReferences(w, es)
    ensures var keys := RecordEvents(w, [], es);
            && (forall key :: key in keys ==> key in w)
            && var deps := ReadDependenciesFrom(depFlat, map[], QueueBytes(d.t.sizes, DepObjs(d, w, images, keys)), 0);
               && deps.Some?
               && ParseObjects(flat, deps.value, QueueBytes(types.sizes, ObjsOf(es)), 0)
                  == Some(Intended(Declared(types), d, w, images, es))
  {
    var t, t' := Declared(types), Read(types, flat);
    var d' := d.(t := Read(depTypes, depFlat));
    var keys := RecordEvents(w, [], es);
    ReaderAgrees(types, flat);
    ReaderAgrees(depTypes, depFlat);
    assert t'.sizes == types.sizes && t'.udts == flat && d'.t.sizes == d.t.sizes && d'.t.udts == depFlat;
    hide Agree, Flattened, Reflects, Declared, Read, EventsOk, DepTypesOk, WorldOk, KnownReferences, RecordEvents,
      DepObjs, ObjsOf, ExpectedValues, Resolve, QueueBytes, ParseObjects, ReadDependenciesFrom, Describes;
    SameEvents(t, t', es);
    SameItems(d, d'.t, w, images);
    EndToEnd(t', d', w, images, es);
    SameObjs(d, d'.t, w, images, keys);
    var deps, all := Resolved(d', w, images, keys), map key | key in w :: Resolve(d, w, images, key);
    forall key | key in AllReferences(es)
      ensures Lookup(deps, key) == Lookup(all, key)
    {
      assert key in w by { Known(w, es, key); }
    }
    SameValues(t, t', es, deps);
    ValuesAgree(t, es, deps, all);
  }

  lemma Known(w: World, es: seq<Event>, key: nat)
    requires KnownReferences(w, es) && key in AllReferences(es)
    ensures key in w
  {
  }

  lemma {:induction false} SameObjs(d: DepTypes, t': Schema, w: World, images: Images, keys: seq<nat>)
    requires forall key :: key in keys ==> key in w
    ensures DepObjs(d, w, images, keys) == DepObjs(d.(t := t'), w, images, keys)
    decreases |keys|
  {
    if keys != [] {
      SameObjs(d, t', w, images, keys[1..]);
    }
  }

  lemma ValueAgrees(t: Schema, e: Event, deps: map<nat, Value>, deps': map<nat, Value>)
    requires EventOk(t, e) && forall key :: key in ReferencesOf(e) ==> Lookup(deps, key) == Lookup(deps', key)
    ensures ExpectedValue(t, e, deps) == ExpectedValue(t, e, deps')
  {
    hide Lookup;
    match e {
      case Pod(_, _, fields) => ExpectedAgree(t.udts[e.typeIndex].members, fields, deps, deps');
      case LogString(_, desc, _, _) => assert desc in ReferencesOf(e);
      case LogStringInterop(_, _, _, _, target, _) => assert [target][1..] == [] && target.ptr in ReferencesOf(e);
    }
  }

  /** Values depend on nothing but what the events refer to. */
  lemma {:induction false} ValuesAgree(t: Schema, es: seq<Event>, deps: map<nat, Value>, deps': map<nat, Value>)
    requires EventsOk(t, es) && forall key :: key in AllReferences(es) ==> Lookup(deps, key) == Lookup(deps', key)
    ensures ExpectedValues(t, es, deps) == ExpectedValues(t, es, deps')
    decreases |es|
  {
    if es != [] {
      hide Lookup, EventOk, ExpectedValue;
      assert EventOk(t, es[0]) && forall key :: key in ReferencesOf(es[0]) ==> key in AllReferences(es);
      ValueAgrees(t, es[0], deps, deps');
      ValuesAgree(t, es[1..], deps, deps');
    }
  }
}
