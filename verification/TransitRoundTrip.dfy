/** From a queue of events, through its extracted dependencies, to the objects that the analytics parser hands out. */
module TransitRoundTrip {
  import opened Basics
  import opened Bytes
  import opened TransitQueue
  import opened TransitParser
  import opened TransitEvents
  import opened TransitDependencies

  // ---------------------------------------------------------------------------
  // The dependencies queue
  // ---------------------------------------------------------------------------

  /** The types of a dependencies queue: the index of StaticString and of each kind of record. */
  datatype DepTypes = DepTypes(t: Schema, textIndex: Byte, recordIndex: nat -> Byte)

  /** The memory that each record has when it is pushed. */
  type Images = nat -> seq<Byte>

  function TextRefs(ptrs: seq<nat>): seq<Field> {
    if ptrs == [] then [] else [Ref(ptrs[0])] + TextRefs(ptrs[1..])
  }

  /** The fields of a record: its id, its strings in declaration order, and two numbers. */
  function RecordFields(key: nat, item: Item): seq<Field>
    requires item.Metadata?
  {
    [NumU64(key)] + TextRefs(item.strings) + [NumU32(item.line), NumU32(item.extra)]
  }

  function UdtOf(d: DepTypes, item: Item): Udt
    requires item.Metadata? && d.recordIndex(item.kind) as nat < |d.t.udts|
  {
    d.t.udts[d.recordIndex(item.kind)]
  }

  /** An item can be pushed: it has a type whose metadata starts with the id, and a memory image. */
  predicate ItemOk(d: DepTypes, images: Images, key: nat, item: Item) {
    && key < 0x1_0000_0000_0000_0000
    && match item
       case StaticText(text) => 8 + |text| < 0x1_0000_0000
       case Metadata(kind, _, _, _) =>
         && d.recordIndex(kind) as nat < |d.t.sizes| <= |d.t.udts|
         && var udt := UdtOf(d, item);
            && udt.name != "StaticString" && udt.size > 0 && d.t.sizes[d.recordIndex(kind)] == Const(udt.size)
            && udt.members != [] && udt.members[0].name == "id" && udt.members[0].typeName == "u64"
            && HoldsPod(d.t, images(key), udt, RecordFields(key, item))
  }

  ghost predicate DepTypesOk(d: DepTypes, w: World, images: Images) {
    && Describes(d.t.udts, d.t.sizes)
    && d.textIndex as nat < |d.t.sizes| && d.t.sizes[d.textIndex] == Dynamic
      && d.t.udts[d.textIndex].name == "StaticString"
    && forall key :: key in w ==> ItemOk(d, images, key, w[key])
  }

  /** What is pushed for an item: the pointer and the bytes of a string, or the memory of a record. */
  function DepObj(d: DepTypes, w: World, images: Images, key: nat): Obj
    requires key in w
  {
    match w[key]
    case StaticText(text) => Obj(d.textIndex, LE(key, 8) + text)
    case Metadata(kind, _, _, _) => Obj(d.recordIndex(kind), images(key))
  }

  function DepObjs(d: DepTypes, w: World, images: Images, keys: seq<nat>): (r: seq<Obj>)
    requires forall key :: key in keys ==> key in w
    ensures |r| == |keys|
  {
    if keys == [] then [] else [DepObj(d, w, images, keys[0])] + DepObjs(d, w, images, keys[1..])
  }

  // ---------------------------------------------------------------------------
  // What the dependencies stand for
  // ---------------------------------------------------------------------------

  /** The strings of the process. */
  function Texts(w: World): map<nat, Value> {
    map key | key in w && w[key].StaticText? :: String(w[key].text)
  }

  /** The value that a reference to an item stands for: the string, or the record with its strings in place. */
  ghost function Resolve(d: DepTypes, w: World, images: Images, key: nat): Value
    requires DepTypesOk(d, w, images) && key in w
  {
    assert ItemOk(d, images, key, w[key]);
    match w[key]
    case StaticText(text) => String(text)
    case Metadata(_, _, _, _) =>
      Object(UdtOf(d, w[key]).name, ExpectedMembers(UdtOf(d, w[key]).members, RecordFields(key, w[key]), Texts(w)))
  }

  /** The dependencies that these items make up. */
  ghost function Resolved(d: DepTypes, w: World, images: Images, keys: seq<nat>): map<nat, Value>
    requires DepTypesOk(d, w, images) && forall key :: key in keys ==> key in w
  {
    map key | key in keys :: Resolve(d, w, images, key)
  }

  // ---------------------------------------------------------------------------
  // Reading dependencies back
  // ---------------------------------------------------------------------------

  lemma {:induction false} ExpectedAgree(ms: seq<Member>, fields: seq<Field>, deps: map<nat, Value>, deps': map<nat,
      Value>)
    requires |ms| == |fields|
    requires forall key :: key in References(fields) ==> Lookup(deps, key) == Lookup(deps', key)
    ensures ExpectedMembers(ms, fields, deps) == ExpectedMembers(ms, fields, deps')
    decreases |ms|
  {
    if ms != [] {
      ExpectedAgree(ms[1..], fields[1..], deps, deps');
    }
  }

  lemma {:induction false} TextRefsAre(ptrs: seq<nat>)
    ensures References(TextRefs(ptrs)) == ptrs
  {
    if ptrs != [] {
      TextRefsAre(ptrs[1..]);
      assert TextRefs(ptrs)[1..] == TextRefs(ptrs[1..]);
    }
  }

  lemma {:induction false} ReferencesAppend(a: seq<Field>, b: seq<Field>)
    ensures References(a + b) == References(a) + References(b)
    decreases |a|
  {
    if a == [] {
      assert a + b == b;
    } else {
      assert (a + b)[0] == a[0] && (a + b)[1..] == a[1..] + b;
      ReferencesAppend(a[1..], b);
    }
  }

  lemma RecordReferences(key: nat, item: Item)
    requires item.Metadata?
    ensures References(RecordFields(key, item)) == item.strings
  {
    TextRefsAre(item.strings);
    ReferencesAppend([NumU64(key)] + TextRefs(item.strings), [NumU32(item.line), NumU32(item.extra)]);
    ReferencesAppend([NumU64(key)], TextRefs(item.strings));
    assert References([NumU64(key)]) == [] by { assert [NumU64(key)][1..] == []; }
    assert References([NumU32(item.line), NumU32(item.extra)]) == [] by {
      assert [NumU32(item.line), NumU32(item.extra)][1..] == [NumU32(item.extra)];
      assert [NumU32(item.extra)][1..] == [];
    }
  }

  lemma DepPushable(d: DepTypes, w: World, images: Images, key: nat)
    requires DepTypesOk(d, w, images) && key in w
    ensures var o := DepObj(d, w, images, key);
            Pushable(d.t.sizes, o) && HasSize(d.t.sizes, o)
  {
    assert ItemOk(d, images, key, w[key]);
  }

  lemma TextParses(d: DepTypes, w: World, images: Images, deps: map<nat, Value>, buffer: seq<Byte>, offset: nat,
      key: nat)
    requires DepTypesOk(d, w, images) && IsText(w, key)
    requires At(buffer, offset, DepObj(d, w, images, key).payload)
    ensures var o := DepObj(d, w, images, key);
            ParseDependency(d.t.udts, deps, buffer, Frame(o.typeIndex, offset, |o.payload|))
              == Some(Some((key, Resolve(d, w, images, key))))
  {
    hide ParsePod;
    assert ItemOk(d, images, key, w[key]);
    PowersOf256();
    AtAppend(buffer, offset, LE(key, 8), w[key].text);
    ReadsBack(buffer, offset, key, 8);
    TailReads(buffer, offset, LE(key, 8), w[key].text);
  }

  lemma RecordParses(d: DepTypes, w: World, images: Images, deps: map<nat, Value>, buffer: seq<Byte>, offset: nat,
      key: nat)
    requires DepTypesOk(d, w, images) && IsMetadata(w, key)
    requires forall s :: s in w[key].strings ==> Lookup(deps, s) == Lookup(Texts(w), s)
    requires At(buffer, offset, DepObj(d, w, images, key).payload)
    ensures var o := DepObj(d, w, images, key);
            ParseDependency(d.t.udts, deps, buffer, Frame(o.typeIndex, offset, |o.payload|))
              == Some(Some((key, Resolve(d, w, images, key))))
  {
    hide ParsePod, Lookup, Texts;
    assert ItemOk(d, images, key, w[key]);
    var udt, fields := UdtOf(d, w[key]), RecordFields(key, w[key]);
    PodParses(d.t, deps, buffer, offset, images(key), udt, fields, Depth(d.t.udts));
    RecordReferences(key, w[key]);
    ExpectedAgree(udt.members, fields, deps, Texts(w));
    IdFirst(d, w, images, key);
  }

  lemma IdFirst(d: DepTypes, w: World, images: Images, key: nat)
    requires DepTypesOk(d, w, images) && IsMetadata(w, key)
    ensures Get(Resolve(d, w, images, key).members, "id") == Some(U64(key))
  {
    assert ItemOk(d, images, key, w[key]);
    var udt, fields := UdtOf(d, w[key]), RecordFields(key, w[key]);
    assert HoldsField(d.t, images(key), udt.members[0], fields[0]);
    assert fields[0] == NumU64(key);
  }

  lemma {:induction false} TextRefAt(ptrs: seq<nat>, i: nat)
    requires i < |ptrs|
    ensures |TextRefs(ptrs)| == |ptrs| && TextRefs(ptrs)[i] == Ref(ptrs[i])
  {
    if |ptrs| == 1 {
      assert ptrs[1..] == [];
    } else {
      TextRefAt(ptrs[1..], if i == 0 then 0 else i - 1);
    }
  }

  /** A record stands for its address, its strings in the order of its members, its line, and its last number. */
  lemma RecordIs(d: DepTypes, w: World, images: Images, key: nat, i: nat)
    requires DepTypesOk(d, w, images) && WorldOk(w) && IsMetadata(w, key)
    ensures var v, n := Resolve(d, w, images, key), |w[key].strings|;
      && v.Object? && |v.members| == n + 3 && v.members[0].1 == U64(key)
      && (i < n ==> IsText(w, w[key].strings[i]) && v.members[1 + i].1 == String(w[w[key].strings[i]].text))
      && v.members[n + 1].1 == U32(w[key].line) && v.members[n + 2].1 == U32(w[key].extra)
  {
    assert ItemOk(d, images, key, w[key]);
    var strings, ms, fields := w[key].strings, UdtOf(d, w[key]).members, RecordFields(key, w[key]);
    hide ItemOk, DepTypesOk, UdtOf;
    if strings == [] {
      assert TextRefs(strings) == [];
    } else {
      TextRefAt(strings, if i < |strings| then i else 0);
    }
    assert |ms| == |fields| == |strings| + 3;
    ExpectedMembersAt(ms, fields, Texts(w), 0);
    ExpectedMembersAt(ms, fields, Texts(w), |strings| + 1);
    ExpectedMembersAt(ms, fields, Texts(w), |strings| + 2);
    if i < |strings| {
      assert IsText(w, strings[i]) && fields[1 + i] == TextRefs(strings)[i];
      ExpectedMembersAt(ms, fields, Texts(w), 1 + i);
    }
  }

  /** Dependencies are read back one by one. */
  lemma {:induction false} DependenciesReadBack(d: DepTypes, w: World, images: Images, done: seq<nat>, rest: seq<nat>,
                                                buffer: seq<Byte>, offset: nat)
    requires WorldOk(w) && DepTypesOk(d, w, images) && WellFormed(w, done + rest)
    requires (forall key :: key in done ==> key in w) && (forall key :: key in rest ==> key in w)
    requires Remaining(d.t.sizes, DepObjs(d, w, images, rest), buffer, offset)
    ensures forall key :: key in done + rest ==> key in w
    ensures ReadDependenciesFrom(d.t.udts, Resolved(d, w, images, done), buffer, offset)
      == Some(Resolved(d, w, images, done + rest))
    decreases |rest|
  {
    hide Remaining, ReadFrame, ParseDependency, DepTypesOk, Resolve, QueueBytes, DepObj, Describes, ObjBytes;
    var objs := DepObjs(d, w, images, rest);
    RemainingEnd(d.t.sizes, objs, buffer, offset);
    if rest == [] {
      assert done + rest == done;
    } else {
      var key, o := rest[0], DepObj(d, w, images, rest[0]);
      RemainingTail(d.t.sizes, objs, buffer, offset);
      NextDependency(d, w, images, done, rest, buffer, offset);
      assert done + rest == (done + [key]) + rest[1..];
      DependenciesReadBack(d, w, images, done + [key], rest[1..], buffer, offset + |ObjBytes(d.t.sizes, o)|);
      assert Resolved(d, w, images, done)[key := Resolve(d, w, images, key)] == Resolved(d, w, images, done + [key]);
    }
  }

  lemma NextDependency(d: DepTypes, w: World, images: Images, done: seq<nat>, rest: seq<nat>, buffer: seq<Byte>,
      offset: nat)
    requires WorldOk(w) && DepTypesOk(d, w, images) && WellFormed(w, done + rest) && rest != []
    requires (forall key :: key in done ==> key in w) && rest[0] in w
    requires At(buffer, offset, ObjBytes(d.t.sizes, DepObj(d, w, images, rest[0])))
    ensures offset < |buffer| && rest[0] !in done
    ensures var o := DepObj(d, w, images, rest[0]);
            && ReadFrame(MetaSizes(d.t.udts), buffer, offset) == Some(FrameOf(d.t.sizes, o, offset))
            && ParseDependency(d.t.udts, Resolved(d, w, images, done), buffer, FrameOf(d.t.sizes, o, offset))
               == Some(Some((rest[0], Resolve(d, w, images, rest[0]))))
            && offset + |ObjBytes(d.t.sizes, o)|
              == FrameOf(d.t.sizes, o, offset).start + FrameOf(d.t.sizes, o, offset).size
  {
    hide ReadFrame, ParseDependency, Resolve;
    var key, o := rest[0], DepObj(d, w, images, rest[0]);
    assert (done + rest)[|done|] == key;
    assert key !in done by {
      forall i | 0 <= i < |done| ensures done[i] != key { assert (done + rest)[i] == done[i]; }
    }
    DepPushable(d, w, images, key);
    KnownSize(d.t.sizes, d.t.udts, o);
    ObjReadsBack(d.t.sizes, MetaSizes(d.t.udts), o, buffer, offset);
    if IsText(w, key) {
      TextParses(d, w, images, Resolved(d, w, images, done), buffer, offset + |Header(d.t.sizes, o)|, key);
    } else {
      forall s | s in w[key].strings
        ensures Lookup(Resolved(d, w, images, done), s) == Lookup(Texts(w), s)
      {
        assert s in (done + rest)[..|done|] && (done + rest)[..|done|] == done;
        assert IsText(w, s);
        assert Resolve(d, w, images, s) == String(w[s].text) by { ResolveText(d, w, images, s); }
      }
      RecordParses(d, w, images, Resolved(d, w, images, done), buffer, offset + |Header(d.t.sizes, o)|, key);
    }
  }

  lemma ResolveText(d: DepTypes, w: World, images: Images, key: nat)
    requires DepTypesOk(d, w, images) && IsText(w, key)
    ensures Resolve(d, w, images, key) == String(w[key].text)
  {
  }

  // ---------------------------------------------------------------------------
  // Parsing the objects
  // ---------------------------------------------------------------------------

  function ObjsOf(es: seq<Event>): (r: seq<Obj>)
    ensures |r| == |es|
  {
    if es == [] then [] else [ObjOf(es[0])] + ObjsOf(es[1..])
  }

  predicate EventsOk(t: Schema, es: seq<Event>) {
    forall e :: e in es ==> EventOk(t, e)
  }

  function ExpectedValues(t: Schema, es: seq<Event>, deps: map<nat, Value>): (r: seq<Value>)
    requires EventsOk(t, es)
    ensures |r| == |es|
  {
    if es == [] then [] else [ExpectedValue(t, es[0], deps)] + ExpectedValues(t, es[1..], deps)
  }

  /** One value per event, in order. */
  lemma {:induction false} ObjectsParse(t: Schema, deps: map<nat, Value>, es: seq<Event>, buffer: seq<Byte>,
      offset: nat)
    requires EventsOk(t, es) && Describes(t.udts, t.sizes) && Remaining(t.sizes, ObjsOf(es), buffer, offset)
    ensures ParseObjects(t.udts, deps, buffer, offset) == Some(ExpectedValues(t, es, deps))
    decreases |es|
  {
    hide Remaining, ReadFrame, ParseObject, EventOk, ExpectedValue, Describes, ObjOf, QueueBytes;
    RemainingEnd(t.sizes, ObjsOf(es), buffer, offset);
    if es != [] {
      var o := ObjOf(es[0]);
      assert ObjsOf(es)[0] == o && ObjsOf(es)[1..] == ObjsOf(es[1..]);
      assert EventOk(t, es[0]);
      RemainingTail(t.sizes, ObjsOf(es), buffer, offset);
      NextObject(t, deps, es[0], buffer, offset);
      ObjectsParse(t, deps, es[1..], buffer, offset + |ObjBytes(t.sizes, o)|);
    }
  }

  lemma NextObject(t: Schema, deps: map<nat, Value>, e: Event, buffer: seq<Byte>, offset: nat)
    requires EventOk(t, e) && Describes(t.udts, t.sizes) && At(buffer, offset, ObjBytes(t.sizes, ObjOf(e)))
    ensures var f := FrameOf(t.sizes, ObjOf(e), offset);
            && offset < |buffer| && ReadFrame(MetaSizes(t.udts), buffer, offset) == Some(f)
            && ParseObject(t.udts, deps, buffer, f) == Some(ExpectedValue(t, e, deps))
            && offset + |ObjBytes(t.sizes, ObjOf(e))| == f.start + f.size
  {
    hide ReadFrame, ParseObject, ExpectedValue;
    var o := ObjOf(e);
    EventPushable(t, e);
    KnownSize(t.sizes, t.udts, o);
    ObjReadsBack(t.sizes, MetaSizes(t.udts), o, buffer, offset);
    EventParses(t, deps, buffer, offset + |Header(t.sizes, o)|, e);
  }

  /** End to end: parsing a block's objects with its own dependencies gives one object per event, in order, with the
      event's fields, and every reference resolved to the item it names. */
  lemma EndToEnd(t: Schema, d: DepTypes, w: World, images: Images, es: seq<Event>)
    requires EventsOk(t, es) && Describes(t.udts, t.sizes)
    requires WorldOk(w) && DepTypesOk(d, w, images) && KnownReferences(w, es)
    ensures var keys := RecordEvents(w, [], es);
            && (forall key :: key in keys ==> key in w)
            && var deps := Resolved(d, w, images, keys);
               && ReadDependenciesFrom(d.t.udts, map[], QueueBytes(d.t.sizes, DepObjs(d, w, images, keys)), 0)
                 == Some(deps)
               && ParseObjects(t.udts, deps, QueueBytes(t.sizes, ObjsOf(es)), 0) == Some(ExpectedValues(t, es, deps))
               && (forall key :: key in AllReferences(es) ==>
                 Lookup(deps, key) == Resolve(d, w, images, key) != NoValue)
  {
    var keys := RecordEvents(w, [], es);
    DependenciesAreWellFormed(w, es);
    KeysAreKnown(w, keys);
    KeysCoverReferences(w, es);
    var deps := Resolved(d, w, images, keys);
    var buffer, objects := QueueBytes(d.t.sizes, DepObjs(d, w, images, keys)), QueueBytes(t.sizes, ObjsOf(es));
    assert [] + keys == keys;
    assert Resolved(d, w, images, []) == map[];
    WholeRemains(d.t.sizes, DepObjs(d, w, images, keys));
    WholeRemains(t.sizes, ObjsOf(es));
    hide *;
    DependenciesReadBack(d, w, images, [], keys, buffer, 0);
    ObjectsParse(t, deps, es, objects, 0);
    ReferencesResolve(d, w, images, keys, AllReferences(es));
  }

  lemma WholeRemains(types: Sizes, os: seq<Obj>)
    ensures Remaining(types, os, QueueBytes(types, os), 0)
  {
  }

  lemma KeysCoverReferences(w: World, es: seq<Event>)
    requires Set(RecordEvents(w, [], es)) == Closure(w, Set(AllReferences(es)))
    ensures forall key :: key in AllReferences(es) ==> key in RecordEvents(w, [], es)
  {
    forall key | key in AllReferences(es)
      ensures key in RecordEvents(w, [], es)
    {
      assert key in Set(AllReferences(es)) && key in Closure(w, Set(AllReferences(es)))
        && key in Set(RecordEvents(w, [], es));
    }
  }

  lemma ReferencesResolve(d: DepTypes, w: World, images: Images, keys: seq<nat>, refs: seq<nat>)
    requires DepTypesOk(d, w, images) && (forall key :: key in keys ==> key in w) && forall key :: key in refs ==>
      key in keys
    ensures forall key :: key in refs ==>
      Lookup(Resolved(d, w, images, keys), key) == Resolve(d, w, images, key) != NoValue
  {
    hide DepTypesOk, ExpectedMembers;
  }

  lemma KeysAreKnown(w: World, keys: seq<nat>)
    requires WellFormed(w, keys)
    ensures forall key :: key in keys ==> key in w
  {
  }

  // ---------------------------------------------------------------------------
  // extract()
  // ---------------------------------------------------------------------------

  /** The references that the process finds in the memory of an object. */
  function MemberReference(t: Schema, raw: seq<Byte>, m: Member): seq<nat> {
    if m.isReference then
      if m.offset + POINTER_SIZE <= |raw| then [ReadLE(raw, m.offset, POINTER_SIZE)] else []
    else if m.typeName == "StringId" && StringIdOk(t) && m.offset + t.stringId.size <= |raw| then
      [ReadLE(raw, m.offset + t.stringId.members[0].offset, POINTER_SIZE)]
    else []
  }

  function MemberReferences(t: Schema, raw: seq<Byte>, ms: seq<Member>): seq<nat> {
    if ms == [] then [] else MemberReference(t, raw, ms[0]) + MemberReferences(t, raw, ms[1..])
  }

  function ObjReferences(t: Schema, o: Obj): seq<nat> {
    if o.typeIndex as nat >= |t.udts| then []
    else
      var udt := t.udts[o.typeIndex];
      if udt.name == "LogStringEvent" then
        if 8 <= |o.payload| then [ReadLE(o.payload, 0, 8)] else []
      else if udt.name == "LogStringInteropEventV2" then
        MemberReference(t, o.payload, Member("target", "StringId", 12, t.stringId.size, false))
      else MemberReferences(t, o.payload, udt.members)
  }

  lemma FieldReference(t: Schema, raw: seq<Byte>, m: Member, f: Field)
    requires HoldsField(t, raw, m, f)
    ensures MemberReference(t, raw, m) == References([f])
  {
    assert References([f][1..]) == [];
    assert !f.Ref? && !f.StrId? ==> m.typeName != "StringId";
  }

  lemma {:induction false} FieldReferences(t: Schema, raw: seq<Byte>, ms: seq<Member>, fields: seq<Field>)
    requires |ms| == |fields| && forall i :: 0 <= i < |ms| ==> HoldsField(t, raw, ms[i], fields[i])
    ensures MemberReferences(t, raw, ms) == References(fields)
    decreases |ms|
  {
    hide HoldsField, MemberReference;
    if ms != [] {
      FieldReference(t, raw, ms[0], fields[0]);
      FieldReferences(t, raw, ms[1..], fields[1..]);
      ReferencesAppend([fields[0]], fields[1..]);
      assert fields == [fields[0]] + fields[1..];
    }
  }

  /** The memory of an event holds its references. */
  lemma EventReferences(t: Schema, e: Event)
    requires EventOk(t, e)
    requires e.Pod? ==>
      t.udts[e.typeIndex].name != "LogStringEvent" && t.udts[e.typeIndex].name != "LogStringInteropEventV2"
    ensures ObjReferences(t, ObjOf(e)) == ReferencesOf(e)
  {
    match e
    case Pod(_, raw, fields) => FieldReferences(t, raw, t.udts[e.typeIndex].members, fields);
    case LogString(_, _, _, _) => LogStringReference(e);
    case LogStringInterop(_, _, _, _, _, _) => InteropReference(t, e);
  }

  lemma LogStringReference(e: Event)
    requires e.LogString? && e.desc < Pow256(8)
    ensures 8 <= |Payload(e)| && ReadLE(Payload(e), 0, 8) == e.desc
  {
    hide ReadLE, LE;
    var rest := LE(if Fits64(e.time) then Unsigned64(e.time) else 0, 8) + e.msg;
    WholeAt(Payload(e));
    assert Payload(e) == LE(e.desc, 8) + rest;
    AtAppend(Payload(e), 0, LE(e.desc, 8), rest);
    ReadsBack(Payload(e), 0, e.desc, 8);
  }

  lemma InteropReference(t: Schema, e: Event)
    requires EventOk(t, e) && e.LogStringInterop?
    ensures MemberReference(t, Payload(e), Member("target", "StringId", 12, t.stringId.size, false))
      == References([e.target])
  {
    hide ReadLE, LE;
    var time, level := LE(Unsigned64(e.time), 8), LE(e.level, 4);
    WholeAt(Payload(e));
    InteropParts(Payload(e), 0, time, level, e.targetRaw, e.msg);
    ReadInside(Payload(e), 12, e.targetRaw, t.stringId.members[0].offset, POINTER_SIZE);
    assert References([e.target]) == [e.target.ptr] by { assert [e.target][1..] == []; }
  }

  lemma WholeAt(s: seq<Byte>)
    ensures At(s, 0, s)
  {
  }

  /** The set of recorded ids and the queue of dependencies, while a block is extracted. */
  class Extractor {
    const d: DepTypes
    const w: World
    const images: Images
    const deps: Queue
    var recorded: set<nat>
    ghost var keys: seq<nat>

    ghost predicate Valid()
      reads this, deps
    {
      && WorldOk(w) && DepTypesOk(d, w, images) && deps.types == d.t.sizes && deps.Valid()
      && (forall key :: key in keys ==> key in w)
      && deps.pushed == DepObjs(d, w, images, keys)
    }

    constructor (d: DepTypes, w: World, images: Images)
      requires WorldOk(w) && DepTypesOk(d, w, images)
      ensures Valid() && recorded == Set(keys) && keys == [] && fresh(deps)
      ensures this.d == d && this.w == w && this.images == images
    {
      this.d, this.w, this.images := d, w, images;
      deps := new Queue(d.t.sizes);
      recorded, keys := {}, [];
    }

    /** recorded_deps.insert(..) and deps.push(..) of one item. */
    method PushItem(key: nat)
      requires Valid() && key in w
      modifies this`keys, deps
      ensures Valid() && keys == old(keys) + [key]
    {
      DepPushable(d, w, images, key);
      DepObjsSnoc(d, w, images, keys, key);
      keys := keys + [key];
      hide DepTypesOk, WorldOk, DepObj, DepObjs, Pushable;
      deps.Push(PushedItem(d, w, images, key));
    }

    /** record_..._event_dependencies, and the handling of a StringId: the id is marked first, then the strings of a
        record that are not recorded yet are pushed, then the item itself. */
    method RecordItem(key: nat)
      requires Valid() && recorded == Set(keys) && key in w
      modifies this, deps
      ensures Valid() && recorded == Set(keys) && keys == Record(w, old(keys), key)
    {
      if key in recorded {
        return;
      }
      recorded := recorded + {key};
      if w[key].Metadata? {
        StringsAreText(w, key);
        PushStrings(w[key].strings, key);
      }
      PushItem(key);
    }

    method PushStrings(strings: seq<nat>, ghost key: nat)
      requires Valid() && recorded == Set(keys) + {key} && key !in keys
      requires forall s :: s in strings ==> IsText(w, s) && s != key
      modifies this, deps
      ensures Valid() && recorded == Set(keys) + {key} && key !in keys && keys == RecordTexts(old(keys), strings)
    {
      hide DepTypesOk, WorldOk, DepObjs;
      for i := 0 to |strings|
        invariant Valid() && recorded == Set(keys) + {key} && key !in keys
        invariant RecordTexts(old(keys), strings) == RecordTexts(keys, strings[i..])
      {
        assert strings[i..][0] == strings[i] && strings[i..][1..] == strings[i + 1..];
        assert strings[i] in strings;
        if strings[i] !in recorded {
          recorded := recorded + {strings[i]};
          PushItem(strings[i]);
        }
      }
    }

    /** extract(): every event of the queue, in order. */
    method Extract(t: Schema, q: Queue, ghost es: seq<Event>)
      requires Valid() && recorded == Set(keys) && keys == [] && q != deps
      requires q.Valid() && q.types == t.sizes && q.pushed == ObjsOf(es) && EventsOk(t, es) && KnownReferences(w, es)
      requires NoFakeCustom(t, es)
      modifies this, deps
      ensures Valid() && keys == RecordEvents(w, [], es)
      ensures deps.buffer == QueueBytes(d.t.sizes, DepObjs(d, w, images, RecordEvents(w, [], es)))
    {
      assert es[0..] == es;
      RecordNoEvents(w);
      hide DepTypesOk, WorldOk, KnownReferences, RecordAll, RecordEvents, Record, EventsOk, NoFakeCustom, QueueBytes,
        DepObjs, ObjReferences, AllPushable, Remaining;
      var it := new QueueIterator(q);
      while true
        invariant Valid() && recorded == Set(keys) && it.Valid() && it.queue == q && it.seen <= |es|
        invariant q.Valid() && q.pushed == ObjsOf(es)
        invariant RecordEvents(w, [], es) == RecordEvents(w, keys, es[it.seen..])
        invariant fresh(it)
        decreases |es| - it.seen
      {
        ghost var seen := it.seen;
        var x := it.Next();
        if x.None? {
          break;
        }
        ObjsAt(es, seen);
        EventAt(t, w, es, seen);
        RecordEventsStep(w, keys, es, seen);
        RecordReferences(ObjReferences(t, x.value));
      }
    }

    method RecordReferences(refs: seq<nat>)
      requires Valid() && recorded == Set(keys) && forall key :: key in refs ==> key in w
      modifies this, deps
      ensures Valid() && recorded == Set(keys) && keys == RecordAll(w, old(keys), refs)
    {
      hide DepTypesOk, WorldOk, Record;
      for i := 0 to |refs|
        invariant Valid() && recorded == Set(keys)
        invariant RecordAll(w, old(keys), refs) == RecordAll(w, keys, refs[i..])
      {
        assert refs[i..][1..] == refs[i + 1..];
        RecordItem(refs[i]);
      }
    }
  }

  lemma StringsAreText(w: World, key: nat)
    requires WorldOk(w) && IsMetadata(w, key)
    ensures forall s :: s in w[key].strings ==> IsText(w, s) && s != key
  {
  }

  lemma RecordNoEvents(w: World)
    ensures forall deps :: RecordEvents(w, deps, []) == deps
  {
  }

  lemma RecordEventsStep(w: World, deps: seq<nat>, es: seq<Event>, i: nat)
    requires i < |es|
    ensures RecordEvents(w, deps, es[i..]) == RecordEvents(w, RecordAll(w, deps, ReferencesOf(es[i])), es[i + 1..])
  {
    assert es[i..][0] == es[i] && es[i..][1..] == es[i + 1..];
  }

  /** What is pushed for an item of the process. */
  function PushedItem(d: DepTypes, w: World, images: Images, key: nat): (o: Obj)
    requires key in w
    ensures o == DepObj(d, w, images, key)
  {
    if w[key].StaticText? then Obj(d.textIndex, LE(key, 8) + w[key].text)
      else Obj(d.recordIndex(w[key].kind), images(key))
  }

  lemma {:induction false} DepObjsSnoc(d: DepTypes, w: World, images: Images, keys: seq<nat>, key: nat)
    requires (forall k :: k in keys ==> k in w) && key in w
    ensures DepObjs(d, w, images, keys + [key]) == DepObjs(d, w, images, keys) + [DepObj(d, w, images, key)]
    decreases |keys|
  {
    if keys == [] {
      assert keys + [key] == [key] && [key][1..] == [];
    } else {
      assert (keys + [key])[0] == keys[0] && (keys + [key])[1..] == keys[1..] + [key];
      DepObjsSnoc(d, w, images, keys[1..], key);
    }
  }

  /** Only the custom log events carry their names. */
  ghost predicate NoFakeCustom(t: Schema, es: seq<Event>)
    requires EventsOk(t, es)
  {
    forall e :: e in es && e.Pod? ==>
      t.udts[e.typeIndex].name != "LogStringEvent" && t.udts[e.typeIndex].name != "LogStringInteropEventV2"
  }

  lemma {:induction false} ObjsAt(es: seq<Event>, i: nat)
    requires i < |es|
    ensures ObjsOf(es)[i] == ObjOf(es[i])
    decreases i
  {
    if i > 0 {
      ObjsAt(es[1..], i - 1);
    }
  }

  lemma EventAt(t: Schema, w: World, es: seq<Event>, i: nat)
    requires EventsOk(t, es) && NoFakeCustom(t, es) && KnownReferences(w, es) && i < |es|
    ensures ObjReferences(t, ObjOf(es[i])) == ReferencesOf(es[i])
    ensures forall key :: key in ReferencesOf(es[i]) ==> key in w
  {
    assert es[i] in es;
    EventReferences(t, es[i]);
    ReferencesAt(es, i);
  }

  lemma {:induction false} ReferencesAt(es: seq<Event>, i: nat)
    requires i < |es|
    ensures forall key :: key in ReferencesOf(es[i]) ==> key in AllReferences(es)
    decreases i
  {
    if i > 0 {
      ReferencesAt(es[1..], i - 1);
    }
  }
}
