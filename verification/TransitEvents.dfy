/** Events of the tracing crate in a transit queue: the memory that push copies, and what the parser makes of it. */
module TransitEvents {
  import opened Basics
  import opened Bytes
  import opened TransitQueue
  import opened TransitParser

  /** A field of a value: a number of one of the types that metadata names, a floating-point number by its bits, the
      address of a static item, or a StringId. */
  datatype Field =
    | NumU8(n: nat)
    | NumU32(n: nat)
    | NumU64(n: nat)
    | NumI64(i: int)
    | NumF64(bits: nat)
    | Ref(key: nat)
    | StrId(ptr: nat, len: nat)

  predicate Fits64(i: int) { -0x8000_0000_0000_0000 <= i < 0x8000_0000_0000_0000 }

  /** Two's complement. */
  function Unsigned64(i: int): nat
    requires Fits64(i)
  {
    if i >= 0 then i else i + 0x1_0000_0000_0000_0000
  }

  /** What a process and its readers know about the types of a queue; `lenOffset` is where a StringId keeps its
      length. */
  datatype Schema = Schema(sizes: Sizes, udts: seq<Udt>, stringId: Udt, lenOffset: nat)

  /** The metadata of StringId: a reference type with one member. */
  predicate StringIdOk(t: Schema) {
    && t.stringId.isReference && |t.stringId.members| == 1
    && var m := t.stringId.members[0];
       && m.name == "id" && m.isReference && m.size == POINTER_SIZE
       && m.offset + POINTER_SIZE <= t.stringId.size && t.lenOffset + U32_SIZE <= t.stringId.size
  }

  predicate KnowsStringId(t: Schema) {
    StringIdOk(t) && var i := Position(t.udts, "StringId"); i.Some? && t.udts[i.value] == t.stringId
  }

  // ---------------------------------------------------------------------------
  // Memory images
  // ---------------------------------------------------------------------------

  /** The memory of a StringId. */
  predicate HoldsStringId(t: Schema, raw: seq<Byte>, offset: nat, ptr: nat, len: nat)
    requires StringIdOk(t)
  {
    && offset + t.stringId.size <= |raw|
    && ReadLE(raw, offset + t.stringId.members[0].offset, 8) == ptr && ReadLE(raw, offset + t.lenOffset, 4) == len
  }

  /** The member `m` is a number of a type with one of these names, and of this size. */
  predicate IsNumber(m: Member, name: string, alias: string, size: nat) {
    !m.isReference && (m.typeName == name || m.typeName == alias) && m.size == size
  }

  /** The member `m` of the value in `raw` is `f`. */
  predicate HoldsField(t: Schema, raw: seq<Byte>, m: Member, f: Field) {
    && m.offset + m.size <= |raw|
    && match f
       case NumU8(n) => IsNumber(m, "u8", "uint8", 1) && ReadLE(raw, m.offset, 1) == n
       case NumU32(n) => IsNumber(m, "u32", "uint32", 4) && ReadLE(raw, m.offset, 4) == n
       case NumU64(n) => IsNumber(m, "u64", "uint64", 8) && ReadLE(raw, m.offset, 8) == n
       case NumI64(i) => IsNumber(m, "i64", "int64", 8) && Fits64(i) && ReadLE(raw, m.offset, 8) == Unsigned64(i)
       case NumF64(bits) => IsNumber(m, "f64", "f64", 8) && ReadLE(raw, m.offset, 8) == bits
       case Ref(key) => m.isReference && m.size == 8 && ReadLE(raw, m.offset, 8) == key
       case StrId(ptr, len) =>
         !m.isReference && m.typeName == "StringId" && KnowsStringId(t) && m.size == t.stringId.size
         && HoldsStringId(t, raw, m.offset, ptr, len)
  }

  /** `raw` is the memory of a value of type `udt` with these fields. */
  predicate HoldsPod(t: Schema, raw: seq<Byte>, udt: Udt, fields: seq<Field>) {
    && |raw| == udt.size && |fields| == |udt.members| && !udt.isReference
    && forall i :: 0 <= i < |fields| ==> HoldsField(t, raw, udt.members[i], fields[i])
  }

  // ---------------------------------------------------------------------------
  // What the parser makes of them
  // ---------------------------------------------------------------------------

  function Expected(f: Field, deps: map<nat, Value>): Value {
    match f
    case NumU8(n) => U8(n)
    case NumU32(n) => U32(n)
    case NumU64(n) => U64(n)
    case NumI64(i) => I64(i)
    case NumF64(bits) => F64(bits)
    case Ref(key) => Lookup(deps, key)
    case StrId(ptr, _) => Lookup(deps, ptr)
  }

  function ExpectedMembers(ms: seq<Member>, fields: seq<Field>, deps: map<nat, Value>): (r: seq<(string, Value)>)
    requires |ms| == |fields|
    ensures |r| == |ms|
  {
    if ms == [] then []
      else [(ms[0].name, Expected(fields[0], deps))] + ExpectedMembers(ms[1..], fields[1..], deps)
  }

  lemma {:induction false} ExpectedMembersAt(ms: seq<Member>, fields: seq<Field>, deps: map<nat, Value>, i: nat)
    requires i < |ms| == |fields|
    ensures ExpectedMembers(ms, fields, deps)[i] == (ms[i].name, Expected(fields[i], deps))
  {
    hide Expected;
    if i != 0 {
      ExpectedMembersAt(ms[1..], fields[1..], deps, i - 1);
    }
  }

  lemma StringIdParses(t: Schema, deps: map<nat, Value>, buffer: seq<Byte>, offset: nat, raw: seq<Byte>, at: nat,
                       ptr: nat, len: nat, depth: nat)
    requires StringIdOk(t) && At(buffer, offset, raw) && HoldsStringId(t, raw, at, ptr, len)
    ensures ParsePod(t.stringId, t.udts, deps, offset + at, buffer, depth) == Some(Lookup(deps, ptr))
  {
    var ms := t.stringId.members;
    var m := ms[0];
    ReadInside(buffer, offset, raw, at + m.offset, POINTER_SIZE);
    hide ReadLE;
    assert ParseMember(m, t.udts, deps, offset + at, buffer, depth) == Some(Lookup(deps, ptr));
    hide ParseMember;
    assert ms[1..] == [];
    assert ParseMembers(ms[1..], t.udts, deps, offset + at, buffer, depth) == Some([]);
    assert [(m.name, Lookup(deps, ptr))] + [] == [("id", Lookup(deps, ptr))];
  }

  lemma FieldParses(t: Schema, deps: map<nat, Value>, buffer: seq<Byte>, offset: nat, raw: seq<Byte>, m: Member,
      f: Field, depth: nat)
    requires At(buffer, offset, raw) && HoldsField(t, raw, m, f) && 1 <= depth
    ensures ParseMember(m, t.udts, deps, offset, buffer, depth) == Some(Expected(f, deps))
  {
    hide ParsePod, Position, ReadLE;
    match f
    case StrId(ptr, len) => StringIdParses(t, deps, buffer, offset, raw, m.offset, ptr, len, depth - 1);
    case _ => ReadInside(buffer, offset, raw, m.offset, m.size);
  }

  /** `n` stands at `at` in `k` bytes. */
  ghost predicate Stands(buffer: seq<Byte>, at: nat, n: nat, k: nat) { n < Pow256(k) && At(buffer, at, LE(n, k)) }

  /** Numbers in memory, by the names of their types: what is read is what was written there, with its sign; a size that
      is not that of the type is an error. */
  lemma NumbersParse(m: Member, udts: seq<Udt>, deps: map<nat, Value>, buffer: seq<Byte>, offset: nat, depth: nat,
      n: nat, i: int)
    requires !m.isReference && Fits64(i)
    ensures var v, at := ParseMember(m, udts, deps, offset, buffer, depth), offset + m.offset;
      && (IsNumber(m, "u8", "uint8", 1) && Stands(buffer, at, n, 1) ==> v == Some(U8(n)))
      && (IsNumber(m, "u32", "uint32", 4) && Stands(buffer, at, n, 4) ==> v == Some(U32(n)))
      && (IsNumber(m, "u64", "uint64", 8) && Stands(buffer, at, n, 8) ==> v == Some(U64(n)))
      && (IsNumber(m, "f64", "f64", 8) && Stands(buffer, at, n, 8) ==> v == Some(F64(n)))
      && (IsNumber(m, "i64", "int64", 8) && Stands(buffer, at, if i < 0 then i + 0x1_0000_0000_0000_0000 else i, 8) ==>
            v == Some(I64(i)))
      && ((m.typeName == "u8" || m.typeName == "uint8") && m.size != 1 ==> v == None)
      && ((m.typeName == "u32" || m.typeName == "uint32") && m.size != 4 ==> v == None)
      && (m.typeName in {"u64", "uint64", "i64", "int64", "f64"} && m.size != 8 ==> v == None)
  {
    hide ParseMember, Stands;
    IntrinsicParses(m, udts, deps, buffer, offset, depth, n);
    IntrinsicParses(m, udts, deps, buffer, offset, depth, Unsigned64(i));
  }

  lemma IntrinsicParses(m: Member, udts: seq<Udt>, deps: map<nat, Value>, buffer: seq<Byte>, offset: nat, depth: nat,
      n: nat)
    requires !m.isReference
    ensures var v, at, t := ParseMember(m, udts, deps, offset, buffer, depth), offset + m.offset,
      IntrinsicOf(m.typeName);
      && (t.Some? && m.size != Width(t.value) ==> v == None)
      && (t.Some? && m.size == Width(t.value) && Stands(buffer, at, n, m.size) ==> v == Some(Typed(t.value, n)))
  {
    hide ReadLE, LE, Position, IntrinsicOf;
    ReadsBackIf(buffer, offset + m.offset, n, m.size);
  }

  lemma ReadsBackIf(s: seq<Byte>, at: nat, n: nat, k: nat)
    ensures At(s, at, LE(n, k)) && n < Pow256(k) ==> at + k <= |s| && ReadLE(s, at, k) == n
  {
    if At(s, at, LE(n, k)) && n < Pow256(k) {
      ReadsBack(s, at, n, k);
    }
  }

  lemma {:induction false} MembersParse(t: Schema, deps: map<nat, Value>, buffer: seq<Byte>, offset: nat,
      raw: seq<Byte>,
                                        ms: seq<Member>, fields: seq<Field>, depth: nat)
    requires At(buffer, offset, raw) && |ms| == |fields| && 1 <= depth
    requires forall i :: 0 <= i < |ms| ==> HoldsField(t, raw, ms[i], fields[i])
    ensures ParseMembers(ms, t.udts, deps, offset, buffer, depth) == Some(ExpectedMembers(ms, fields, deps))
    decreases |ms|
  {
    hide HoldsField, ParseMember, Expected, At;
    if ms != [] {
      FieldParses(t, deps, buffer, offset, raw, ms[0], fields[0], depth);
      MembersParse(t, deps, buffer, offset, raw, ms[1..], fields[1..], depth);
    }
  }

  /** A value whose memory stands in a buffer is parsed to its fields. */
  lemma PodParses(t: Schema, deps: map<nat, Value>, buffer: seq<Byte>, offset: nat, raw: seq<Byte>, udt: Udt,
      fields: seq<Field>, depth: nat)
    requires At(buffer, offset, raw) && HoldsPod(t, raw, udt, fields) && 1 <= depth
    ensures ParsePod(udt, t.udts, deps, offset, buffer, depth)
      == Some(Object(udt.name, ExpectedMembers(udt.members, fields, deps)))
  {
    hide HoldsField, At;
    MembersParse(t, deps, buffer, offset, raw, udt.members, fields, depth);
  }

  // ---------------------------------------------------------------------------
  // Events
  // ---------------------------------------------------------------------------

  /** An event as it was pushed: plain old data with its memory, or one of the two custom log events. */
  datatype Event =
    | Pod(typeIndex: Byte, raw: seq<Byte>, fields: seq<Field>)
    | LogString(typeIndex: Byte, desc: nat, time: int, msg: Text)
    | LogStringInterop(typeIndex: Byte, time: int, level: nat, targetRaw: seq<Byte>, target: Field, msg: Text)

  /** The event agrees with its type. */
  predicate EventOk(t: Schema, e: Event) {
    && e.typeIndex as nat < |t.sizes| <= |t.udts|
    && var udt := t.udts[e.typeIndex];
       match e
       case Pod(_, raw, fields) => HoldsPod(t, raw, udt, fields) && t.sizes[e.typeIndex] == Const(|raw|) && raw != []
       case LogString(_, desc, time, msg) =>
         && udt.name == "LogStringEvent" && t.sizes[e.typeIndex] == Dynamic
         && desc < Pow256(8) && Fits64(time) && 16 + |msg| < 0x1_0000_0000
       case LogStringInterop(_, time, level, targetRaw, target, msg) =>
         && udt.name == "LogStringInteropEventV2" && t.sizes[e.typeIndex] == Dynamic
         && Fits64(time) && level < Pow256(4) && KnowsStringId(t) && |targetRaw| == t.stringId.size
         && target.StrId? && HoldsStringId(t, targetRaw, 0, target.ptr, target.len)
         && 12 + |targetRaw| + |msg| < 0x1_0000_0000
  }

  /** write_value. */
  function Payload(e: Event): seq<Byte> {
    match e
    case Pod(_, raw, _) => raw
    case LogString(_, desc, time, msg) => LE(desc, 8) + LE(if Fits64(time) then Unsigned64(time) else 0, 8) + msg
    case LogStringInterop(_, time, level, targetRaw, _, msg) =>
      LE(if Fits64(time) then Unsigned64(time) else 0, 8) + LE(level, 4) + targetRaw + msg
  }

  function ObjOf(e: Event): Obj { Obj(e.typeIndex, Payload(e)) }

  /** The value that a reader should see. */
  function ExpectedValue(t: Schema, e: Event, deps: map<nat, Value>): Value
    requires EventOk(t, e)
  {
    var udt := t.udts[e.typeIndex];
    match e
    case Pod(_, _, fields) => Object(udt.name, ExpectedMembers(udt.members, fields, deps))
    case LogString(_, desc, time, msg) =>
      Object(udt.name, [("time", I64(time)), ("msg", String(msg)), ("desc", Lookup(deps, desc))])
    case LogStringInterop(_, time, level, _, target, msg) =>
      Object(udt.name, [("time", I64(time)), ("level", U32(level)), ("target", Lookup(deps, target.ptr)),
        ("msg", String(msg))])
  }

  lemma EventPushable(t: Schema, e: Event)
    requires EventOk(t, e)
    ensures Pushable(t.sizes, ObjOf(e)) && HasSize(t.sizes, ObjOf(e))
  {
  }

  lemma TailReads(buffer: seq<Byte>, offset: nat, head: seq<Byte>, msg: Text)
    requires At(buffer, offset, head + msg)
    ensures Tail(buffer, offset, |head|, |head| + |msg|) == Some(msg)
  {
    AtAppend(buffer, offset, head, msg);
  }

  lemma PowersOf256()
    ensures Pow256(1) == 0x100 && Pow256(4) == 0x1_0000_0000 && Pow256(8) == 0x1_0000_0000_0000_0000
  {
    assert Pow256(2) == 0x1_0000 && Pow256(4) == 0x1_0000_0000 && Pow256(6) == 0x1_0000_0000_0000;
  }

  lemma TimeReads(buffer: seq<Byte>, offset: nat, time: int)
    requires Fits64(time) && At(buffer, offset, LE(Unsigned64(time), 8))
    ensures ReadAt(buffer, offset, 8).Some? && Signed64(ReadAt(buffer, offset, 8).value) == time
  {
    PowersOf256();
    hide Pow256, LE, ReadLE;
    ReadsBack(buffer, offset, Unsigned64(time), 8);
  }

  lemma LogStringParses(deps: map<nat, Value>, buffer: seq<Byte>, offset: nat, e: Event)
    requires e.LogString? && e.desc < Pow256(8) && Fits64(e.time) && At(buffer, offset, Payload(e))
    ensures ParseLogString(deps, offset, |Payload(e)|, buffer)
         == Some([("time", I64(e.time)), ("msg", String(e.msg)), ("desc", Lookup(deps, e.desc))])
  {
    var time := LE(Unsigned64(e.time), 8);
    AtAppend(buffer, offset, LE(e.desc, 8) + time, e.msg);
    AtAppend(buffer, offset, LE(e.desc, 8), time);
    ReadsBack(buffer, offset, e.desc, 8);
    TimeReads(buffer, offset + 8, e.time);
    TailReads(buffer, offset, LE(e.desc, 8) + time, e.msg);
  }

  lemma InteropParses(t: Schema, deps: map<nat, Value>, buffer: seq<Byte>, offset: nat, e: Event)
    requires EventOk(t, e) && e.LogStringInterop? && At(buffer, offset, Payload(e))
    ensures ParseLogStringInterop(t.udts, deps, offset, |Payload(e)|, buffer)
         == Some([("time", I64(e.time)), ("level", U32(e.level)), ("target", Lookup(deps, e.target.ptr)),
           ("msg", String(e.msg))])
  {
    hide ParsePod, Position, HoldsStringId;
    var time, level := LE(Unsigned64(e.time), 8), LE(e.level, 4);
    InteropParts(buffer, offset, time, level, e.targetRaw, e.msg);
    TimeReads(buffer, offset, e.time);
    ReadsBack(buffer, offset + 8, e.level, 4);
    StringIdParses(t, deps, buffer, offset + 12, e.targetRaw, 0, e.target.ptr, e.target.len, Depth(t.udts));
    hide At, LE, Tail;
  }

  lemma InteropParts(buffer: seq<Byte>, offset: nat, time: seq<Byte>, level: seq<Byte>, target: seq<Byte>, msg: Text)
    requires |time| == 8 && |level| == 4 && At(buffer, offset, time + level + target + msg)
    ensures At(buffer, offset, time) && At(buffer, offset + 8, level) && At(buffer, offset + 12, target)
    ensures Tail(buffer, offset, 12 + |target|, 12 + |target| + |msg|) == Some(msg)
  {
    AtAppend(buffer, offset, time + level + target, msg);
    AtAppend(buffer, offset, time + level, target);
    AtAppend(buffer, offset, time, level);
    TailReads(buffer, offset, time + level + target, msg);
  }

  /** An event that stands in a buffer is parsed to the value that a reader should see. */
  lemma EventParses(t: Schema, deps: map<nat, Value>, buffer: seq<Byte>, offset: nat, e: Event)
    requires EventOk(t, e) && Describes(t.udts, t.sizes) && At(buffer, offset, Payload(e))
    ensures ParseObject(t.udts, deps, buffer, Frame(e.typeIndex, offset, |Payload(e)|))
      == Some(ExpectedValue(t, e, deps))
  {
    hide ParsePod, ParseLogString, ParseLogStringInterop, ExpectedMembers, At, Position;
    match e
    case Pod(_, raw, fields) => PodParses(t, deps, buffer, offset, raw, t.udts[e.typeIndex], fields, Depth(t.udts));
    case LogString(_, _, _, _) => LogStringParses(deps, buffer, offset, e);
    case LogStringInterop(_, _, _, _, _, _) => InteropParses(t, deps, buffer, offset, e);
  }
}
