/** parser.rs of the transit crate: values, plain-old-data and custom objects, dependencies. Strings are their UTF-8
    bytes. A result of None stands for an error, for a failed assertion, or for a read outside the buffer. */
module TransitParser {
  import opened Basics
  import opened Bytes
  import opened TransitQueue

  type Text = seq<Byte>

  datatype Value =
    | String(text: Text)
    | Object(typeName: string, members: seq<(string, Value)>)
    | U8(n: nat)
    | U32(n: nat)
    | U64(n: nat)
    | I64(i: int)
    | F64(bits: nat)
    | NoValue

  function Signed64(n: nat): int {
    if n < 0x8000_0000_0000_0000 then n else n - 0x1_0000_0000_0000_0000
  }

  function ReadAt(s: seq<Byte>, i: nat, k: nat): Option<nat> {
    if i + k <= |s| then Some(ReadLE(s, i, k)) else None
  }

  /** udts.iter().position(|t| t.name == name). */
  function Position(udts: seq<Udt>, name: string): (r: Option<nat>)
    ensures r.Some? ==> r.value < |udts| && udts[r.value].name == name
    decreases |udts|
  {
    if udts == [] then None
    else if udts[0].name == name then Some(0)
    else match Position(udts[1..], name) case None => None case Some(i) => Some(i + 1)
  }

  function Lookup(deps: map<nat, Value>, key: nat): (v: Value)
    ensures key in deps ==> v == deps[key]
    ensures key !in deps ==> v == NoValue
  {
    if key in deps then deps[key] else NoValue
  }

  /** Object::get_ref: the first member of that name. */
  function Get(members: seq<(string, Value)>, name: string): Option<Value>
    decreases |members|
  {
    if members == [] then None
    else if members[0].0 == name then Some(members[0].1)
    else Get(members[1..], name)
  }

  /** The numeric types that metadata names. */
  datatype Intrinsic = IntrinsicU8 | IntrinsicU32 | IntrinsicU64 | IntrinsicI64 | IntrinsicF64

  function IntrinsicOf(typeName: string): Option<Intrinsic> {
    if typeName == "u8" || typeName == "uint8" then Some(IntrinsicU8)
    else if typeName == "u32" || typeName == "uint32" then Some(IntrinsicU32)
    else if typeName == "u64" || typeName == "uint64" then Some(IntrinsicU64)
    else if typeName == "i64" || typeName == "int64" then Some(IntrinsicI64)
    else if typeName == "f64" then Some(IntrinsicF64)
    else None
  }

  function Width(t: Intrinsic): nat {
    match t
    case IntrinsicU8 => 1
    case IntrinsicU32 => 4
    case _ => 8
  }

  /** The value of a number of that type whose bytes are those of `n`. */
  function Typed(t: Intrinsic, n: nat): Value {
    match t
    case IntrinsicU8 => U8(n)
    case IntrinsicU32 => U32(n)
    case IntrinsicU64 => U64(n)
    case IntrinsicI64 => I64(Signed64(n))
    case IntrinsicF64 => F64(n)
  }

  // ---------------------------------------------------------------------------
  // Plain old data
  // ---------------------------------------------------------------------------

  /** One member. `depth` bounds how deep types are nested. */
  function ParseMember(m: Member, udts: seq<Udt>, deps: map<nat, Value>, offset: nat, buffer: seq<Byte>,
      depth: nat): Option<Value>
    decreases depth, 0
  {
    if m.isReference then
      if m.size < POINTER_SIZE then Some(NoValue)
      else match ReadAt(buffer, offset + m.offset, POINTER_SIZE)
           case None => None
           case Some(key) => Some(Lookup(deps, key))
    else
      match IntrinsicOf(m.typeName)
      case Some(t) =>
        if m.size != Width(t) then None
        else (match ReadAt(buffer, offset + m.offset, Width(t))
              case None => None
              case Some(n) => Some(Typed(t, n)))
      case None =>
        match Position(udts, m.typeName)
        case None => Some(NoValue)
        case Some(i) =>
          if depth == 0 then None else ParsePod(udts[i], udts, deps, offset + m.offset, buffer, depth - 1)
  }

  function ParseMembers(ms: seq<Member>, udts: seq<Udt>, deps: map<nat, Value>, offset: nat, buffer: seq<Byte>,
      depth: nat)
    : Option<seq<(string, Value)>>
    decreases depth, |ms| + 1
  {
    if ms == [] then Some([])
    else
      match ParseMember(ms[0], udts, deps, offset, buffer, depth)
      case None => None
      case Some(v) =>
        match ParseMembers(ms[1..], udts, deps, offset, buffer, depth)
        case None => None
        case Some(vs) => Some([(ms[0].name, v)] + vs)
  }

  /** parse_pod_instance: an object, or for a reference type the value of its `id` member. */
  function ParsePod(udt: Udt, udts: seq<Udt>, deps: map<nat, Value>, offset: nat, buffer: seq<Byte>,
      depth: nat): Option<Value>
    decreases depth, |udt.members| + 2
  {
    match ParseMembers(udt.members, udts, deps, offset, buffer, depth)
    case None => None
    case Some(members) =>
      if udt.isReference && Get(members, "id").Some? then Get(members, "id")
      else Some(Object(udt.name, members))
  }

  /** Metadata that is not recursive is nested no deeper than it has types. */
  function Depth(udts: seq<Udt>): nat { |udts| }

  // ---------------------------------------------------------------------------
  // Custom objects
  // ---------------------------------------------------------------------------

  /** The message at the end of an object: from `at` to the end of its `size` bytes. */
  function Tail(buffer: seq<Byte>, offset: nat, at: nat, size: nat): Option<Text> {
    if at <= size && offset + size <= |buffer| then Some(buffer[offset + at..offset + size]) else None
  }

  function ParseLogString(deps: map<nat, Value>, offset: nat, size: nat, buffer: seq<Byte>): Option<seq<(string,
      Value)>> {
    match (ReadAt(buffer, offset, 8), ReadAt(buffer, offset + 8, 8), Tail(buffer, offset, 16, size))
    case (Some(descId), Some(time), Some(msg)) =>
      Some([("time", I64(Signed64(time))), ("msg", String(msg)), ("desc", Lookup(deps, descId))])
    case _ => None
  }

  function ParseLogStringInterop(udts: seq<Udt>, deps: map<nat, Value>, offset: nat, size: nat, buffer: seq<Byte>)
    : Option<seq<(string, Value)>>
  {
    match Position(udts, "StringId")
    case None => Some([])
    case Some(i) =>
      match (ReadAt(buffer, offset, 8), ReadAt(buffer, offset + 8, 4),
             ParsePod(udts[i], udts, deps, offset + 12, buffer, Depth(udts)),
             Tail(buffer, offset, 12 + udts[i].size, size))
      case (Some(time), Some(level), Some(target), Some(msg)) =>
        Some([("time", I64(Signed64(time))), ("level", U32(level)), ("target", target), ("msg", String(msg))])
      case _ => None
  }

  /** parse_custom_instance; LogStringInteropEventV3 is not part of this model. */
  function ParseCustom(udt: Udt, udts: seq<Udt>, deps: map<nat, Value>, offset: nat, size: nat,
      buffer: seq<Byte>): Option<Value> {
    var members :=
      if udt.name == "LogStringEvent" then ParseLogString(deps, offset, size, buffer)
      else if udt.name == "LogStringInteropEventV2" then ParseLogStringInterop(udts, deps, offset, size, buffer)
      else if udt.name == "LogStringInteropEventV3" then None
      else Some([]);
    match members case None => None case Some(ms) => Some(Object(udt.name, ms))
  }

  // ---------------------------------------------------------------------------
  // Buffers
  // ---------------------------------------------------------------------------

  function ParseObject(udts: seq<Udt>, deps: map<nat, Value>, buffer: seq<Byte>, f: Frame): Option<Value>
    requires f.typeIndex as nat < |udts|
  {
    var udt := udts[f.typeIndex];
    if udt.size == 0 then ParseCustom(udt, udts, deps, f.start, f.size, buffer)
    else ParsePod(udt, udts, deps, f.start, buffer, Depth(udts))
  }

  /** The values of a buffer of objects from `offset` on. */
  function ParseObjects(udts: seq<Udt>, deps: map<nat, Value>, buffer: seq<Byte>, offset: nat): Option<seq<Value>>
    decreases |buffer| - offset
  {
    if offset >= |buffer| then Some([])
    else
      match ReadFrame(MetaSizes(udts), buffer, offset)
      case None => None
      case Some(f) =>
        match ParseObject(udts, deps, buffer, f)
        case None => None
        case Some(v) =>
          match ParseObjects(udts, deps, buffer, f.start + f.size)
          case None => None
          case Some(vs) => Some([v] + vs)
  }

  /** How a consumer answers, given all the values it has been handed: go on, stop, or (None) fail. */
  type Consumer = seq<Value> -> Option<bool>

  /** The consumer has asked to go on after each of these values. */
  ghost predicate Wanted(fun: Consumer, vs: seq<Value>) {
    forall i :: 0 < i <= |vs| ==> fun(vs[..i]) == Some(true)
  }

  /** parse_object_buffer: hands values over one by one, in order, until the consumer stops or fails. */
  method ParseObjectBuffer(deps: map<nat, Value>, udts: seq<Udt>, buffer: seq<Byte>, fun: Consumer)
    returns (r: Option<bool>, seen: seq<Value>)
    ensures var all := ParseObjects(udts, deps, buffer, 0);
            all.Some? ==>
              && seen <= all.value
              && (Wanted(fun, all.value) ==> r == Some(true) && seen == all.value)
              && (!Wanted(fun, all.value) ==>
                    r != Some(true) && seen != [] && fun(seen) == r && Wanted(fun, seen[..|seen| - 1]))
  {
    hide ParseObject, ReadFrame, Wanted;
    var offset: nat := 0;
    seen := [];
    assert Wanted(fun, []) by { NothingWanted(fun); }
    ghost var all := ParseObjects(udts, deps, buffer, 0);
    ghost var rest := all;
    while offset < |buffer|
      invariant rest == ParseObjects(udts, deps, buffer, offset)
      invariant all.Some? ==> rest.Some? && all.value == seen + rest.value
      invariant Wanted(fun, seen)
      decreases |buffer| - offset
    {
      var f := ReadFrame(MetaSizes(udts), buffer, offset);
      if f.None? {
        return None, seen;
      }
      var v := ParseObject(udts, deps, buffer, f.value);
      if v.None? {
        return None, seen;
      }
      ghost var before := seen;
      offset := f.value.start + f.value.size;
      ghost var rest' := ParseObjects(udts, deps, buffer, offset);
      assert rest == if rest'.None? then None else Some([v.value] + rest'.value);
      seen := seen + [v.value];
      assert rest'.Some? ==> before + ([v.value] + rest'.value) == seen + rest'.value;
      var more := fun(seen);
      if more != Some(true) {
        assert seen[..|seen| - 1] == before;
        StoppedBy(fun, all, seen);
        return more, seen;
      }
      WantedMore(fun, before, v.value);
      rest := rest';
    }
    return Some(true), seen;
  }

  lemma NothingWanted(fun: Consumer)
    ensures Wanted(fun, [])
  {
  }

  lemma WantedMore(fun: Consumer, vs: seq<Value>, v: Value)
    requires Wanted(fun, vs) && fun(vs + [v]) == Some(true)
    ensures Wanted(fun, vs + [v])
  {
    forall i | 0 < i <= |vs| + 1
      ensures fun((vs + [v])[..i]) == Some(true)
    {
      if i <= |vs| {
        assert (vs + [v])[..i] == vs[..i];
      } else {
        assert (vs + [v])[..i] == vs + [v];
      }
    }
  }

  lemma StoppedBy(fun: Consumer, all: Option<seq<Value>>, seen: seq<Value>)
    requires all.Some? ==> seen <= all.value
    requires seen != [] && fun(seen) != Some(true)
    ensures all.Some? ==> !Wanted(fun, all.value)
  {
    if all.Some? {
      assert all.value[..|seen|] == seen;
    }
  }

  // ---------------------------------------------------------------------------
  // Dependencies
  // ---------------------------------------------------------------------------

  /** One dependency: its id and value; None inside Some for an instance that is not an object and is skipped. */
  function ParseDependency(udts: seq<Udt>, deps: map<nat, Value>, buffer: seq<Byte>, f: Frame): Option<Option<(nat,
      Value)>>
    requires f.typeIndex as nat < |udts|
  {
    var udt := udts[f.typeIndex];
    if udt.name == "StaticString" then
      match (ReadAt(buffer, f.start, 8), Tail(buffer, f.start, 8, f.size))
      case (Some(id), Some(text)) => Some(Some((id, String(text))))
      case _ => None
    else if udt.size == 0 then None
    else
      match ParsePod(udt, udts, deps, f.start, buffer, Depth(udts))
      case None => None
      case Some(Object(name, members)) =>
        (match Get(members, "id")
         case Some(U64(id)) => Some(Some((id, Object(name, members))))
         case Some(I64(id)) => Some(Some((id % 0x1_0000_0000_0000_0000, Object(name, members))))
         case _ => None)
      case Some(_) => Some(None)
  }

  /** The dependencies read from `offset` on, added to those already read; an id must not come twice. */
  function ReadDependenciesFrom(udts: seq<Udt>, deps: map<nat, Value>, buffer: seq<Byte>, offset: nat): Option<map<nat,
      Value>>
    decreases |buffer| - offset
  {
    if offset >= |buffer| then Some(deps)
    else
      match ReadFrame(MetaSizes(udts), buffer, offset)
      case None => None
      case Some(f) =>
        match ParseDependency(udts, deps, buffer, f)
        case None => None
        case Some(None) => ReadDependenciesFrom(udts, deps, buffer, f.start + f.size)
        case Some(Some((id, v))) =>
          if id in deps then None
          else ReadDependenciesFrom(udts, deps[id := v], buffer, f.start + f.size)
  }

  /** read_dependencies; StaticStringDependency is not part of this model. */
  method ReadDependencies(udts: seq<Udt>, buffer: seq<Byte>) returns (r: Option<map<nat, Value>>)
    ensures r == ReadDependenciesFrom(udts, map[], buffer, 0)
  {
    var hash: map<nat, Value> := map[];
    var offset: nat := 0;
    while offset < |buffer|
      invariant ReadDependenciesFrom(udts, map[], buffer, 0) == ReadDependenciesFrom(udts, hash, buffer, offset)
      decreases |buffer| - offset
    {
      var f := ReadFrame(MetaSizes(udts), buffer, offset);
      if f.None? {
        return None;
      }
      var d := ParseDependency(udts, hash, buffer, f.value);
      match d {
        case None => return None;
        case Some(None) =>
        case Some(Some((id, v))) =>
          if id in hash {
            return None;
          }
          hash := hash[id := v];
      }
      offset := f.value.start + f.value.size;
    }
    return Some(hash);
  }
}
