/** Plain old data in memory: any values fit a layout whose members do not overlap, whatever the padding; and the
    metadata of a stream, which keeps the queue's types in front. */
module TransitLayout {
  import opened Basics
  import opened Bytes
  import opened TransitQueue
  import opened TransitParser
  import opened TransitEvents

  // ---------------------------------------------------------------------------
  // Memory images exist
  // ---------------------------------------------------------------------------

  predicate Apart(m: Member, m': Member) {
    m.offset + m.size <= m'.offset || m'.offset + m'.size <= m.offset
  }

  /** Members lie inside the type and do not overlap. */
  predicate LayoutOk(ms: seq<Member>, size: nat) {
    && (forall m :: m in ms ==> m.offset + m.size <= size)
    && forall i, j :: 0 <= i < j < |ms| ==> Apart(ms[i], ms[j])
  }

  predicate StringIdLayoutOk(t: Schema) {
    StringIdOk(t) && var at := t.stringId.members[0].offset;
                     at + POINTER_SIZE <= t.lenOffset || t.lenOffset + U32_SIZE <= at
  }

  /** The bytes of a number, read as a number without sign. */
  function Raw(f: Field): nat
    requires f.NumI64? ==> Fits64(f.i)
  {
    match f
    case NumU8(n) => n
    case NumU32(n) => n
    case NumU64(n) => n
    case NumI64(i) => Unsigned64(i)
    case NumF64(bits) => bits
    case Ref(key) => key
    case StrId(ptr, _) => ptr
  }

  /** The member has the type of the field, and the field fits in it. */
  predicate FieldFits(t: Schema, m: Member, f: Field) {
    match f
    case NumU8(n) => IsNumber(m, "u8", "uint8", 1) && n < Pow256(1)
    case NumU32(n) => IsNumber(m, "u32", "uint32", 4) && n < Pow256(4)
    case NumU64(n) => IsNumber(m, "u64", "uint64", 8) && n < Pow256(8)
    case NumI64(i) => IsNumber(m, "i64", "int64", 8) && Fits64(i)
    case NumF64(bits) => IsNumber(m, "f64", "f64", 8) && bits < Pow256(8)
    case Ref(key) => m.isReference && m.size == POINTER_SIZE && key < Pow256(POINTER_SIZE)
    case StrId(ptr, len) =>
      && !m.isReference && m.typeName == "StringId" && KnowsStringId(t) && StringIdLayoutOk(t)
        && m.size == t.stringId.size
      && ptr < Pow256(POINTER_SIZE) && len < Pow256(U32_SIZE)
  }

  /** Writes one field over memory that may hold anything. */
  function WriteField(t: Schema, raw: seq<Byte>, m: Member, f: Field): (r: seq<Byte>)
    requires m.offset + m.size <= |raw| && FieldFits(t, m, f)
    ensures |r| == |raw|
  {
    match f
    case StrId(ptr, len) =>
      Overlay(Overlay(raw, m.offset + t.stringId.members[0].offset, LE(ptr, POINTER_SIZE)), m.offset + t.lenOffset,
        LE(len, U32_SIZE))
    case _ => Overlay(raw, m.offset, LE(Raw(f), m.size))
  }

  function Image(t: Schema, raw: seq<Byte>, ms: seq<Member>, fields: seq<Field>): (r: seq<Byte>)
    requires |ms| == |fields| && LayoutOk(ms, |raw|) && forall i :: 0 <= i < |ms| ==> FieldFits(t, ms[i], fields[i])
    ensures |r| == |raw|
    decreases |ms|
  {
    if ms == [] then raw
    else
      assert ms[0] in ms;
      Image(t, WriteField(t, raw, ms[0], fields[0]), ms[1..], fields[1..])
  }

  /** The same bytes where `m` stands. */
  ghost predicate SameAt(raw: seq<Byte>, raw': seq<Byte>, m: Member) {
    |raw| == |raw'| && forall i :: m.offset <= i < m.offset + m.size && i < |raw| ==> raw[i] == raw'[i]
  }

  lemma {:induction false} ReadSame(raw: seq<Byte>, raw': seq<Byte>, i: nat, k: nat)
    requires |raw| == |raw'| && i + k <= |raw| && forall j :: i <= j < i + k ==> raw[j] == raw'[j]
    ensures ReadLE(raw, i, k) == ReadLE(raw', i, k)
    decreases k
  {
    if k != 0 {
      ReadSame(raw, raw', i + 1, k - 1);
    }
  }

  lemma WriteFieldElsewhere(t: Schema, raw: seq<Byte>, m: Member, f: Field, m': Member)
    requires m.offset + m.size <= |raw| && FieldFits(t, m, f) && Apart(m', m)
    ensures SameAt(raw, WriteField(t, raw, m, f), m')
  {
  }

  lemma WriteFieldHolds(t: Schema, raw: seq<Byte>, m: Member, f: Field)
    requires m.offset + m.size <= |raw| && FieldFits(t, m, f)
    ensures HoldsField(t, WriteField(t, raw, m, f), m, f)
  {
    hide ReadLE, LE, Pow256;
    PowersOf256();
    match f
    case StrId(ptr, len) => WriteStringIdHolds(t, raw, m, ptr, len);
    case _ => ReadsBack(WriteField(t, raw, m, f), m.offset, Raw(f), m.size);
  }

  lemma WriteStringIdHolds(t: Schema, raw: seq<Byte>, m: Member, ptr: nat, len: nat)
    requires m.offset + m.size <= |raw| && FieldFits(t, m, StrId(ptr, len))
    ensures HoldsStringId(t, WriteField(t, raw, m, StrId(ptr, len)), m.offset, ptr, len)
  {
    hide ReadLE, LE, Position;
    var at := m.offset + t.stringId.members[0].offset;
    var first := Overlay(raw, at, LE(ptr, POINTER_SIZE));
    var second := Overlay(first, m.offset + t.lenOffset, LE(len, U32_SIZE));
    ReadsBack(first, at, ptr, POINTER_SIZE);
    ReadSame(first, second, at, POINTER_SIZE);
    ReadsBack(second, m.offset + t.lenOffset, len, U32_SIZE);
    hide Overlay, At;
  }

  lemma HoldsSame(t: Schema, raw: seq<Byte>, raw': seq<Byte>, m: Member, f: Field)
    requires HoldsField(t, raw, m, f) && SameAt(raw, raw', m)
    ensures HoldsField(t, raw', m, f)
  {
    match f
    case StrId(ptr, len) =>
      ReadSame(raw, raw', m.offset + t.stringId.members[0].offset, POINTER_SIZE);
      ReadSame(raw, raw', m.offset + t.lenOffset, U32_SIZE);
    case _ => ReadSame(raw, raw', m.offset, m.size);
  }

  lemma {:induction false} ImageElsewhere(t: Schema, raw: seq<Byte>, ms: seq<Member>, fields: seq<Field>, m: Member)
    requires |ms| == |fields| && LayoutOk(ms, |raw|) && forall i :: 0 <= i < |ms| ==> FieldFits(t, ms[i], fields[i])
    requires forall i :: 0 <= i < |ms| ==> Apart(m, ms[i])
    ensures SameAt(raw, Image(t, raw, ms, fields), m)
    decreases |ms|
  {
    hide FieldFits, Apart;
    if ms != [] {
      assert ms[0] in ms;
      WriteFieldElsewhere(t, raw, ms[0], fields[0], m);
      ImageElsewhere(t, WriteField(t, raw, ms[0], fields[0]), ms[1..], fields[1..], m);
    }
  }

  lemma {:induction false} ImageHolds(t: Schema, raw: seq<Byte>, ms: seq<Member>, fields: seq<Field>)
    requires |ms| == |fields| && LayoutOk(ms, |raw|) && forall i :: 0 <= i < |ms| ==> FieldFits(t, ms[i], fields[i])
    ensures forall i :: 0 <= i < |ms| ==> HoldsField(t, Image(t, raw, ms, fields), ms[i], fields[i])
    decreases |ms|
  {
    hide FieldFits, HoldsField, Apart;
    if ms != [] {
      assert ms[0] in ms;
      var first := WriteField(t, raw, ms[0], fields[0]);
      var all := Image(t, first, ms[1..], fields[1..]);
      WriteFieldHolds(t, raw, ms[0], fields[0]);
      ImageElsewhere(t, first, ms[1..], fields[1..], ms[0]);
      HoldsSame(t, first, all, ms[0], fields[0]);
      ImageHolds(t, first, ms[1..], fields[1..]);
      forall i | 0 <= i < |ms|
        ensures HoldsField(t, all, ms[i], fields[i])
      {
        if i > 0 {
          assert ms[i] == ms[1..][i - 1] && fields[i] == fields[1..][i - 1];
        }
      }
    }
  }

  /** Any fields that fit have a memory image, over any padding. */
  lemma PodImage(t: Schema, padding: seq<Byte>, udt: Udt, fields: seq<Field>)
    requires |padding| == udt.size && !udt.isReference && |udt.members| == |fields| && LayoutOk(udt.members, udt.size)
    requires forall i :: 0 <= i < |fields| ==> FieldFits(t, udt.members[i], fields[i])
    ensures HoldsPod(t, Image(t, padding, udt.members, fields), udt, fields)
  {
    ImageHolds(t, padding, udt.members, fields);
  }

  // ---------------------------------------------------------------------------
  // flatten_metadata
  // ---------------------------------------------------------------------------

  /** A type with the types of its members. */
  datatype Reflected = Reflected(udt: Udt, secondary: seq<Reflected>)

  /** extract_secondary_udts: by name, a later one replaces an earlier one. */
  function Secondary(types: map<string, Udt>, secondary: seq<Reflected>): map<string, Udt>
    decreases secondary
  {
    if secondary == [] then types
    else
      var s := secondary[0];
      Secondary(Secondary(types[s.udt.name := s.udt], s.secondary), secondary[1..])
  }

  /** All types below. */
  ghost predicate Below(secondary: seq<Reflected>, udt: Udt)
    decreases secondary
  {
    secondary != [] && (secondary[0].udt == udt || Below(secondary[0].secondary, udt) || Below(secondary[1..], udt))
  }

  method ExtractSecondary(types: map<string, Udt>, secondary: seq<Reflected>) returns (types': map<string, Udt>)
    ensures types' == Secondary(types, secondary)
    decreases secondary
  {
    types' := types;
    for i := 0 to |secondary|
      invariant Secondary(types, secondary) == Secondary(types', secondary[i..])
    {
      assert secondary[i..][1..] == secondary[i + 1..];
      types' := types'[secondary[i].udt.name := secondary[i].udt];
      types' := ExtractSecondary(types', secondary[i].secondary);
    }
  }

  function Primary(udts: seq<Reflected>): (r: seq<Udt>)
    ensures |r| == |udts|
  {
    seq(|udts|, i requires 0 <= i < |udts| => udts[i].udt)
  }

  /** The types of the queue keep their indexes, and the types of their members follow in any order. */
  ghost predicate Flattened(udts: seq<Reflected>, result: seq<Udt>) {
    && Primary(udts) <= result
    && forall udt :: udt in result[|udts|..] <==> udt.name in AllSecondary(udts) && AllSecondary(udts)[udt.name] == udt
  }

  /** flatten_metadata: the map chooses the order of the types of members. */
  method FlattenMetadata(udts: seq<Reflected>) returns (result: seq<Udt>)
    ensures Flattened(udts, result)
  {
    var secondary: map<string, Udt> := map[];
    result := [];
    for i := 0 to |udts|
      invariant AllSecondaryFrom(map[], udts) == AllSecondaryFrom(secondary, udts[i..])
      invariant result == Primary(udts)[..i]
    {
      assert udts[i..][1..] == udts[i + 1..];
      secondary := ExtractSecondary(secondary, udts[i].secondary);
      result := result + [udts[i].udt];
    }
    var left := secondary.Keys;
    while left != {}
      invariant left <= secondary.Keys && Primary(udts) <= result
      invariant forall udt :: udt in result[|udts|..] <==>
        udt.name in secondary.Keys - left && secondary[udt.name] == udt
      decreases |left|
    {
      var name :| name in left;
      ghost var before := result;
      SecondaryNames(map[], udts);
      result := result + [secondary[name]];
      left := left - {name};
      assert result[|udts|..] == before[|udts|..] + [secondary[name]];
    }
  }

  function AllSecondaryFrom(types: map<string, Udt>, udts: seq<Reflected>): map<string, Udt>
    decreases |udts|
  {
    if udts == [] then types else AllSecondaryFrom(Secondary(types, udts[0].secondary), udts[1..])
  }

  function AllSecondary(udts: seq<Reflected>): map<string, Udt> {
    AllSecondaryFrom(map[], udts)
  }

  /** Each type stands under its own name. */
  lemma {:induction false} SecondaryNames(types: map<string, Udt>, udts: seq<Reflected>)
    requires forall name :: name in types ==> types[name].name == name
    ensures forall name :: name in AllSecondaryFrom(types, udts) ==> AllSecondaryFrom(types, udts)[name].name == name
    decreases |udts|
  {
    if udts != [] {
      SecondaryNamesBelow(types, udts[0].secondary);
      SecondaryNames(Secondary(types, udts[0].secondary), udts[1..]);
    }
  }

  lemma {:induction false} SecondaryNamesBelow(types: map<string, Udt>, secondary: seq<Reflected>)
    requires forall name :: name in types ==> types[name].name == name
    ensures forall name :: name in Secondary(types, secondary) ==> Secondary(types, secondary)[name].name == name
    decreases secondary
  {
    if secondary != [] {
      var s := secondary[0];
      SecondaryNamesBelow(types[s.udt.name := s.udt], s.secondary);
      SecondaryNamesBelow(Secondary(types[s.udt.name := s.udt], s.secondary), secondary[1..]);
    }
  }

  /** Whatever is below a type of the queue is found by its name. */
  lemma {:induction false} SecondaryFound(types: map<string, Udt>, secondary: seq<Reflected>, udt: Udt)
    ensures types.Keys <= Secondary(types, secondary).Keys
    ensures Below(secondary, udt) ==> udt.name in Secondary(types, secondary)
    decreases secondary
  {
    if secondary != [] {
      var s := secondary[0];
      SecondaryFound(types[s.udt.name := s.udt], s.secondary, udt);
      SecondaryFound(Secondary(types[s.udt.name := s.udt], s.secondary), secondary[1..], udt);
    }
  }

  lemma {:induction false} AllSecondaryNamed(types: map<string, Udt>, udts: seq<Reflected>, i: nat, udt: Udt)
    requires i < |udts| && Below(udts[i].secondary, udt)
    ensures udt.name in AllSecondaryFrom(types, udts)
    decreases |udts|
  {
    SecondaryFound(types, udts[0].secondary, udt);
    if i > 0 {
      AllSecondaryNamed(Secondary(types, udts[0].secondary), udts[1..], i - 1, udt);
    } else {
      AllSecondaryKeeps(Secondary(types, udts[0].secondary), udts[1..], udt.name);
    }
  }

  /** What is found by a name is one of the types below, or was there before. */
  lemma {:induction false} SecondaryIsBelow(types: map<string, Udt>, secondary: seq<Reflected>, name: string)
    requires name in Secondary(types, secondary)
    ensures var udt := Secondary(types, secondary)[name];
            (name in types && udt == types[name]) || (Below(secondary, udt) && udt.name == name)
    decreases secondary
  {
    if secondary != [] {
      var s, rest := secondary[0], secondary[1..];
      SecondaryIsBelow(Secondary(types[s.udt.name := s.udt], s.secondary), rest, name);
      if name in Secondary(types[s.udt.name := s.udt], s.secondary) {
        SecondaryIsBelow(types[s.udt.name := s.udt], s.secondary, name);
      }
    }
  }

  ghost predicate IsSecondary(udts: seq<Reflected>, udt: Udt) {
    exists i :: 0 <= i < |udts| && Below(udts[i].secondary, udt)
  }

  lemma {:induction false} AllSecondaryIsBelow(types: map<string, Udt>, udts: seq<Reflected>, name: string)
    requires name in AllSecondaryFrom(types, udts)
    ensures var udt := AllSecondaryFrom(types, udts)[name];
            (name in types && udt == types[name]) || (IsSecondary(udts, udt) && udt.name == name)
    decreases |udts|
  {
    if udts != [] {
      AllSecondaryIsBelow(Secondary(types, udts[0].secondary), udts[1..], name);
      var udt := AllSecondaryFrom(types, udts)[name];
      if IsSecondary(udts[1..], udt) && udt.name == name {
        var i :| 0 <= i < |udts[1..]| && Below(udts[1..][i].secondary, udt);
        assert Below(udts[i + 1].secondary, udt);
      } else {
        SecondaryIsBelow(types, udts[0].secondary, name);
        assert Below(udts[0].secondary, udt) ==> IsSecondary(udts, udt);
      }
    }
  }

  /** All types below the types of a queue are found, each under its own name, exactly when no two have one name. */
  lemma AllSecondaryFound(udts: seq<Reflected>)
    ensures (forall udt :: IsSecondary(udts, udt) ==>
                             udt.name in AllSecondary(udts) && AllSecondary(udts)[udt.name] == udt)
        <==> forall u, v :: IsSecondary(udts, u) && IsSecondary(udts, v) && u.name == v.name ==> u == v
  {
    if forall u, v :: IsSecondary(udts, u) && IsSecondary(udts, v) && u.name == v.name ==> u == v {
      forall udt | IsSecondary(udts, udt)
        ensures udt.name in AllSecondary(udts) && AllSecondary(udts)[udt.name] == udt
      {
        var i :| 0 <= i < |udts| && Below(udts[i].secondary, udt);
        AllSecondaryNamed(map[], udts, i, udt);
        AllSecondaryIsBelow(map[], udts, udt.name);
      }
    }
  }

  lemma {:induction false} AllSecondaryKeeps(types: map<string, Udt>, udts: seq<Reflected>, name: string)
    requires name in types
    ensures name in AllSecondaryFrom(types, udts)
    decreases |udts|
  {
    if udts != [] {
      SecondaryFound(types, udts[0].secondary, Udt(name, 0, [], false));
      AllSecondaryKeeps(Secondary(types, udts[0].secondary), udts[1..], name);
    }
  }
}
