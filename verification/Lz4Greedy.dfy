/** The sequences that LZ4_compress_generic_validated of lz4.c makes, as a function of the input, of the table it
    starts with and of the acceleration. The room in the output has no part in it: a limited output takes all of
    them or none, a filled one as many as fit. */
module Lz4Greedy {
  import opened Basics
  import opened Lz4Format
  import opened Lz4Emit

  datatype TableType = ClearedTable | ByU32 | ByU16

  const LZ4_MIN_LENGTH := MFLIMIT + 1
  const LZ4_HASH_SLOTS_U16 := 8192
  const LZ4_HASH_SLOTS_U32 := 4096

  type Pos = n: nat | 1 <= n witness 1

  /** One input: `start` is the index of its first byte. The hash is any function. */
  datatype Job = Job(hash: seq<Byte> -> nat, s: seq<Byte>, start: nat, tableType: TableType, acceleration: Pos)

  type Table = t: seq<nat> | |t| == LZ4_HASH_SLOTS_U16 witness seq(LZ4_HASH_SLOTS_U16, _ => 0)

  // ---------------------------------------------------------------------------
  // The table
  // ---------------------------------------------------------------------------

  function Slots(t: TableType): nat { if t.ByU16? then LZ4_HASH_SLOTS_U16 else LZ4_HASH_SLOTS_U32 }

  /** LZ4_hashPosition: four bytes are hashed for 16-bit indexes, eight for 32-bit ones. */
  function HashPosition(hash: seq<Byte> -> nat, s: seq<Byte>, p: nat, t: TableType): (h: nat)
    requires p + 8 <= |s|
    ensures h < LZ4_HASH_SLOTS_U16
  {
    hash(s[p..p + if t.ByU16? then 4 else 8]) % Slots(t)
  }

  function EmptyTable(): Table { seq(LZ4_HASH_SLOTS_U16, _ => 0) }

  /** LZ4_prepareTable: the table and the index of the next byte for an input of `n` bytes. A table that was used
      is cleared for another kind of indexes, where the indexes could overflow, and for 4 KB or more. */
  function Prepared(table: Table, offset: nat, was: TableType, n: nat, t: TableType): (Table, nat) {
    if !was.ClearedTable? && (was != t || (t.ByU16? && offset + n >= 0xFFFF) || (t.ByU32? && offset > 0x4000_0000)
        || n >= 4096)
    then (EmptyTable(), 0)
    else (table, if offset != 0 && t.ByU32? then offset + 65536 else offset)
  }

  /** The slot of position `p`. */
  function Slot(j: Job, p: nat): (h: nat)
    requires p + 8 <= |j.s|
    ensures h < LZ4_HASH_SLOTS_U16
  {
    HashPosition(j.hash, j.s, p, j.tableType)
  }

  /** 13 bits of four bytes, or 12 bits of eight. */
  lemma SlotIs(j: Job, p: nat)
    requires p + 8 <= |j.s|
    ensures Slot(j, p) == if j.tableType == ByU16 then j.hash(j.s[p..p + 4]) % 8192 else j.hash(j.s[p..p + 8]) % 4096
  {
  }

  /** The table once position `p` is recorded. */
  function Put(j: Job, table: Table, p: nat): Table
    requires p + 8 <= |j.s|
  {
    table[Slot(j, p) := j.start + p]
  }

  /** The index `e` that stood in the slot of `ip` stands for four equal bytes of this input within reach. */
  predicate Usable(j: Job, e: nat, ip: nat)
    requires ip + 8 <= |j.s|
  {
    && j.start <= e < j.start + ip
    && (j.tableType.ByU32? ==> j.start + ip <= e + 65535)
    && j.s[e - j.start..e - j.start + 4] == j.s[ip..ip + 4]
  }

  // ---------------------------------------------------------------------------
  // The search
  // ---------------------------------------------------------------------------

  /** How far the probe after the first `i` ones is from the next: the first step is 1, and after every 64 failures
      the steps grow by one. */
  function Stride(acceleration: Pos, i: nat): Pos { if i == 0 then 1 else (64 * acceleration + i - 1) / 64 }

  datatype Search = NotFound | Found(ip: nat, m: nat, table: Table)

  /** Probes `ip` and what follows it until an index can be used or the end is near. */
  function FirstMatch(j: Job, table: Table, ip: nat, i: nat): (r: Search)
    requires ip + 11 <= |j.s|
    ensures r.Found? ==> ip <= r.ip && r.ip + MFLIMIT <= |j.s| && r.m < r.ip
    decreases |j.s| - ip
  {
    var next := ip + Stride(j.acceleration, i);
    if next + 11 > |j.s| then NotFound
    else if Usable(j, table[Slot(j, ip)], ip) then Found(ip, table[Slot(j, ip)] - j.start, Put(j, table, ip))
    else FirstMatch(j, Put(j, table, ip), next, i + 1)
  }

  /** One probe. */
  lemma ProbeOnce(j: Job, table: Table, ip: nat, i: nat)
    requires ip + 11 <= |j.s|
    ensures var next, e := ip + Stride(j.acceleration, i), table[Slot(j, ip)];
            FirstMatch(j, table, ip, i) ==
              if next + 11 > |j.s| then NotFound
              else if Usable(j, e, ip) then Found(ip, e - j.start, Put(j, table, ip))
              else FirstMatch(j, Put(j, table, ip), next, i + 1)
  {
    hide Usable, Slot, Stride;
  }

  lemma StrideNext(acceleration: Pos, i: nat)
    ensures Stride(acceleration, i + 1) == (acceleration * 64 + i) / 64 && Stride(acceleration, 0) == 1
  {
  }

  /** The positions that are probed as long as nothing can be used, each with the index that stands in its slot. */
  function Probes(j: Job, table: Table, ip: nat, i: nat): (ps: seq<(nat, nat)>)
    requires ip + 11 <= |j.s|
    ensures forall n :: 0 <= n < |ps| ==> ip <= ps[n].0 && ps[n].0 + MFLIMIT <= |j.s|
    decreases |j.s| - ip
  {
    var next := ip + Stride(j.acceleration, i);
    if next + 11 > |j.s| then []
    else [(ip, table[Slot(j, ip)])] + Probes(j, Put(j, table, ip), next, i + 1)
  }

  /** The search gives the first probe whose index can be used, and fails only if there is none. */
  lemma {:induction false} FirstMatchIsFirst(j: Job, table: Table, ip: nat, i: nat) returns (n: nat)
    requires ip + 11 <= |j.s|
    ensures var ps, r := Probes(j, table, ip, i), FirstMatch(j, table, ip, i);
            && n <= |ps| && (forall k :: 0 <= k < n ==> !Usable(j, ps[k].1, ps[k].0))
            && (r.NotFound? <==> n == |ps|)
            && (r.Found? ==> ps[n] == (r.ip, r.m + j.start) && Usable(j, ps[n].1, ps[n].0))
    decreases |j.s| - ip
  {
    hide Usable, Slot, Stride;
    var next, e := ip + Stride(j.acceleration, i), table[Slot(j, ip)];
    if next + 11 > |j.s| {
      n := 0;
    } else if Usable(j, e, ip) {
      UsableIsBelow(j, e, ip);
      n := 0;
    } else {
      var rest := Probes(j, Put(j, table, ip), next, i + 1);
      n := FirstMatchIsFirst(j, Put(j, table, ip), next, i + 1);
      n := n + 1;
      var ps := Probes(j, table, ip, i);
      assert ps == [(ip, e)] + rest;
      forall k | 0 <= k < n
        ensures !Usable(j, ps[k].1, ps[k].0)
      {
        if k != 0 { assert ps[k] == rest[k - 1]; }
      }
    }
  }

  lemma UsableIsBelow(j: Job, e: nat, ip: nat)
    requires ip + 8 <= |j.s| && Usable(j, e, ip)
    ensures j.start <= e < j.start + ip
  {
  }

  // ---------------------------------------------------------------------------
  // Runs that agree
  // ---------------------------------------------------------------------------

  /** How many bytes agree from `p` and `q` on, before `limit`. */
  function CommonRun(s: seq<Byte>, p: nat, q: nat, limit: nat): (n: nat)
    requires p <= q <= limit <= |s|
    ensures q + n <= limit
    decreases limit - q
  {
    if q < limit && s[p] == s[q] then 1 + CommonRun(s, p + 1, q + 1, limit) else 0
  }

  /** How many bytes agree before `m` and `ip`, down to `anchor` or to the start. */
  function BackRun(s: seq<Byte>, anchor: nat, m: nat, ip: nat): (n: nat)
    requires anchor <= ip <= |s| && m <= ip
    ensures n <= m && anchor + n <= ip
  {
    if anchor < ip && 0 < m && s[m - 1] == s[ip - 1] then 1 + BackRun(s, anchor, m - 1, ip - 1) else 0
  }

  lemma {:induction false} LongestIsCommonRun(s: seq<Byte>, p: nat, q: nat, limit: nat, n: nat)
    requires p <= q <= limit <= |s| && q + n <= limit && SameRun(s, p, q, n)
    requires q + n < limit ==> s[p + n] != s[q + n]
    ensures n == CommonRun(s, p, q, limit)
    decreases n
  {
    if n != 0 {
      assert s[q] == s[p + (q - q)];
      assert forall i :: q + 1 <= i < q + n ==> s[i] == s[p + (i - q)];
      LongestIsCommonRun(s, p + 1, q + 1, limit, n - 1);
    }
  }

  // ---------------------------------------------------------------------------
  // The parse
  // ---------------------------------------------------------------------------

  /** How many bytes of the input some sequences stand for. */
  function Span(qs: seq<Sequence>): nat {
    if qs == [] then 0 else |qs[0].literals| + qs[0].matchLength + Span(qs[1..])
  }

  /** The sequences from `anchor` on when the search goes on at `from`. */
  function Greedy(j: Job, table: Table, from: nat, anchor: nat): (qs: seq<Sequence>)
    requires anchor <= from && from + 11 <= |j.s|
    ensures qs != [] ==> anchor + Span(qs) + LASTLITERALS <= |j.s|
    decreases |j.s| - anchor, 2
  {
    match FirstMatch(j, table, from, 0)
    case NotFound => []
    case Found(ip, m, table') =>
      var back := BackRun(j.s, anchor, m, ip);
      AtMatch(j, table', ip - back, m - back, anchor)
  }

  /** The sequences from `anchor` on when the first match is the one at `ip` with `m`, as long as it can be. */
  function AtMatch(j: Job, table: Table, ip: nat, m: nat, anchor: nat): (qs: seq<Sequence>)
    requires anchor <= ip && ip + MFLIMIT <= |j.s| && m < ip
    ensures qs != [] && anchor + Span(qs) + LASTLITERALS <= |j.s|
    decreases |j.s| - anchor, 1
  {
    var q := MatchAt(j.s, ip, m, anchor);
    [q] + AfterMatch(j, table, ip + q.matchLength)
  }

  function MatchAt(s: seq<Byte>, ip: nat, m: nat, anchor: nat): (q: Sequence)
    requires anchor <= ip && ip + MFLIMIT <= |s| && m < ip
    ensures |q.literals| == ip - anchor && MINMATCH <= q.matchLength && ip + q.matchLength + LASTLITERALS <= |s|
  {
    Sequence(s[anchor..ip], ip - m, MINMATCH + CommonRun(s, m + MINMATCH, ip + MINMATCH, |s| - LASTLITERALS))
  }

  /** The sequences behind a match that ends at `end`: the next one may start at once. */
  function AfterMatch(j: Job, table: Table, end: nat): (qs: seq<Sequence>)
    requires 2 <= end <= |j.s|
    ensures qs != [] ==> end + Span(qs) + LASTLITERALS <= |j.s|
    decreases |j.s| - end, 3
  {
    if end + 11 >= |j.s| then []
    else
      var table1 := Put(j, table, end - 2);
      var e, table2 := table1[Slot(j, end)], Put(j, table1, end);
      if Usable(j, e, end) then AtMatch(j, table2, end, e - j.start, end)
      else Greedy(j, table2, end + 1, end)
  }

  /** All the sequences of an input. */
  function Sequences(j: Job, table: Table): (qs: seq<Sequence>)
    ensures qs != [] ==> Span(qs) + LASTLITERALS <= |j.s|
  {
    if |j.s| < LZ4_MIN_LENGTH then [] else Greedy(j, Put(j, table, 0), 1, 0)
  }

  // ---------------------------------------------------------------------------
  // The block
  // ---------------------------------------------------------------------------

  /** The bytes of a token, of a literal length and of the literals. */
  function HeadSize(literals: nat): nat { 1 + (literals + 240) / 255 + literals }

  /** The bytes of a sequence: a match length is written less four. */
  function SequenceSize(q: Sequence): nat { HeadSize(|q.literals|) + 2 + (q.matchLength + 236) / 255 }

  function Size(qs: seq<Sequence>): nat {
    if qs == [] then 0 else SequenceSize(qs[0]) + Size(qs[1..])
  }

  /** The size of a block for `n` bytes that begins with these sequences. */
  function BlockSize(qs: seq<Sequence>, n: nat): (size: nat)
    requires Span(qs) <= n
  {
    Size(qs) + HeadSize(n - Span(qs))
  }

  /** The sequences that are put into an output with room for `room` more bytes when it is to be filled: those that
      leave room for 11 bytes behind their literals and for 6 behind their match, and of the first that does not
      leave the 6 as much as does. */
  function Fill(qs: seq<Sequence>, room: nat): seq<Sequence> {
    if qs == [] || HeadSize(|qs[0].literals|) + 11 > room then []
    else if SequenceSize(qs[0]) + 6 > room then
      [qs[0].(matchLength := 18 + (room - HeadSize(|qs[0].literals|) - 8) * 255)]
    else [qs[0]] + Fill(qs[1..], room - SequenceSize(qs[0]))
  }

  /** What an output takes of the sequences. */
  function Taken(fill: bool, qs: seq<Sequence>, room: nat): seq<Sequence> { if fill then Fill(qs, room) else qs }

  lemma TakenFits(fill: bool, q: Sequence, rest: seq<Sequence>, room: nat)
    requires fill ==> HeadSize(|q.literals|) + 11 <= room
    requires SequenceSize(q) <= room && (fill ==> SequenceSize(q) + 6 <= room)
    ensures Taken(fill, [q] + rest, room) == [q] + Taken(fill, rest, room - SequenceSize(q))
  {
    hide HeadSize, SequenceSize;
    assert ([q] + rest)[1..] == rest;
  }

  /** Behind a match that was cut there is no room for another sequence. */
  lemma TakenCut(q: Sequence, rest: seq<Sequence>, other: seq<Sequence>, room: nat)
    requires HeadSize(|q.literals|) + 11 <= room < SequenceSize(q) + 6
    ensures var cut := q.(matchLength := 18 + (room - HeadSize(|q.literals|) - 8) * 255);
            && SequenceSize(cut) == room - 6
            && Taken(true, [q] + rest, room) == [cut] + Taken(true, other, 6)
  {
    assert ([q] + rest)[1..] == rest;
  }

  lemma TakenNone(fill: bool, room: nat)
    ensures Taken(fill, [], room) == []
  {
  }

  lemma GreedyStep(j: Job, table: Table, from: nat, anchor: nat)
    requires anchor <= from && from + 11 <= |j.s|
    ensures match FirstMatch(j, table, from, 0)
            case NotFound => Greedy(j, table, from, anchor) == []
            case Found(ip, m, table') =>
              var back := BackRun(j.s, anchor, m, ip);
              Greedy(j, table, from, anchor) == AtMatch(j, table', ip - back, m - back, anchor)
  {
    hide AtMatch, FirstMatch, BackRun;
  }

  /** What an output takes from a match on. */
  lemma TakenAtMatch(fill: bool, j: Job, table: Table, ip: nat, m: nat, anchor: nat, room: nat)
    requires anchor <= ip && ip + MFLIMIT <= |j.s| && m < ip
    ensures var q, qs := MatchAt(j.s, ip, m, anchor), AtMatch(j, table, ip, m, anchor);
            && SequenceSize(q) <= Size(qs)
            && (fill && HeadSize(ip - anchor) + 11 > room ==> Taken(fill, qs, room) == [])
            && ((if fill then HeadSize(ip - anchor) + 11 <= room && SequenceSize(q) + 6 <= room
                 else SequenceSize(q) <= room) ==>
                Taken(fill, qs, room)
                == [q] + Taken(fill, AfterMatch(j, table, ip + q.matchLength), room - SequenceSize(q)))
  {
    hide AfterMatch, SequenceSize, HeadSize;
    var q := MatchAt(j.s, ip, m, anchor);
    var rest := AfterMatch(j, table, ip + q.matchLength);
    SizeBoth([q], rest);
    SizeSnoc([], q);
    assert [] + [q] == [q];
    if if fill then HeadSize(ip - anchor) + 11 <= room && SequenceSize(q) + 6 <= room else SequenceSize(q) <= room {
      TakenFits(fill, q, rest, room);
    }
  }

  lemma TakenCutAtMatch(j: Job, table: Table, ip: nat, m: nat, anchor: nat, room: nat, other: seq<Sequence>)
    requires anchor <= ip && ip + MFLIMIT <= |j.s| && m < ip
    requires HeadSize(ip - anchor) + 11 <= room < SequenceSize(MatchAt(j.s, ip, m, anchor)) + 6
    ensures var q := MatchAt(j.s, ip, m, anchor);
            var cut := q.(matchLength := 18 + (room - HeadSize(ip - anchor) - 8) * 255);
            && SequenceSize(cut) == room - 6
            && Taken(true, AtMatch(j, table, ip, m, anchor), room) == [cut] + Taken(true, other, 6)
  {
    hide AfterMatch, SequenceSize, HeadSize, Taken;
    var q := MatchAt(j.s, ip, m, anchor);
    TakenCut(q, AfterMatch(j, table, ip + q.matchLength), other, room);
  }

  /** With nine more bytes than they take, all sequences are taken. */
  lemma {:induction false} FillTakesAll(qs: seq<Sequence>, room: nat)
    requires Size(qs) + 9 <= room
    ensures Fill(qs, room) == qs
  {
    if qs != [] {
      assert Size(qs) == SequenceSize(qs[0]) + Size(qs[1..]);
      FillTakesAll(qs[1..], room - SequenceSize(qs[0]));
    }
  }

  lemma {:induction false} SizeSnoc(qs: seq<Sequence>, q: Sequence)
    ensures Size(qs + [q]) == Size(qs) + SequenceSize(q)
    ensures Span(qs + [q]) == Span(qs) + |q.literals| + q.matchLength
  {
    hide SequenceSize;
    if qs == [] {
      assert qs + [q] == [q];
    } else {
      assert (qs + [q])[1..] == qs[1..] + [q];
      SizeSnoc(qs[1..], q);
    }
  }

  lemma {:induction false} SizeBoth(qs: seq<Sequence>, rest: seq<Sequence>)
    ensures Size(qs + rest) == Size(qs) + Size(rest)
    ensures Span(qs + rest) == Span(qs) + Span(rest)
  {
    hide SequenceSize;
    if qs == [] {
      assert qs + rest == rest;
    } else {
      assert (qs + rest)[1..] == qs[1..] + rest;
      SizeBoth(qs[1..], rest);
    }
  }

  /** The size is that of the bytes, and the span that of the content. */
  lemma {:induction false} SizeIsLength(qs: seq<Sequence>)
    requires Valid(qs)
    ensures |SequencesBytes(qs)| == Size(qs) && |Replay(qs)| == Span(qs)
  {
    hide SequenceSize, ExtBytes, CopyMatch, Size, Span;
    if qs == [] {
      assert Size(qs) == 0 && Span(qs) == 0 by { SizeOfNone(); }
    } else {
      var init, q := qs[..|qs| - 1], qs[|qs| - 1];
      assert qs == init + [q];
      SizeIsLength(init);
      SizeSnoc(init, q);
      SequenceSizeIsLength(q);
    }
  }

  lemma SizeOfNone()
    ensures Size([]) == Span([]) == 0
  {
  }

  lemma SequenceSizeIsLength(q: Sequence)
    requires Writable(q)
    ensures |SequenceBytes(q)| == SequenceSize(q)
  {
    hide ExtBytes;
  }

  // ---------------------------------------------------------------------------
  // What the search is good for
  // ---------------------------------------------------------------------------

  lemma {:induction false} EqualRun(s: seq<Byte>, p: nat, q: nat, limit: nat)
    requires p <= q <= limit <= |s| && forall i :: 0 <= i < |s| ==> s[i] == s[0]
    ensures CommonRun(s, p, q, limit) == limit - q
    decreases limit - q
  {
    if q < limit {
      EqualRun(s, p + 1, q + 1, limit);
    }
  }

  /** The second byte is the first probe, and finds the first one in its slot. */
  lemma EqualSearch(j: Job, table: Table)
    requires LZ4_MIN_LENGTH <= |j.s| && forall i :: 0 <= i < |j.s| ==> j.s[i] == j.s[0]
    ensures FirstMatch(j, Put(j, table, 0), 1, 0) == Found(1, 0, Put(j, Put(j, table, 0), 1))
  {
    assert Slot(j, 0) == Slot(j, 1) by {
      var width := if j.tableType.ByU16? then 4 else 8;
      assert j.s[0..0 + width] == j.s[1..1 + width];
    }
    assert Usable(j, j.start, 1) by {
      assert j.s[0..4] == j.s[1..5];
    }
    hide Slot, Usable;
    assert Put(j, table, 0)[Slot(j, 1)] == j.start;
  }

  /** Equal bytes are one literal and one match, whatever the hash, the table and the acceleration. */
  lemma EqualBytes(j: Job, table: Table)
    requires LZ4_MIN_LENGTH <= |j.s| && forall i :: 0 <= i < |j.s| ==> j.s[i] == j.s[0]
    ensures Sequences(j, table) == [Sequence([j.s[0]], 1, |j.s| - 6)]
    ensures BlockSize(Sequences(j, table), |j.s|) == 10 + (|j.s| + 230) / 255
  {
    hide Slot, Put, FirstMatch, Usable, CommonRun;
    var n, table1, table2 := |j.s|, Put(j, table, 0), Put(j, Put(j, table, 0), 1);
    EqualSearch(j, table);
    EqualRun(j.s, 4, 5, n - LASTLITERALS);
    assert j.s[0..1] == [j.s[0]];
    var q := Sequence([j.s[0]], 1, n - 6);
    assert MatchAt(j.s, 1, 0, 0) == q;
    assert AfterMatch(j, table2, n - 5) == [];
    assert AtMatch(j, table2, 1, 0, 0) == [q];
    assert Sequences(j, table) == Greedy(j, table1, 1, 0) == [q];
    SizeSnoc([], q);
    assert [] + [q] == [q];
  }

  ghost predicate FourAgree(s: seq<Byte>, p: nat, q: nat)
    requires p + 4 <= |s| && q + 4 <= |s|
  {
    s[p..p + 4] == s[q..q + 4]
  }

  /** No four bytes come twice within reach. */
  ghost predicate NoRepeat(s: seq<Byte>) {
    forall p, q :: 0 <= p < q <= p + 65535 && q + 12 <= |s| ==> !FourAgree(s, p, q)
  }

  /** Where no four bytes come twice within reach there is nothing but literals. */
  lemma NoRepeatIsLiterals(j: Job, table: Table)
    requires NoRepeat(j.s) && (j.tableType.ByU32? || |j.s| < 65536 + 11)
    ensures Sequences(j, table) == [] && BlockSize([], |j.s|) == 1 + (|j.s| + 240) / 255 + |j.s|
  {
    if LZ4_MIN_LENGTH <= |j.s| {
      NoMatch(j, Put(j, table, 0), 1, 0);
    }
  }

  lemma {:induction false} NoMatch(j: Job, table: Table, ip: nat, i: nat)
    requires NoRepeat(j.s) && (j.tableType.ByU32? || |j.s| < 65536 + 11) && ip + 11 <= |j.s|
    ensures FirstMatch(j, table, ip, i).NotFound?
    decreases |j.s| - ip
  {
    hide Slot, Stride;
    var next := ip + Stride(j.acceleration, i);
    if next + 11 <= |j.s| {
      var e := table[Slot(j, ip)];
      assert Usable(j, e, ip) ==> FourAgree(j.s, e - j.start, ip);
      NoMatch(j, Put(j, table, ip), next, i + 1);
    }
  }
}
