/** LZ4_compress_generic_validated of lz4.c without dictionary: tables of 16-bit and 32-bit indexes, unlimited,
    limited and fill-output modes, and a context that may be used again. The hash is any function. */
module Lz4Encoder {
  import opened Basics
  import opened Lz4Format
  import opened Lz4Copy
  import opened Lz4Emit
  import opened Lz4Greedy

  datatype OutputDirective = NotLimited | LimitedOutput | FillOutput

  const LZ4_64K_LIMIT := 65536 + (MFLIMIT - 1)
  const LZ4_ACCELERATION_MAX := 65537
  const KB := 1024
  const GB := 0x4000_0000

  function WorstCase(n: nat): nat { n + n / 255 + 16 }

  /** LZ4_COMPRESSBOUND. */
  function CompressBound(n: nat): nat { if n > LZ4_MAX_INPUT_SIZE then 0 else WorstCase(n) }

  // ---------------------------------------------------------------------------
  // The hash table
  // ---------------------------------------------------------------------------

  /** An index in slot `h`: left from before `start`, never written, or a position below `top` that hashes to `h`. */
  ghost predicate EntryOk(hash: seq<Byte> -> nat, s: seq<Byte>, start: nat, t: TableType, top: nat, h: nat, e: nat) {
    || (e < start && (t.ByU32? ==> e + LZ4_DISTANCE_MAX < start))
    || (start == 0 && e == 0)
    || (start <= e < start + top && e - start + 8 <= |s| && HashPosition(hash, s, e - start, t) == h)
  }

  /** How a block is compressed: `start` is the index of its first byte. */
  datatype Mode = Mode(directive: OutputDirective, start: nat, tableType: TableType, dictSmall: bool)

  /** Indexes fit their table; 16-bit indexes left from before are told apart; a filled block starts afresh. */
  predicate ModeOk(k: Mode, n: nat) {
    && !k.tableType.ClearedTable?
    && (k.tableType.ByU16? ==> (k.start == 0 || k.dictSmall) && k.start + n < LZ4_64K_LIMIT)
    && (k.tableType.ByU32? ==> k.start + n < U32_MODULUS)
    && (k.directive.FillOutput? ==> k.start == 0)
  }

  /** What the search is about. */
  ghost predicate IsJob(j: Job, hash: seq<Byte> -> nat, s: seq<Byte>, k: Mode) {
    j.hash == hash && j.s == s && j.start == k.start && j.tableType == k.tableType
  }

  /** A match of at least `n` bytes at `ip` that the format can express. */
  ghost predicate IsMatch(s: seq<Byte>, m: nat, ip: nat, n: nat) {
    m < ip <= m + LZ4_DISTANCE_MAX && SameRun(s, m, ip, n)
  }

  /** LZ4_stream_t_internal. */
  class Stream {
    const hash: seq<Byte> -> nat
    const hashTable: array<nat>
    var currentOffset: nat
    var tableType: TableType
    var dictSize: nat

    ghost predicate Indexed(s: seq<Byte>, start: nat, t: TableType, top: nat)
      reads hashTable
    {
      && hashTable.Length == LZ4_HASH_SLOTS_U16
      && forall h :: 0 <= h < hashTable.Length ==> EntryOk(hash, s, start, t, top, h, hashTable[h])
    }

    /** Between two blocks: an unused table is zeroed, a used one holds indexes below the current offset. */
    ghost predicate Ready()
      reads this, hashTable
    {
      && hashTable.Length == LZ4_HASH_SLOTS_U16 && currentOffset < U32_MODULUS
      && (tableType.ClearedTable? ==> currentOffset == 0)
      && forall h :: 0 <= h < hashTable.Length ==> hashTable[h] < currentOffset || hashTable[h] == currentOffset == 0
    }

    /** LZ4_initStream. */
    constructor (hash: seq<Byte> -> nat)
      ensures Ready() && fresh(hashTable) && this.hash == hash
      ensures currentOffset == 0 && dictSize == 0 && forall s: seq<Byte>, t: TableType :: Indexed(s, 0, t, 0)
      ensures hashTable[..] == EmptyTable()
    {
      this.hash := hash;
      hashTable := new nat[LZ4_HASH_SLOTS_U16](_ => 0);
      currentOffset, tableType, dictSize := 0, ClearedTable, 0;
    }

    /** LZ4_prepareTable: keeps the table only if none of its indexes can be mistaken for one of the next input. */
    method PrepareTable(inputSize: nat, t: TableType)
      requires Ready() && !t.ClearedTable?
      modifies this, hashTable
      ensures Ready() && dictSize == 0
      ensures forall s: seq<Byte> :: Indexed(s, currentOffset, t, 0)
      ensures t.ByU16? ==> currentOffset == 0 || currentOffset + inputSize < 0xFFFF
      ensures t.ByU32? ==> currentOffset <= GB + 64 * KB
      ensures (hashTable[..], currentOffset)
        == Prepared(old(hashTable[..]), old(currentOffset), old(tableType), inputSize, t)
    {
      if !tableType.ClearedTable?
         && (tableType != t
             || (t.ByU16? && currentOffset + inputSize >= 0xFFFF)
             || (t.ByU32? && currentOffset > GB)
             || inputSize >= 4 * KB)
      {
        forall h | 0 <= h < hashTable.Length {
          hashTable[h] := 0;
        }
        currentOffset, tableType := 0, ClearedTable;
        assert hashTable[..] == EmptyTable();
      }
      if currentOffset != 0 && t.ByU32? {
        currentOffset := currentOffset + 64 * KB;
      }
      dictSize := 0;
    }

    lemma IndexedIsReady(s: seq<Byte>, start: nat, t: TableType)
      requires Indexed(s, start, t, |s|) && 1 <= |s| && currentOffset == start + |s| < U32_MODULUS
      requires !tableType.ClearedTable?
      ensures Ready()
    {
      hide HashPosition;
      forall h | 0 <= h < hashTable.Length
        ensures hashTable[h] < currentOffset
      {
        assert EntryOk(hash, s, start, t, |s|, h, hashTable[h]);
      }
    }

    lemma IndexedMore(s: seq<Byte>, start: nat, t: TableType, top: nat, top': nat)
      requires Indexed(s, start, t, top) && top <= top'
      ensures Indexed(s, start, t, top')
    {
      hide HashPosition;
    }

    /** LZ4_putIndexOnHash of position `p`. */
    method Put(ghost s: seq<Byte>, start: nat, t: TableType, ghost top: nat, p: nat, h: nat)
      requires Indexed(s, start, t, top) && p < top && p + 8 <= |s| && h == HashPosition(hash, s, p, t)
      requires start + p < if t.ByU16? then 0x1_0000 else U32_MODULUS
      modifies hashTable
      ensures Indexed(s, start, t, top) && hashTable[..] == old(hashTable[..])[h := start + p]
    {
      hide HashPosition;
      hashTable[h] := start + p;
    }

    /** Looks up the candidate for position `ip`, records `ip` in its place, and tests the candidate. */
    method Candidate(src: array<Byte>, start: nat, t: TableType, dictSmall: bool, ip: nat, h: nat)
      returns (found: bool, m: nat)
      requires 1 <= ip && ip + 8 <= src.Length && h == HashPosition(hash, src[..], ip, t)
      requires Indexed(src[..], start, t, ip)
      requires t.ByU32? || (t.ByU16? && (dictSmall || start == 0))
      requires start + ip < if t.ByU16? then 0x1_0000 else U32_MODULUS
      modifies hashTable
      ensures Indexed(src[..], start, t, ip + 1) && hashTable[..] == old(hashTable[..])[h := start + ip]
      ensures var e := old(hashTable[h]);
        && (found <==>
            && start <= e < start + ip && (t.ByU32? ==> start + ip <= e + 65535)
            && src[e - start..e - start + 4] == src[ip..ip + 4])
        && (found ==> m == e - start && IsMatch(src[..], m, ip, MINMATCH))
    {
      hide HashPosition;
      ghost var s := src[..];
      var matchIndex := hashTable[h];
      assert EntryOk(hash, s, start, t, ip, h, matchIndex);
      IndexedMore(s, start, t, ip, ip + 1);
      Put(s, start, t, ip + 1, ip, h);
      if dictSmall && matchIndex < start {
        return false, 0;
      }
      if t.ByU32? && matchIndex + LZ4_DISTANCE_MAX < start + ip {
        return false, 0;
      }
      m := matchIndex - start;
      SameBytesRun(s, m, ip, MINMATCH);
      found := SameBytes(src[..], m, ip, MINMATCH);
      assert s[m..m + 4] == src[m..m + 4] && s[ip..ip + 4] == src[ip..ip + 4];
    }

    /** Forgets the positions [from, last], so that no index points past `from`. */
    method ClearPositions(src: array<Byte>, t: TableType, ghost top: nat, from: nat, last: nat)
      requires last + 8 <= src.Length && Indexed(src[..], 0, t, top)
      modifies hashTable
      ensures Indexed(src[..], 0, t, if from < top <= last + 1 then from else top)
    {
      hide HashPosition;
      ghost var s := src[..];
      var ptr := from;
      while ptr <= last
        invariant from <= ptr && Indexed(s, 0, t, top)
        invariant forall h :: 0 <= h < hashTable.Length ==> hashTable[h] == 0 || !(from <= hashTable[h] < ptr)
        decreases last + 1 - ptr
      {
        var h := HashPosition(hash, src[..], ptr, t);
        assert EntryOk(hash, s, 0, t, top, h, hashTable[h]);
        hashTable[h] := 0;
        ptr := ptr + 1;
      }
    }

    /** The search loop: steps grow with the number of failed attempts. */
    method FindMatch(src: array<Byte>, k: Mode, acceleration: Pos, from: nat, ghost j: Job)
      returns (found: bool, ip: nat, m: nat)
      requires ModeOk(k, src.Length) && 1 <= from && from + 11 <= src.Length
      requires IsJob(j, hash, src[..], k) && j.acceleration == acceleration
      requires Indexed(src[..], k.start, k.tableType, from)
      modifies hashTable
      ensures found ==> from <= ip && ip + MFLIMIT <= src.Length && IsMatch(src[..], m, ip, MINMATCH)
      ensures Indexed(src[..], k.start, k.tableType, if found then ip + 1 else src.Length)
      ensures match FirstMatch(j, old(hashTable[..]), from, 0)
              case NotFound => !found
              case Found(ip', m', table) => found && ip == ip' && m == m' && hashTable[..] == table
    {
      hide HashPosition, IsMatch, Probes, EntryOk, FirstMatch, Stride;
      var forwardIp, step, searchMatchNb := from, 1, acceleration * 64;
      ghost var i, whole := 0, FirstMatch(j, hashTable[..], from, 0);
      StrideNext(acceleration, 0);
      var forwardH := HashPosition(hash, src[..], forwardIp, k.tableType);
      while true
        invariant from <= forwardIp && forwardIp + 11 <= src.Length && 1 <= step && 64 <= searchMatchNb
        invariant Indexed(src[..], k.start, k.tableType, forwardIp)
        invariant forwardH == HashPosition(hash, src[..], forwardIp, k.tableType)
        invariant step == Stride(acceleration, i) && searchMatchNb == acceleration * 64 + i
        invariant FirstMatch(j, hashTable[..], forwardIp, i) == whole
        decreases src.Length - forwardIp
      {
        var h := forwardH;
        ProbeOnce(j, hashTable[..], forwardIp, i);
        StrideNext(acceleration, i);
        ip := forwardIp;
        forwardIp := forwardIp + step;
        step := searchMatchNb / 64;
        searchMatchNb := searchMatchNb + 1;
        if forwardIp + 11 > src.Length {
          IndexedMore(src[..], k.start, k.tableType, ip, src.Length);
          return false, ip, 0;
        }
        ghost var e := hashTable[h];
        found, m := Candidate(src, k.start, k.tableType, k.dictSmall, ip, h);
        assert found <==> Usable(j, e, ip);
        i := i + 1;
        forwardH := HashPosition(hash, src[..], forwardIp, k.tableType);
        if found {
          return;
        }
        IndexedMore(src[..], k.start, k.tableType, ip + 1, forwardIp);
      }
    }

    /** The length of the match at `ip`, shortened or refused when its bytes would not leave room for the last
        literals. `run` bytes are known to agree; positions up to ip + run - 4 are in the table. */
    method MatchLength(src: array<Byte>, k: Mode, room: int, ip: nat, m: nat, filledIp: nat, ghost run: nat)
      returns (ok: bool, matchCode: nat)
      requires ModeOk(k, src.Length) && MINMATCH <= run && ip + run + 8 <= src.Length && IsMatch(src[..], m, ip, run)
      requires filledIp + MFLIMIT <= src.Length && (run == MINMATCH || filledIp + MINMATCH == ip + run)
      requires Indexed(src[..], k.start, k.tableType, ip + run - 3)
      requires k.directive.FillOutput? ==> 9 <= room
      modifies hashTable
      ensures ok ==>
        IsMatch(src[..], m, ip, matchCode + MINMATCH) && ip + matchCode + MINMATCH + LASTLITERALS <= src.Length
      ensures Indexed(src[..], k.start, k.tableType, if ok then ip + matchCode + MINMATCH else src.Length)
      ensures ok && !k.directive.NotLimited? ==> 1 + LASTLITERALS + |LengthBytes(matchCode)| <= room
      ensures var full := CommonRun(src[..], m + MINMATCH, ip + MINMATCH, src.Length - LASTLITERALS);
        if k.directive.NotLimited? || 6 + (full + 240) / 255 <= room
        then ok && matchCode == full && hashTable[..] == old(hashTable[..])
        else ok == k.directive.FillOutput? && (ok ==> matchCode == 14 + (room - 6) * 255)
    {
      hide HashPosition, LengthBytes, EntryOk, CommonRun;
      ok := true;
      matchCode := Count(src, ip + MINMATCH, m + MINMATCH, src.Length - LASTLITERALS);
      ghost var s := src[..];
      LongestIsCommonRun(s, m + MINMATCH, ip + MINMATCH, src.Length - LASTLITERALS, matchCode);
      RunsJoin(s, m, ip, MINMATCH, matchCode);
      RunAt(s, m, ip, run, matchCode + MINMATCH);
      if !k.directive.NotLimited? && 1 + LASTLITERALS + (matchCode + 240) / 255 > room {
        if k.directive.LimitedOutput? {
          IndexedMore(s, k.start, k.tableType, ip + run - 3, src.Length);
          return false, matchCode;
        }
        matchCode := 14 + (room - 1 - LASTLITERALS) * 255;
        var end := ip + matchCode + MINMATCH;
        if end <= filledIp {
          ClearPositions(src, k.tableType, ip + run - 3, end, filledIp);
        }
        IndexedMore(s, k.start, k.tableType, if end < ip + run - 3 then end else ip + run - 3, end);
      } else {
        IndexedMore(s, k.start, k.tableType, ip + run - 3, ip + matchCode + MINMATCH);
      }
    }
  }

  /** Extends a match backwards, down to `anchor` or to the start of the input. */
  method CatchUp(src: array<Byte>, anchor: nat, ip: nat, m: nat) returns (ip': nat, m': nat)
    requires anchor <= ip && IsMatch(src[..], m, ip, MINMATCH)
    ensures anchor <= ip' <= ip && m' <= m && ip - ip' == m - m'
    ensures IsMatch(src[..], m', ip', ip - ip' + MINMATCH) && IsMatch(src[..], m', ip', MINMATCH)
    ensures ip' == anchor || m' == 0 || src[ip' - 1] != src[m' - 1]
    ensures ip - ip' == BackRun(src[..], anchor, m, ip)
  {
    hide IsMatch;
    ghost var s := src[..];
    ip', m' := ip, m;
    MatchIsBehind(s, m, ip, MINMATCH);
    while ip' > anchor && m' > 0 && src[ip' - 1] == src[m' - 1]
      invariant anchor <= ip' <= ip && m' <= m && ip - ip' == m - m' && m' < ip'
      invariant IsMatch(s, m', ip', ip - ip' + MINMATCH)
      invariant BackRun(s, anchor, m, ip) == ip - ip' + BackRun(s, anchor, m', ip')
    {
      ip', m' := ip' - 1, m' - 1;
      MatchFromBefore(s, m', ip', ip - ip' - 1 + MINMATCH);
    }
    MatchIsBehind(s, m', ip', ip - ip' + MINMATCH);
  }

  lemma MatchIsBehind(s: seq<Byte>, m: nat, ip: nat, n: nat)
    requires IsMatch(s, m, ip, n)
    ensures m < ip && ip + n <= |s| && forall k: nat :: k <= n ==> IsMatch(s, m, ip, k)
  {
  }

  lemma MatchFromBefore(s: seq<Byte>, m: nat, ip: nat, n: nat)
    requires m < ip < |s| && s[ip] == s[m] && IsMatch(s, m + 1, ip + 1, n)
    ensures IsMatch(s, m, ip, n + 1)
  {
    assert forall i :: ip + 1 <= i < ip + 1 + n ==> s[i] == s[m + (i - ip)];
  }

  // ---------------------------------------------------------------------------
  // Progress: the bytes so far are those of sequences that stand for the input up to the anchor
  // ---------------------------------------------------------------------------

  /** How many last literals a few bytes of room take. */
  function Spare(room: nat): nat {
    if room >= 9 then 8 else if room == 0 then 0 else room - 1
  }

  /** The space used so far, by output directive: never more than one byte in 255 over what was consumed; or room
      for five bytes; or room for as many literals as the last match demands. */
  predicate Room(d: OutputDirective, limit: nat, op: nat, anchor: nat, first: bool, least: nat) {
    && op <= limit
    && (first ==> least == 0)
    && match d
       case NotLimited => op <= anchor + anchor / 255
       case LimitedOutput => first || op + LASTLITERALS <= limit
       case FillOutput =>
         && op < limit && (first || (op + 6 <= limit && least <= anchor + Spare(limit - op)))
  }

  /** One more sequence keeps the room, if the checks made while it was written have passed. */
  lemma RoomAfter(d: OutputDirective, limit: nat, op: nat, anchor: nat, first: bool, least: nat, ip: nat,
      matchCode: nat, op': nat)
    requires Room(d, limit, op, anchor, first, least) && anchor <= ip
    requires op' == op + 1 + |LengthBytes(ip - anchor)| + (ip - anchor) + 2 + |LengthBytes(matchCode)|
    requires d.NotLimited? ==> WorstCase(ip + matchCode + MINMATCH) <= limit
    requires MatchRoom(d, limit, op', matchCode)
    ensures var ip' := ip + matchCode + MINMATCH;
            Room(d, limit, op', ip', false, Max(least, Max(ip + MFLIMIT, ip' + LASTLITERALS)))
  {
    hide LengthBytes;
  }

  /** What the checks leave behind a match: in a filled output, room for the literals that must follow it. */
  predicate MatchRoom(d: OutputDirective, limit: nat, op: nat, matchCode: nat) {
    match d
    case NotLimited => true
    case LimitedOutput => op + LASTLITERALS <= limit
    case FillOutput => op + 1 + LASTLITERALS <= limit && (matchCode < 3 ==> 8 <= matchCode + Spare(limit - op))
  }

  ghost predicate Progress(d: OutputDirective, s: seq<Byte>, dst: array<Byte>, op: nat, anchor: nat, qs: seq<Sequence>)
    reads dst
  {
    && Valid(qs) && anchor <= |s| && Replay(qs) == s[..anchor] && MinTotal(qs) <= |s|
    && op == |SequencesBytes(qs)| && Holds(dst, 0, SequencesBytes(qs))
    && Room(d, dst.Length, op, anchor, qs == [], MinTotal(qs))
    && (d.NotLimited? ==> WorstCase(|s|) <= dst.Length)
  }

  /** The sequence that a literal run and a match make. */
  function NewSequence(s: seq<Byte>, anchor: nat, ip: nat, m: nat, matchCode: nat): (q: Sequence)
    requires anchor <= ip <= |s| && m < ip <= m + LZ4_DISTANCE_MAX
    ensures Writable(q)
  {
    Sequence(s[anchor..ip], ip - m, matchCode + MINMATCH)
  }

  /** A match found in the input replays it. */
  lemma ReplayMatch(qs: seq<Sequence>, s: seq<Byte>, anchor: nat, ip: nat, m: nat, matchCode: nat)
    requires Valid(qs) && anchor <= ip && ip + matchCode + MINMATCH <= |s| && Replay(qs) == s[..anchor]
    requires IsMatch(s, m, ip, matchCode + MINMATCH)
    ensures var q := NewSequence(s, anchor, ip, m, matchCode); var ip' := ip + matchCode + MINMATCH;
            && Valid(qs + [q]) && Replay(qs + [q]) == s[..ip']
            && SequencesBytes(qs + [q]) == SequencesBytes(qs) + SequenceBytes(q)
            && MinTotal(qs + [q]) == Max(MinTotal(qs), Max(ip + MFLIMIT, ip' + LASTLITERALS))
  {
    hide Valid, Replay, SequencesBytes, SequenceBytes, MinTotal, CopyMatch;
    var q, ip' := NewSequence(s, anchor, ip, m, matchCode), ip + matchCode + MINMATCH;
    assert s[..anchor] + s[anchor..ip] == s[..ip];
    Snoc(qs, q);
    PeriodicIsCopyMatch(s[..ip], ip - m, matchCode + MINMATCH, s[..ip']);
  }

  /** A written sequence is progress. */
  lemma ProgressAfter(d: OutputDirective, s: seq<Byte>, dst: array<Byte>, op: nat, anchor: nat,
                               qs: seq<Sequence>, ip: nat, m: nat, matchCode: nat, op': nat)
    requires Progress(d, s, dst, op, anchor, qs) && anchor <= ip
    requires ip + MFLIMIT <= |s| && ip + matchCode + MINMATCH + LASTLITERALS <= |s|
    requires IsMatch(s, m, ip, matchCode + MINMATCH)
    requires Holds(dst, op, SequenceBytes(NewSequence(s, anchor, ip, m, matchCode)))
    requires op' == op + 1 + |LengthBytes(ip - anchor)| + (ip - anchor) + 2 + |LengthBytes(matchCode)|
    requires MatchRoom(d, dst.Length, op', matchCode)
    ensures Progress(d, s, dst, op', ip + matchCode + MINMATCH, qs + [NewSequence(s, anchor, ip, m, matchCode)])
  {
    hide Valid, Replay, SequencesBytes, MinTotal, CopyMatch, LengthBytes, SameRun, Room, Nibble;
    var q := NewSequence(s, anchor, ip, m, matchCode);
    ReplayMatch(qs, s, anchor, ip, m, matchCode);
    HoldsBoth(dst, 0, SequencesBytes(qs), SequenceBytes(q));
    RoomAfter(d, dst.Length, op, anchor, qs == [], MinTotal(qs), ip, matchCode, op');
  }

  // ---------------------------------------------------------------------------
  // The last literals
  // ---------------------------------------------------------------------------

  /** How many of `all` literals fit in `room` bytes that are too few for all of them. */
  function FittingRun(room: nat, all: nat): (n: nat)
    requires 1 <= room < 1 + all + (all + 240) / 255
    ensures n < all && HeadSize(n) <= room < HeadSize(n + 1) && room <= HeadSize(n) + 1
    ensures 6 <= room ==> Spare(room) <= n
  {
    var run := room - 1;
    run - (run + 256 - RUN_MASK) / 256
  }

  /** A last run of literals. */
  method WriteLastRun(src: array<Byte>, dst: array<Byte>, op: nat, anchor: nat, lastRun: nat) returns (op': nat)
    requires src != dst && anchor + lastRun <= src.Length
    requires op + 1 + |LengthBytes(lastRun)| + lastRun <= dst.Length
    modifies dst
    ensures op' == op + 1 + |LengthBytes(lastRun)| + lastRun == op + |LiteralsBytes(src[anchor..anchor + lastRun], 0)|
    ensures KeptBelow(dst, op) && Holds(dst, op, LiteralsBytes(src[anchor..anchor + lastRun], 0))
  {
    hide LengthBytes, Nibble;
    op' := WriteToken(dst, op, lastRun);
    CopyBytes(src, anchor, dst, op', lastRun);
    HoldsBoth(dst, op, [Nibble(lastRun) * 16] + LengthBytes(lastRun), src[anchor..anchor + lastRun]);
    op' := op' + lastRun;
  }

  /** The bytes of these sequences and then of literals up to `consumed`. */
  ghost predicate IsBlock(out: seq<Byte>, qs: seq<Sequence>, s: seq<Byte>, consumed: nat) {
    Valid(qs) && Span(qs) <= consumed <= |s| && out == BlockBytes(qs, s[Span(qs)..consumed])
  }

  lemma BlockHeld(s: seq<Byte>, dst: array<Byte>, qs: seq<Sequence>, anchor: nat, consumed: nat, r: nat)
    requires Valid(qs) && anchor <= consumed <= |s| && consumed < U32_MODULUS
    requires Replay(qs) == s[..anchor] && MinTotal(qs) <= consumed
    requires r == |SequencesBytes(qs)| + |LiteralsBytes(s[anchor..consumed], 0)|
    requires Holds(dst, 0, SequencesBytes(qs))
      && Holds(dst, |SequencesBytes(qs)|, LiteralsBytes(s[anchor..consumed], 0))
    ensures r <= dst.Length && Decode(dst[..r], 0, []) == Some(s[..consumed]) && Strict(dst[..r], 0, 0, consumed)
    ensures IsBlock(dst[..r], qs, s, consumed) && Span(qs) == anchor && |SequencesBytes(qs)| == Size(qs)
  {
    hide SequencesBytes, Valid, Replay, MinTotal, Decode, Strict, LiteralsBytes, Span, Size;
    SizeIsLength(qs);
    var last := s[anchor..consumed];
    HoldsBoth(dst, 0, SequencesBytes(qs), LiteralsBytes(last, 0));
    HoldsSlice(dst, 0, BlockBytes(qs, last));
    assert s[..anchor] + last == s[..consumed];
    BlockRoundTrip(qs, last);
  }

  /** What the progress so far says where the last literals begin. */
  lemma ProgressLast(d: OutputDirective, s: seq<Byte>, dst: array<Byte>, op: nat, anchor: nat, qs: seq<Sequence>)
    requires Progress(d, s, dst, op, anchor, qs)
    ensures Valid(qs) && anchor <= |s| && Replay(qs) == s[..anchor] && MinTotal(qs) <= |s|
    ensures op == |SequencesBytes(qs)| == Size(qs) && anchor == Span(qs) && Holds(dst, 0, SequencesBytes(qs))
    ensures op <= dst.Length
    ensures d.NotLimited? ==>
      op + HeadSize(|s| - anchor) <= dst.Length && op + HeadSize(|s| - anchor) <= |s| + |s| / 255 + 2
    ensures d.FillOutput? ==> op < dst.Length
    ensures d.FillOutput? ==> MinTotal(qs) <= anchor + if op + 6 <= dst.Length then Spare(dst.Length - op) else 0
  {
    hide Valid, Replay, SequencesBytes, MinTotal, Size, Span, Spare, Holds;
    SizeIsLength(qs);
  }

  /** The last literals, as many as fit when the output is to be filled. */
  method LastLiterals(src: array<Byte>, dst: array<Byte>, d: OutputDirective, op: nat, anchor: nat,
      ghost qs: seq<Sequence>)
    returns (r: nat, consumed: nat)
    requires src != dst && src.Length < U32_MODULUS && Progress(d, src[..], dst, op, anchor, qs)
    modifies dst
    ensures r <= dst.Length && consumed <= src.Length
    ensures r > 0 ==> Decode(dst[..r], 0, []) == Some(src[..consumed]) && Strict(dst[..r], 0, 0, consumed)
    ensures !d.FillOutput? ==> consumed == src.Length
    ensures !d.LimitedOutput? ==> r > 0
    ensures d.NotLimited? ==> r <= src.Length + src.Length / 255 + 2
    ensures Span(qs) <= consumed
    ensures !d.FillOutput? ==> r == if BlockSize(qs, src.Length) <= dst.Length then BlockSize(qs, src.Length) else 0
    ensures r > 0 ==> IsBlock(dst[..r], qs, src[..], consumed) && r == Size(qs) + HeadSize(consumed - Span(qs))
    ensures d.FillOutput? && consumed < src.Length
      ==> Size(qs) + HeadSize(consumed - Span(qs) + 1) > dst.Length && r + 1 >= dst.Length
  {
    hide Valid, Replay, SequencesBytes, MinTotal, Size, Span, Spare, Progress, Decode, Strict, IsBlock, LengthBytes,
      HeadSize, LiteralsBytes;
    ghost var s := src[..];
    ProgressLast(d, s, dst, op, anchor, qs);
    var lastRun := src.Length - anchor;
    if !d.NotLimited? && op + lastRun + 1 + (lastRun + 240) / 255 > dst.Length {
      HeadSizeIs(lastRun);
      if d.LimitedOutput? {
        return 0, src.Length;
      }
      lastRun := FittingRun(dst.Length - op, lastRun);
    }
    HeadSizeIs(lastRun);
    r := WriteLastRun(src, dst, op, anchor, lastRun);
    consumed := anchor + lastRun;
    BlockHeld(s, dst, qs, anchor, consumed, r);
  }

  lemma HeadSizeIs(n: nat)
    ensures HeadSize(n) == n + 1 + (n + 240) / 255 == 1 + |LengthBytes(n)| + n
  {
    hide ExtBytes;
  }

  // ---------------------------------------------------------------------------
  // The main loop
  // ---------------------------------------------------------------------------

  datatype Outcome = Advanced | ToLastLiterals | Overflow

  /** The check made before the literals of a sequence are written. */
  predicate LiteralsFit(d: OutputDirective, limit: nat, op: nat, litLength: nat) {
    match d
    case NotLimited => true
    case LimitedOutput => op + 1 + litLength + (2 + 1 + LASTLITERALS) + litLength / 255 <= limit
    case FillOutput => op + 1 + (litLength + 240) / 255 + litLength + 2 + 1 + MFLIMIT - MINMATCH <= limit
  }

  /** A token and its literals stand behind the sequences so far, and a match is known. */
  ghost predicate Pending(k: Mode, s: seq<Byte>, dst: array<Byte>, token: nat, op: nat, anchor: nat, ip: nat, m: nat,
                          qs: seq<Sequence>)
    reads dst
  {
    && Progress(k.directive, s, dst, token, anchor, qs) && anchor <= ip && ip + MFLIMIT <= |s|
    && op == token + |LiteralsBytes(s[anchor..ip], 0)| && Holds(dst, token, LiteralsBytes(s[anchor..ip], 0))
    && (k.directive.LimitedOutput? ==> op + 2 <= dst.Length)
    && IsMatch(s, m, ip, MINMATCH)
  }

  lemma LiteralsRoom(d: OutputDirective, s: seq<Byte>, dst: array<Byte>, token: nat, anchor: nat, ip: nat,
      qs: seq<Sequence>)
    requires Progress(d, s, dst, token, anchor, qs) && anchor <= ip && ip + MFLIMIT <= |s|
    requires LiteralsFit(d, dst.Length, token, ip - anchor)
    ensures token + 1 + |LengthBytes(ip - anchor)| + (ip - anchor) + 7 <= dst.Length
    ensures ip == anchor ==> token + 9 <= dst.Length
    ensures token <= dst.Length && ip + 8 <= |s|
  {
    hide Valid, Replay, SequencesBytes, MinTotal, ExtBytes;
  }

  lemma PendingHolds(k: Mode, s: seq<Byte>, dst: array<Byte>, token: nat, op: nat, anchor: nat, ip: nat, m: nat,
                     qs: seq<Sequence>)
    requires Progress(k.directive, s, dst, token, anchor, qs) && anchor <= ip && ip + MFLIMIT <= |s|
    requires IsMatch(s, m, ip, MINMATCH) && LiteralsFit(k.directive, dst.Length, token, ip - anchor)
    requires op == token + |LiteralsBytes(s[anchor..ip], 0)| && Holds(dst, token, LiteralsBytes(s[anchor..ip], 0))
    ensures Pending(k, s, dst, token, op, anchor, ip, m, qs)
  {
    hide Progress, Holds, Nibble, ExtBytes, IsMatch;
  }

  /** Writes the literals of the next sequence. */
  method StartSequence(src: array<Byte>, dst: array<Byte>, k: Mode, token: nat, anchor: nat, ip: nat, ghost m: nat,
                       ghost qs: seq<Sequence>)
    returns (op: nat)
    requires src != dst && Progress(k.directive, src[..], dst, token, anchor, qs)
    requires anchor <= ip && ip + MFLIMIT <= src.Length && IsMatch(src[..], m, ip, MINMATCH)
    requires LiteralsFit(k.directive, dst.Length, token, ip - anchor)
    modifies dst
    ensures Pending(k, src[..], dst, token, op, anchor, ip, m, qs)
  {
    hide Valid, Replay, SequencesBytes, MinTotal, Room, LiteralsFit, LiteralsBytes, LengthBytes, SameRun, Nibble,
      WorstCase;
    ghost var s := src[..];
    LiteralsRoom(k.directive, s, dst, token, anchor, ip, qs);
    op := EncodeLiterals(src, anchor, ip, dst, token);
    assert s[anchor..ip] == src[anchor..ip];
    PendingHolds(k, s, dst, token, op, anchor, ip, m, qs);
  }

  lemma PendingIsProgress(k: Mode, s: seq<Byte>, dst: array<Byte>, token: nat, op: nat, anchor: nat, ip: nat, m: nat,
                          qs: seq<Sequence>)
    requires Pending(k, s, dst, token, op, anchor, ip, m, qs)
    ensures Progress(k.directive, s, dst, token, anchor, qs) && m < ip <= m + LZ4_DISTANCE_MAX && anchor <= ip
    ensures op <= dst.Length && (k.directive.LimitedOutput? ==> op + 2 <= dst.Length) && ip + MFLIMIT <= |s|
    ensures op == token + HeadSize(ip - anchor)
  {
    hide Progress, ExtBytes;
  }

  /** What the output must still hold for a match. */
  lemma MatchFits(k: Mode, s: seq<Byte>, dst: array<Byte>, token: nat, op: nat, anchor: nat, ip: nat, m: nat,
                  qs: seq<Sequence>, matchCode: nat)
    requires Pending(k, s, dst, token, op, anchor, ip, m, qs)
    requires ip + matchCode + MINMATCH + LASTLITERALS <= |s|
    requires !k.directive.NotLimited? ==> op + 2 + 1 + LASTLITERALS + |LengthBytes(matchCode)| <= dst.Length
    ensures op + 2 + |LengthBytes(matchCode)| + 3 <= dst.Length
  {
    hide Valid, Replay, SequencesBytes, MinTotal, SameRun, LengthBytes, Nibble;
  }

  /** The offset and the bytes of the match length. */
  method AppendMatch(src: array<Byte>, dst: array<Byte>, k: Mode, token: nat, op: nat, anchor: nat, ip: nat, m: nat,
                     matchCode: nat, ghost qs: seq<Sequence>)
    returns (op': nat, ghost qs': seq<Sequence>)
    requires src != dst && Pending(k, src[..], dst, token, op, anchor, ip, m, qs)
    requires ip + matchCode + MINMATCH + LASTLITERALS <= src.Length && IsMatch(src[..], m, ip, matchCode + MINMATCH)
    requires !k.directive.NotLimited? ==> op + 2 + 1 + LASTLITERALS + |LengthBytes(matchCode)| <= dst.Length
    requires k.directive.FillOutput? ==> op + 2 + 9 <= dst.Length
    modifies dst
    ensures Progress(k.directive, src[..], dst, op', ip + matchCode + MINMATCH, qs')
    ensures qs' == qs + [Sequence(src[anchor..ip], ip - m, matchCode + MINMATCH)]
    ensures op' == token + HeadSize(ip - anchor) + 2 + (matchCode + 240) / 255
  {
    hide Valid, Replay, SequencesBytes, MinTotal, SameRun, ExtBytes, Nibble, LengthBytes, OffsetBytes, MatchBytes, Room,
      WorstCase, LiteralsBytes;
    ghost var s := src[..];
    MatchFits(k, s, dst, token, op, anchor, ip, m, qs, matchCode);
    WriteOffset(dst, op, ip - m);
    ghost var literals := s[anchor..ip];
    op' := WriteMatchCode(dst, token, op + 2, matchCode, literals, ip - m);
    qs' := qs + [NewSequence(s, anchor, ip, m, matchCode)];
    LiteralsBytesLength(literals, 0);
    ProgressAfter(k.directive, s, dst, token, anchor, qs, ip, m, matchCode, op');
  }

  lemma ProgressFits(d: OutputDirective, s: seq<Byte>, dst: array<Byte>, op: nat, anchor: nat, qs: seq<Sequence>)
    requires Progress(d, s, dst, op, anchor, qs)
    ensures op <= dst.Length && anchor <= |s| && op == Size(qs) && anchor == Span(qs)
  {
    hide Valid, Replay, SequencesBytes, MinTotal, Size, Span;
    SizeIsLength(qs);
  }

  /** From _next_match on: the offset, the length of the match and its bytes. */
  method NextMatch(ctx: Stream, src: array<Byte>, dst: array<Byte>, k: Mode, token: nat, op: nat, anchor: nat,
                   ip: nat, m: nat, filledIp: nat, ghost run: nat, ghost qs: seq<Sequence>, ghost j: Job)
    returns (outcome: Outcome, op': nat, ip': nat, ghost qs': seq<Sequence>)
    requires IsJob(j, ctx.hash, src[..], k)
    requires src != dst && ModeOk(k, src.Length) && Pending(k, src[..], dst, token, op, anchor, ip, m, qs)
    requires MINMATCH <= run && ip + run + 8 <= src.Length && IsMatch(src[..], m, ip, run)
    requires filledIp + MFLIMIT <= src.Length && (run == MINMATCH || filledIp + MINMATCH == ip + run)
    requires ctx.Indexed(src[..], k.start, k.tableType, ip + run - 3)
    modifies dst, ctx.hashTable
    ensures outcome.Overflow? ==> k.directive.LimitedOutput?
    ensures outcome.ToLastLiterals? ==> k.directive.FillOutput? && ip' == anchor
    ensures !outcome.Overflow? ==> Progress(k.directive, src[..], dst, op', ip', qs')
    ensures outcome.Advanced? ==> ip + MINMATCH <= ip' && qs' != []
    ensures ctx.Indexed(src[..], k.start, k.tableType, if outcome.Advanced? then ip' else src.Length)
    ensures var g, fill, room :=
        AtMatch(j, old(ctx.hashTable[..]), ip, m, anchor), k.directive.FillOutput?, dst.Length - token;
      match outcome
      case Overflow => Size(g) + 6 > room
      case ToLastLiterals => qs' == qs && op' == token && Taken(fill, g, room) == []
      case Advanced =>
        && |qs'| == |qs| + 1 && qs'[..|qs|] == qs && op' <= dst.Length && ip' <= src.Length
        && Taken(fill, g, room)
           == [qs'[|qs|]] + Taken(fill, AfterMatch(j, ctx.hashTable[..], ip'), dst.Length - op')
  {
    hide Pending, Progress, SameRun, LengthBytes, HashPosition, EntryOk, ModeOk, AtMatch, AfterMatch, Taken, Size,
      CommonRun, HeadSize, IsMatch;
    ghost var s := src[..];
    PendingIsProgress(k, s, dst, token, op, anchor, ip, m, qs);
    ghost var table, room, full := ctx.hashTable[..], dst.Length - token,
      CommonRun(s, m + MINMATCH, ip + MINMATCH, |s| - LASTLITERALS);
    ProgressFits(k.directive, s, dst, token, anchor, qs);
    NoRoomForMatch(k.directive, j, table, ip, m, anchor, room);
    if k.directive.FillOutput? && op + 2 + 1 + MFLIMIT - MINMATCH > dst.Length {
      ctx.IndexedMore(s, k.start, k.tableType, ip + run - 3, |s|);
      return ToLastLiterals, token, anchor, qs;
    }
    var ok, matchCode := ctx.MatchLength(src, k, dst.Length - (op + 2), ip, m, filledIp, run);
    if !ok {
      return Overflow, op, ip, qs;
    }
    op', qs' := AppendMatch(src, dst, k, token, op, anchor, ip, m, matchCode, qs);
    ip' := ip + matchCode + MINMATCH;
    outcome := Advanced;
    ProgressFits(k.directive, s, dst, op', ip', qs');
    RoomForMatch(k.directive, j, table, ip, m, anchor, room, matchCode, AfterMatch(j, ctx.hashTable[..], ip'));
  }

  /** When the checks before a match and of its length fail, the output is too small for it. */
  lemma NoRoomForMatch(d: OutputDirective, j: Job, table: Table, ip: nat, m: nat, anchor: nat, room: nat)
    requires anchor <= ip && ip + MFLIMIT <= |j.s| && m < ip
    ensures var g := AtMatch(j, table, ip, m, anchor);
            var full := CommonRun(j.s, m + MINMATCH, ip + MINMATCH, |j.s| - LASTLITERALS);
      && (d.FillOutput? && HeadSize(ip - anchor) + 11 > room ==> Taken(true, g, room) == [])
      && (HeadSize(ip - anchor) + 2 + 6 + (full + 240) / 255 > room ==> Size(g) + 6 > room)
  {
    hide AtMatch, Taken, Size, CommonRun;
    TakenAtMatch(d.FillOutput?, j, table, ip, m, anchor, room);
  }

  /** When they pass, the match is taken as it is; if the output is to be filled it may be cut, and nothing follows. */
  lemma RoomForMatch(d: OutputDirective, j: Job, table: Table, ip: nat, m: nat, anchor: nat, room: nat, matchCode: nat,
      other: seq<Sequence>)
    requires anchor <= ip && ip + MFLIMIT <= |j.s| && m < ip
    requires d.FillOutput? ==> HeadSize(ip - anchor) + 11 <= room
    requires HeadSize(ip - anchor) + 2 + (matchCode + 240) / 255 <= room
    requires var full := CommonRun(j.s, m + MINMATCH, ip + MINMATCH, |j.s| - LASTLITERALS);
      if d.NotLimited? || HeadSize(ip - anchor) + 2 + 6 + (full + 240) / 255 <= room then
        matchCode == full && other == AfterMatch(j, table, ip + matchCode + MINMATCH)
      else d.FillOutput? && matchCode == 14 + (room - HeadSize(ip - anchor) - 8) * 255
    ensures Taken(d.FillOutput?, AtMatch(j, table, ip, m, anchor), room)
      == [Sequence(j.s[anchor..ip], ip - m, matchCode + MINMATCH)]
         + Taken(d.FillOutput?, other, room - HeadSize(ip - anchor) - 2 - (matchCode + 240) / 255)
  {
    hide AtMatch, AfterMatch, Taken, Size, CommonRun;
    TakenAtMatch(d.FillOutput?, j, table, ip, m, anchor, room);
    if matchCode + MINMATCH != MatchAt(j.s, ip, m, anchor).matchLength {
      TakenCutAtMatch(j, table, ip, m, anchor, room, other);
    }
  }

  /** A token without literals, when the next match starts where the last one ended. */
  method StartEmptySequence(src: array<Byte>, dst: array<Byte>, k: Mode, token: nat, ip: nat, ghost m: nat,
                            ghost qs: seq<Sequence>)
    returns (op: nat)
    requires src != dst && Progress(k.directive, src[..], dst, token, ip, qs) && qs != []
    requires ip + MFLIMIT <= src.Length && IsMatch(src[..], m, ip, MINMATCH)
    modifies dst
    ensures Pending(k, src[..], dst, token, op, ip, ip, m, qs)
  {
    hide Valid, Replay, SequencesBytes, MinTotal, SameRun, ExtBytes;
    dst[token] := 0;
    op := token + 1;
    assert src[..][ip..ip] == [] && LiteralsBytes([], 0) == [0];
  }

  /** Behind a match: fills the table and tests the next position. */
  method NextPosition(ctx: Stream, src: array<Byte>, k: Mode, end: nat, ghost j: Job) returns (found: bool, m: nat)
    requires IsJob(j, ctx.hash, src[..], k) && ModeOk(k, src.Length)
    requires 2 <= end && end + 11 < src.Length && ctx.Indexed(src[..], k.start, k.tableType, end)
    modifies ctx.hashTable
    ensures ctx.Indexed(src[..], k.start, k.tableType, end + 1)
    ensures found ==> IsMatch(src[..], m, end, MINMATCH) && m < end
    ensures AfterMatch(j, old(ctx.hashTable[..]), end) == if found then AtMatch(j, ctx.hashTable[..], end, m, end)
                                                         else Greedy(j, ctx.hashTable[..], end + 1, end)
  {
    hide SameRun, HashPosition, EntryOk, AtMatch, Greedy;
    ghost var s := src[..];
    ctx.Put(s, k.start, k.tableType, end, end - 2, HashPosition(ctx.hash, src[..], end - 2, k.tableType));
    var h := HashPosition(ctx.hash, src[..], end, k.tableType);
    ghost var e := ctx.hashTable[h];
    found, m := ctx.Candidate(src, k.start, k.tableType, k.dictSmall, end, h);
    assert found <==> Usable(j, e, end);
  }

  /** One round of the main loop once a match is found: this match and those that follow it without a search. */
  method MatchRun(ctx: Stream, src: array<Byte>, dst: array<Byte>, k: Mode, token0: nat, op0: nat, anchor0: nat,
                  ip0: nat, m0: nat, filledIp: nat, ghost qs0: seq<Sequence>, ghost j: Job)
    returns (outcome: Outcome, op: nat, anchor: nat, ghost qs: seq<Sequence>)
    requires IsJob(j, ctx.hash, src[..], k) && token0 <= dst.Length && anchor0 <= ip0
    requires src != dst && ModeOk(k, src.Length) && Pending(k, src[..], dst, token0, op0, anchor0, ip0, m0, qs0)
    requires ip0 <= filledIp && filledIp + MFLIMIT <= src.Length
    requires IsMatch(src[..], m0, ip0, filledIp + MINMATCH - ip0)
    requires ctx.Indexed(src[..], k.start, k.tableType, filledIp + 1)
    modifies dst, ctx.hashTable
    ensures outcome.Overflow? ==> k.directive.LimitedOutput?
    ensures !outcome.Overflow? ==> Progress(k.directive, src[..], dst, op, anchor, qs)
    ensures outcome.Advanced? ==> ip0 < anchor && anchor + MFLIMIT <= src.Length
    ensures ctx.Indexed(src[..], k.start, k.tableType, if outcome.Advanced? then anchor + 1 else src.Length)
    ensures var fill := k.directive.FillOutput?;
      var all := qs0 + Taken(fill, AtMatch(j, old(ctx.hashTable[..]), ip0, m0, anchor0), dst.Length - token0);
      match outcome
      case Overflow => Size(all) + 6 > dst.Length
      case ToLastLiterals => qs == all
      case Advanced =>
        && op <= dst.Length
        && all == qs + Taken(fill, Greedy(j, ctx.hashTable[..], anchor + 1, anchor), dst.Length - op)
  {
    hide Pending, Progress, SameRun, LengthBytes, HashPosition, EntryOk, IsMatch, AtMatch, Greedy, Fill, Size,
      Usable, Put, AfterMatch;
    ghost var s, fill := src[..], k.directive.FillOutput?;
    PendingIsProgress(k, s, dst, token0, op0, anchor0, ip0, m0, qs0);
    ghost var all := qs0 + Taken(fill, AtMatch(j, ctx.hashTable[..], ip0, m0, anchor0), dst.Length - token0);
    var token: nat, ip: nat, m: nat := token0, ip0, m0;
    ghost var run := filledIp + MINMATCH - ip0;
    op, anchor, qs := op0, anchor0, qs0;
    while true
      invariant Pending(k, s, dst, token, op, anchor, ip, m, qs) && ip0 <= ip
      invariant MINMATCH <= run && ip + run + 8 <= src.Length && IsMatch(s, m, ip, run)
      invariant run == MINMATCH || filledIp + MINMATCH == ip + run
      invariant ctx.Indexed(s, k.start, k.tableType, ip + run - 3)
      invariant token <= dst.Length && anchor <= ip && ip + MFLIMIT <= src.Length && m < ip
      invariant all == qs + Taken(fill, AtMatch(j, ctx.hashTable[..], ip, m, anchor), dst.Length - token)
      decreases src.Length - ip
    {
      ghost var before := qs;
      PendingIsProgress(k, s, dst, token, op, anchor, ip, m, qs);
      ProgressFits(k.directive, s, dst, token, anchor, qs);
      SizeBoth(qs, AtMatch(j, ctx.hashTable[..], ip, m, anchor));
      outcome, op, anchor, qs := NextMatch(ctx, src, dst, k, token, op, anchor, ip, m, filledIp, run, qs, j);
      if !outcome.Advanced? {
        return;
      }
      ghost var table := ctx.hashTable[..];
      Appended(before, qs, Taken(fill, AfterMatch(j, table, anchor), dst.Length - op));
      ip := anchor;
      if ip + 11 >= src.Length {
        PastIsIndexed(ctx, k, s, dst, op, ip, qs);
        assert AfterMatch(j, table, ip) == [] by { AfterLast(j, table, ip); }
        TakenNone(fill, dst.Length - op);
        return ToLastLiterals, op, anchor, qs;
      }
      var found;
      found, m := NextPosition(ctx, src, k, ip, j);
      if !found {
        return;
      }
      token, run := op, MINMATCH;
      op := StartEmptySequence(src, dst, k, token, ip, m, qs);
    }
  }

  lemma Appended(before: seq<Sequence>, qs: seq<Sequence>, rest: seq<Sequence>)
    requires |qs| == |before| + 1 && qs[..|before|] == before
    ensures before + ([qs[|before|]] + rest) == qs + rest
  {
    assert qs == before + [qs[|before|]];
  }

  lemma AfterLast(j: Job, table: Table, end: nat)
    requires 2 <= end <= |j.s| && end + 11 >= |j.s|
    ensures AfterMatch(j, table, end) == []
  {
  }

  lemma PastIsIndexed(ctx: Stream, k: Mode, s: seq<Byte>, dst: array<Byte>, op: nat, ip: nat, qs: seq<Sequence>)
    requires Progress(k.directive, s, dst, op, ip, qs) && ctx.Indexed(s, k.start, k.tableType, ip)
    ensures ctx.Indexed(s, k.start, k.tableType, |s|)
  {
    ctx.IndexedMore(s, k.start, k.tableType, ip, |s|);
  }

  /** What a compressed block of `r` bytes promises about the first `consumed` bytes of the input. */
  ghost predicate Compressed(s: seq<Byte>, out: seq<Byte>, consumed: nat) {
    consumed <= |s| && Decode(out, 0, []) == Some(s[..consumed]) && Strict(out, 0, 0, consumed)
  }

  lemma LiteralsDoNotFit(d: OutputDirective, j: Job, table: Table, ip: nat, m: nat, anchor: nat, limit: nat, op: nat)
    requires anchor <= ip && ip + MFLIMIT <= |j.s| && m < ip && op <= limit && !LiteralsFit(d, limit, op, ip - anchor)
    ensures var g := AtMatch(j, table, ip, m, anchor);
            if d.FillOutput? then Taken(true, g, limit - op) == []
            else Taken(false, g, limit - op) == g && g != [] && op + Size(g) + 6 > limit
  {
    hide AtMatch, Fill, Size;
    TakenAtMatch(d.FillOutput?, j, table, ip, m, anchor, limit - op);
  }

  /** From a match that has been found on: it is extended backwards, its literals are written if they fit, and then it
      and those that follow it. */
  method EncodeFrom(ctx: Stream, src: array<Byte>, dst: array<Byte>, k: Mode, op0: nat, anchor0: nat, filledIp: nat,
                    m0: nat, ghost qs0: seq<Sequence>, ghost j: Job)
    returns (outcome: Outcome, op: nat, anchor: nat, ghost qs: seq<Sequence>)
    requires src != dst && ModeOk(k, src.Length) && IsJob(j, ctx.hash, src[..], k)
    requires Progress(k.directive, src[..], dst, op0, anchor0, qs0)
    requires anchor0 <= filledIp && filledIp + MFLIMIT <= src.Length && IsMatch(src[..], m0, filledIp, MINMATCH)
    requires ctx.Indexed(src[..], k.start, k.tableType, filledIp + 1)
    modifies dst, ctx.hashTable
    ensures outcome.Overflow? ==> k.directive.LimitedOutput?
    ensures !outcome.Overflow? ==> Progress(k.directive, src[..], dst, op, anchor, qs)
    ensures outcome.Advanced? ==> anchor0 < anchor && anchor + MFLIMIT <= src.Length
    ensures ctx.Indexed(src[..], k.start, k.tableType, if outcome.Advanced? then anchor + 1 else src.Length)
    ensures m0 < filledIp && op0 <= dst.Length
    ensures var fill, b := k.directive.FillOutput?, BackRun(src[..], anchor0, m0, filledIp);
      var all := qs0 + Taken(fill, AtMatch(j, old(ctx.hashTable[..]), filledIp - b, m0 - b, anchor0), dst.Length - op0);
      match outcome
      case Overflow => all != [] && Size(all) + 6 > dst.Length
      case ToLastLiterals => qs == all
      case Advanced =>
        && op <= dst.Length
        && all == qs + Taken(fill, Greedy(j, ctx.hashTable[..], anchor + 1, anchor), dst.Length - op)
  {
    hide Pending, Progress, SameRun, HashPosition, EntryOk, Greedy, AtMatch, Taken, Size, FirstMatch, BackRun;
    ghost var s := src[..];
    var ip, m := CatchUp(src, anchor0, filledIp, m0);
    ghost var g := AtMatch(j, ctx.hashTable[..], ip, m, anchor0);
    ProgressFits(k.directive, s, dst, op0, anchor0, qs0);
    SizeBoth(qs0, g);
    if !LiteralsFit(k.directive, dst.Length, op0, ip - anchor0) {
      ctx.IndexedMore(s, k.start, k.tableType, filledIp + 1, src.Length);
      LiteralsDoNotFit(k.directive, j, ctx.hashTable[..], ip, m, anchor0, dst.Length, op0);
      return if k.directive.FillOutput? then ToLastLiterals else Overflow, op0, anchor0, qs0;
    }
    op := StartSequence(src, dst, k, op0, anchor0, ip, m, qs0);
    outcome, op, anchor, qs := MatchRun(ctx, src, dst, k, op0, op, anchor0, ip, m, filledIp, qs0, j);
  }

  /** The whole search: sequences are appended until the input or the output ends. */
  method CompressSequences(ctx: Stream, src: array<Byte>, dst: array<Byte>, k: Mode, acceleration: Pos, ghost j: Job)
    returns (ok: bool, op: nat, anchor: nat, ghost qs: seq<Sequence>)
    requires src != dst && LZ4_MIN_LENGTH <= src.Length && ModeOk(k, src.Length)
    requires IsJob(j, ctx.hash, src[..], k) && j.acceleration == acceleration
    requires ctx.Indexed(src[..], k.start, k.tableType, 0)
    requires Progress(k.directive, src[..], dst, 0, 0, [])
    modifies dst, ctx.hashTable
    ensures !ok ==> k.directive.LimitedOutput?
    ensures ok ==> Progress(k.directive, src[..], dst, op, anchor, qs)
    ensures ctx.Indexed(src[..], k.start, k.tableType, src.Length)
    ensures var all := Taken(k.directive.FillOutput?, Sequences(j, old(ctx.hashTable[..])), dst.Length);
      if ok then qs == all else all != [] && Size(all) + 6 > dst.Length
  {
    hide Progress, SameRun, HashPosition, EntryOk, Greedy, AtMatch, Taken, Size, FirstMatch, BackRun;
    ghost var s, fill := src[..], k.directive.FillOutput?;
    ghost var all := Taken(fill, Sequences(j, ctx.hashTable[..]), dst.Length);
    op, anchor, qs := 0, 0, [];
    ctx.IndexedMore(s, k.start, k.tableType, 0, 1);
    ctx.Put(s, k.start, k.tableType, 1, 0, HashPosition(ctx.hash, src[..], 0, k.tableType));
    var from := 1;
    while true
      invariant Progress(k.directive, s, dst, op, anchor, qs)
      invariant anchor <= from && from + 11 <= src.Length && 1 <= from
      invariant ctx.Indexed(s, k.start, k.tableType, from) && op <= dst.Length
      invariant all == qs + Taken(fill, Greedy(j, ctx.hashTable[..], from, anchor), dst.Length - op)
      decreases src.Length - anchor
    {
      ghost var table := ctx.hashTable[..];
      var found, filledIp, m := ctx.FindMatch(src, k, acceleration, from, j);
      GreedyStep(j, table, from, anchor);
      if !found {
        TakenNone(fill, dst.Length - op);
        return true, op, anchor, qs;
      }
      var outcome;
      outcome, op, anchor, qs := EncodeFrom(ctx, src, dst, k, op, anchor, filledIp, m, qs, j);
      if !outcome.Advanced? {
        return outcome.ToLastLiterals?, op, anchor, qs;
      }
      from := anchor + 1;
    }
  }

  function JobFor(hash: seq<Byte> -> nat, s: seq<Byte>, k: Mode, acceleration: Pos): Job {
    Job(hash, s, k.start, k.tableType, acceleration)
  }

  /** What stands in `dst` behind a compression: without a room to fill, the block of all the sequences, or nothing
      where it does not fit; otherwise those that fit, and then as many literals as fit. */
  ghost predicate Emitted(j: Job, table: Table, d: OutputDirective, dst: seq<Byte>, r: nat, consumed: nat) {
    var all := Sequences(j, table);
    var size := BlockSize(all, |j.s|);
    && r <= |dst|
    && if d.FillOutput? then
         var qs := Fill(all, |dst|);
         && IsBlock(dst[..r], qs, j.s, consumed)
         && (consumed < |j.s| ==> Size(qs) + HeadSize(consumed - Span(qs) + 1) > |dst| && r + 1 >= |dst|)
       else
         && (if size <= |dst| then r == size && IsBlock(dst[..r], all, j.s, |j.s|) else r == 0)
  }

  /** LZ4_compress_generic_validated. */
  method CompressValidated(ctx: Stream, src: array<Byte>, dst: array<Byte>, k: Mode, acceleration: Pos)
    returns (r: nat, consumed: nat)
    requires src != dst && 1 <= src.Length <= LZ4_MAX_INPUT_SIZE
    requires (k.tableType.ByU16? && src.Length >= LZ4_64K_LIMIT) || ModeOk(k, src.Length)
    requires ctx.Ready() && ctx.Indexed(src[..], k.start, k.tableType, 0)
    requires k.start == ctx.currentOffset && ctx.dictSize == 0
    requires k.directive.NotLimited? ==> WorstCase(src.Length) <= dst.Length
    modifies dst, ctx, ctx.hashTable
    ensures ctx.Ready()
    ensures r <= dst.Length && (r > 0 ==> Compressed(src[..], dst[..r], consumed))
    ensures !k.directive.FillOutput? ==> consumed == src.Length
    ensures k.directive.NotLimited? ==> r <= src.Length + src.Length / 255 + 2
    ensures k.tableType.ByU16? && src.Length >= LZ4_64K_LIMIT ==> r == 0
    ensures (k.tableType.ByU16? ==> src.Length < LZ4_64K_LIMIT)
      ==> (k.directive.NotLimited? || (k.directive.FillOutput? && 1 <= dst.Length)) ==> r > 0
    ensures (k.tableType.ByU16? ==> src.Length < LZ4_64K_LIMIT) && (k.directive.FillOutput? ==> 1 <= dst.Length) ==>
      Emitted(JobFor(ctx.hash, src[..], k, acceleration), old(ctx.hashTable[..]), k.directive, dst[..], r, consumed)
  {
    hide Progress, HashPosition, EntryOk, Decode, Strict, Greedy, Fill, IsBlock, Valid, Size, Span, HeadSize, Emitted;
    ghost var s, table, j := src[..], ctx.hashTable[..], JobFor(ctx.hash, src[..], k, acceleration);
    ghost var all := Sequences(j, table);
    consumed := src.Length;
    if (k.directive.FillOutput? && dst.Length < 1) || (k.tableType.ByU16? && src.Length >= LZ4_64K_LIMIT) {
      return 0, consumed;
    }
    ctx.dictSize := ctx.dictSize + src.Length;
    ctx.currentOffset := ctx.currentOffset + src.Length;
    ctx.tableType := k.tableType;
    var op, anchor, ok := 0, 0, true;
    ghost var qs := [];
    NoProgress(k.directive, s, dst);
    if src.Length < LZ4_MIN_LENGTH {
      ctx.IndexedMore(s, k.start, k.tableType, 0, src.Length);
      TakenNone(k.directive.FillOutput?, dst.Length);
    } else {
      ok, op, anchor, qs := CompressSequences(ctx, src, dst, k, acceleration, j);
    }
    assert ok ==> qs == Taken(k.directive.FillOutput?, all, dst.Length);
    ctx.IndexedIsReady(s, k.start, k.tableType);
    if !ok {
      DoesNotFit(j, table, k.directive, dst[..]);
      return 0, consumed;
    }
    r, consumed := LastLiterals(src, dst, k.directive, op, anchor, qs);
    LastIsEmitted(j, table, k.directive, qs, dst[..], r, consumed);
  }

  lemma LastIsEmitted(j: Job, table: Table, d: OutputDirective, qs: seq<Sequence>, dst: seq<Byte>, r: nat,
      consumed: nat)
    requires qs == Taken(d.FillOutput?, Sequences(j, table), |dst|) && Span(qs) <= |j.s|
    requires r <= |dst| && (d.FillOutput? ==> r > 0) && (!d.FillOutput? ==> consumed == |j.s|)
    requires r > 0 ==> IsBlock(dst[..r], qs, j.s, consumed)
    requires !d.FillOutput? ==> r == if BlockSize(qs, |j.s|) <= |dst| then BlockSize(qs, |j.s|) else 0
    requires d.FillOutput? && consumed < |j.s|
      ==> consumed >= Span(qs) && Size(qs) + HeadSize(consumed - Span(qs) + 1) > |dst| && r + 1 >= |dst|
    ensures Emitted(j, table, d, dst, r, consumed)
  {
    hide Sequences, Fill, Valid, SequencesBytes;
  }

  lemma DoesNotFit(j: Job, table: Table, d: OutputDirective, dst: seq<Byte>)
    requires !d.FillOutput? && Sequences(j, table) != [] && Size(Sequences(j, table)) + 6 > |dst|
    ensures Emitted(j, table, d, dst, 0, |j.s|)
  {
    hide Size, Span, Sequences, IsBlock;
  }

  lemma NoProgress(d: OutputDirective, s: seq<Byte>, dst: array<Byte>)
    requires d.FillOutput? ==> 1 <= dst.Length
    requires d.NotLimited? ==> WorstCase(|s|) <= dst.Length
    ensures Progress(d, s, dst, 0, 0, [])
  {
  }

  /** LZ4_compress_generic: an input that is too large is refused, an empty one is a single token. */
  method CompressGeneric(ctx: Stream, src: array<Byte>, dst: array<Byte>, k: Mode, acceleration: Pos)
    returns (r: nat, consumed: nat)
    requires src != dst
    requires src.Length > LZ4_MAX_INPUT_SIZE || (k.tableType.ByU16? && src.Length >= LZ4_64K_LIMIT)
      || ModeOk(k, src.Length)
    requires ctx.Ready() && ctx.Indexed(src[..], k.start, k.tableType, 0)
    requires k.start == ctx.currentOffset && ctx.dictSize == 0
    requires k.directive.NotLimited? ==> CompressBound(src.Length) <= dst.Length
    modifies dst, ctx, ctx.hashTable
    ensures ctx.Ready()
    ensures r <= dst.Length && (r > 0 ==> Compressed(src[..], dst[..r], consumed))
    ensures !k.directive.FillOutput? ==> consumed == src.Length
    ensures k.directive.NotLimited? ==> r <= src.Length + src.Length / 255 + 2
    ensures src.Length > LZ4_MAX_INPUT_SIZE || (k.tableType.ByU16? && src.Length >= LZ4_64K_LIMIT) ==> r == 0
    ensures src.Length <= LZ4_MAX_INPUT_SIZE && (k.tableType.ByU16? ==> src.Length < LZ4_64K_LIMIT)
      ==> (k.directive.NotLimited? || (k.directive.FillOutput? && 1 <= dst.Length)) ==> r > 0
    ensures src.Length <= LZ4_MAX_INPUT_SIZE ==> (k.tableType.ByU16? ==> src.Length < LZ4_64K_LIMIT) ==>
      (k.directive.FillOutput? ==> 1 <= dst.Length) ==>
      Emitted(JobFor(ctx.hash, src[..], k, acceleration), old(ctx.hashTable[..]), k.directive, dst[..], r, consumed)
  {
    hide EntryOk, Decode, Strict;
    consumed := src.Length;
    if src.Length > LZ4_MAX_INPUT_SIZE {
      return 0, consumed;
    }
    if src.Length == 0 {
      if !k.directive.NotLimited? && dst.Length == 0 {
        return 0, consumed;
      }
      dst[0] := 0;
      EmptyBlock();
      assert dst[..1] == [0] && src[..] == [];
      assert src[..][0..0] == [] && BlockBytes([], []) == [0];
      return 1, 0;
    }
    r, consumed := CompressValidated(ctx, src, dst, k, acceleration);
  }

  lemma EmptyBlock()
    ensures Compressed([], [0], 0)
  {
    hide Decode, Strict;
    var none: seq<Byte> := [];
    assert BlockBytes([], none) == [0] && Replay([]) + none == none[..0];
    BlockRoundTrip([], none);
  }

  // ---------------------------------------------------------------------------
  // Entry points
  // ---------------------------------------------------------------------------

  function ClampAcceleration(acceleration: int): (a: Pos)
    ensures a <= 65537 && (1 <= acceleration <= 65537 ==> a == acceleration)
    ensures (acceleration < 1 ==> a == 1) && (65537 < acceleration ==> a == 65537)
  {
    if acceleration < 1 then 1
    else if acceleration > LZ4_ACCELERATION_MAX then LZ4_ACCELERATION_MAX
    else acceleration
  }

  /** 16-bit indexes below 64 KB and 11 bytes. */
  function TableFor(n: nat): (t: TableType)
    ensures (t == ByU16 <==> n < 65547) && (t == ByU32 <==> 65547 <= n)
  {
    if n < LZ4_64K_LIMIT then ByU16 else ByU32
  }

  /** The sequences of an input, with a table and an offset left from before. */
  function FastSequences(hash: seq<Byte> -> nat, s: seq<Byte>, prepared: (Table, nat), acceleration: int)
    : (qs: seq<Sequence>)
    ensures Span(qs) <= |s|
  {
    var j := Job(hash, s, prepared.1, TableFor(|s|), ClampAcceleration(acceleration));
    SizeOfNone();
    Sequences(j, prepared.0)
  }

  /** The result for an input and a room: the block, if it fits. */
  ghost predicate FitsOrNothing(qs: seq<Sequence>, s: seq<Byte>, dst: seq<Byte>, r: nat)
    requires Span(qs) <= |s|
  {
    if |s| <= LZ4_MAX_INPUT_SIZE && BlockSize(qs, |s|) <= |dst|
    then r == BlockSize(qs, |s|) && IsBlock(dst[..r], qs, s, |s|)
    else r == 0
  }

  ghost predicate AllEqual(s: seq<Byte>) { forall i :: 0 <= i < |s| ==> s[i] == s[0] }

  lemma FastResult(hash: seq<Byte> -> nat, s: seq<Byte>, prepared: (Table, nat), acceleration: int, dst: seq<Byte>,
      r: nat, d: OutputDirective, consumed: nat)
    requires |s| > LZ4_MAX_INPUT_SIZE ==> r == 0
    requires !d.FillOutput?
    requires |s| <= LZ4_MAX_INPUT_SIZE ==>
      Emitted(Job(hash, s, prepared.1, TableFor(|s|), ClampAcceleration(acceleration)), prepared.0, d, dst, r, consumed)
    ensures FitsOrNothing(FastSequences(hash, s, prepared, acceleration), s, dst, r)
    ensures 13 <= |s| <= 0x7E00_0000 && AllEqual(s)
      ==> r == if 10 + (|s| + 230) / 255 <= |dst| then 10 + (|s| + 230) / 255 else 0
  {
    hide Sequences, IsBlock, HeadSize;
    if 13 <= |s| && AllEqual(s) {
      EqualBytes(Job(hash, s, prepared.1, TableFor(|s|), ClampAcceleration(acceleration)), prepared.0);
    }
  }

  /** LZ4_compress_fast_extState_fastReset: a context is used again without being cleared. It may be called any
      number of times; a result that is not 0 is a block that stands for the whole input. */
  method CompressFastReset(ctx: Stream, src: array<Byte>, dst: array<Byte>, acceleration: int) returns (r: nat)
    requires src != dst && ctx.Ready()
    modifies dst, ctx, ctx.hashTable
    ensures ctx.Ready()
    ensures r <= dst.Length && (r > 0 ==> Compressed(src[..], dst[..r], src.Length))
    ensures src.Length > LZ4_MAX_INPUT_SIZE ==> r == 0
    ensures src.Length <= 0x7E00_0000 && src.Length + src.Length / 255 + 16 <= dst.Length
      ==> 0 < r <= src.Length + src.Length / 255 + 2
    ensures FitsOrNothing(FastSequences(ctx.hash, src[..],
      Prepared(old(ctx.hashTable[..]), old(ctx.currentOffset), old(ctx.tableType), src.Length, TableFor(src.Length)),
      acceleration), src[..], dst[..], r)
    ensures 13 <= src.Length <= 0x7E00_0000 && AllEqual(src[..])
      ==> r == if 10 + (src.Length + 230) / 255 <= dst.Length then 10 + (src.Length + 230) / 255 else 0
  {
    hide Decode, Strict, EntryOk;
    var t := TableFor(src.Length);
    ctx.PrepareTable(src.Length, t);
    var d := if dst.Length >= CompressBound(src.Length) then NotLimited else LimitedOutput;
    var k := Mode(d, ctx.currentOffset, t, t.ByU16? && ctx.currentOffset != 0);
    var consumed;
    ghost var prepared := (ctx.hashTable[..], ctx.currentOffset);
    r, consumed := CompressGeneric(ctx, src, dst, k, ClampAcceleration(acceleration));
    FastResult(ctx.hash, src[..], prepared, acceleration, dst[..], r, d, consumed);
  }

  /** LZ4_compress_fast: the same with a fresh context. */
  method CompressFast(hash: seq<Byte> -> nat, src: array<Byte>, dst: array<Byte>, acceleration: int) returns (r: nat)
    requires src != dst
    modifies dst
    ensures r <= dst.Length && (r > 0 ==> Compressed(src[..], dst[..r], src.Length))
    ensures src.Length > LZ4_MAX_INPUT_SIZE ==> r == 0
    ensures src.Length <= 0x7E00_0000 && src.Length + src.Length / 255 + 16 <= dst.Length
      ==> 0 < r <= src.Length + src.Length / 255 + 2
    ensures FitsOrNothing(FastSequences(hash, src[..], (EmptyTable(), 0), acceleration), src[..], dst[..], r)
    ensures 13 <= src.Length <= 0x7E00_0000 && AllEqual(src[..])
      ==> r == if 10 + (src.Length + 230) / 255 <= dst.Length then 10 + (src.Length + 230) / 255 else 0
  {
    hide Decode, Strict, EntryOk;
    var ctx := new Stream(hash);
    var d := if dst.Length >= CompressBound(src.Length) then NotLimited else LimitedOutput;
    var consumed;
    assert ctx.hashTable[..] == EmptyTable();
    r, consumed := CompressGeneric(ctx, src, dst, Mode(d, 0, TableFor(src.Length), false),
      ClampAcceleration(acceleration));
    FastResult(hash, src[..], (EmptyTable(), 0), acceleration, dst[..], r, d, consumed);
  }

  /** Three bytes more than the block takes are enough to fill an output with all of it. */
  lemma FilledAll(qs: seq<Sequence>, s: seq<Byte>, dst: seq<Byte>, r: nat, consumed: nat)
    requires Span(qs) <= |s| && (qs != [] ==> Span(qs) + LASTLITERALS <= |s|)
    requires var fs := Fill(qs, |dst|);
      && r <= |dst| && IsBlock(dst[..r], fs, s, consumed)
      && (consumed < |s| ==> Size(fs) + HeadSize(consumed - Span(fs) + 1) > |dst|)
    ensures BlockSize(qs, |s|) + 3 <= |dst| ==> consumed == |s| && r == BlockSize(qs, |s|)
  {
    hide Valid, Replay, SequencesBytes, Size, Span, Fill;
    if BlockSize(qs, |s|) + 3 <= |dst| {
      if qs == [] {
        assert Fill(qs, |dst|) == [] by { TakenNone(true, |dst|); }
        SizeOfNone();
      } else {
        FillTakesAll(qs, |dst|);
      }
      SizeIsLength(qs);
    }
  }

  /** LZ4_compress_destSize: fills `dst`, and says how much of the input went in. */
  method CompressDestSize(hash: seq<Byte> -> nat, src: array<Byte>, dst: array<Byte>) returns (r: nat, consumed: nat)
    requires src != dst
    modifies dst
    ensures r <= dst.Length && (r > 0 ==> Compressed(src[..], dst[..r], consumed))
    ensures r == 0 <==> src.Length > LZ4_MAX_INPUT_SIZE || dst.Length == 0
    ensures src.Length <= LZ4_MAX_INPUT_SIZE && CompressBound(src.Length) <= dst.Length ==> consumed == src.Length
    ensures r > 0 && consumed < src.Length ==> r + 1 >= dst.Length
    ensures var qs := FastSequences(hash, src[..], (EmptyTable(), 0), 1);
      && (r > 0 && BlockSize(qs, src.Length) + 3 <= dst.Length ==>
            consumed == src.Length && r == BlockSize(qs, src.Length))
      && (r > 0 && dst.Length < CompressBound(src.Length) ==>
            IsBlock(dst[..r], Fill(qs, dst.Length), src[..], consumed))
  {
    hide Decode, Strict, EntryOk, Sequences, Size, Span, IsBlock, Compressed, Fill;
    ghost var qs := FastSequences(hash, src[..], (EmptyTable(), 0), 1);
    if dst.Length >= CompressBound(src.Length) {
      r := CompressFast(hash, src, dst, 1);
      consumed := src.Length;
    } else {
      var ctx := new Stream(hash);
      assert ctx.hashTable[..] == EmptyTable();
      r, consumed := CompressGeneric(ctx, src, dst, Mode(FillOutput, 0, TableFor(src.Length), false), 1);
      if r > 0 {
        FilledAll(qs, src[..], dst[..], r, consumed);
      }
    }
  }
}
