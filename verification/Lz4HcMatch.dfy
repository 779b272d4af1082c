/** The match finder of lz4hc.c, without dictionary: hash table, chains, chain swap and pattern analysis. A match that
    is returned is one, and with enough attempts it is the longest there is within reach. */
module Lz4HcMatch {
  import opened Basics
  import opened Lz4Format
  import opened Lz4Emit
  import opened Lz4Greedy
  import opened Lz4HcChains
  import opened Lz4Encoder

  /** LZ4HC_countPattern: how often `b` is repeated from `from` on, eight bytes at a time and then one. */
  method CountPattern(src: array<Byte>, from: nat, limit: nat, b: Byte) returns (n: nat)
    requires limit <= src.Length
    ensures from <= limit ==> from + n <= limit
    ensures AllAre(src[..], from, n, b) || (n == 0 && from > src.Length)
    ensures from + n < limit ==> src[from + n] != b
  {
    n := 0;
    if from > limit {
      return;
    }
    while from + n + 7 < limit
      invariant from + n <= limit && AllAre(src[..], from, n, b)
    {
      var same := CommonWithPattern(src, from + n, b);
      n := n + same;
      if same < 8 {
        return;
      }
    }
    while from + n < limit && src[from + n] == b
      invariant from + n <= limit && AllAre(src[..], from, n, b)
    {
      n := n + 1;
    }
  }

  method CommonWithPattern(src: array<Byte>, from: nat, b: Byte) returns (n: nat)
    requires from + 8 <= src.Length
    ensures n <= 8 && AllAre(src[..], from, n, b) && (n < 8 ==> src[from + n] != b)
  {
    n := 0;
    while n < 8 && src[from + n] == b
      invariant n <= 8 && AllAre(src[..], from, n, b)
    {
      n := n + 1;
    }
  }

  /** LZ4HC_reverseCountPattern: how often `b` is repeated before `at`, four bytes at a time and then one. */
  method ReverseCountPattern(src: array<Byte>, at: nat, b: Byte) returns (n: nat)
    requires at <= src.Length
    ensures n <= at && AllAre(src[..], at - n, n, b)
    ensures n < at ==> src[at - n - 1] != b
  {
    n := 0;
    while at >= n + 4 && src[at - n - 1] == b && src[at - n - 2] == b && src[at - n - 3] == b && src[at - n - 4] == b
      invariant n <= at && AllAre(src[..], at - n, n, b)
    {
      n := n + 4;
    }
    while at > n && src[at - n - 1] == b
      invariant n <= at && AllAre(src[..], at - n, n, b)
    {
      n := n + 1;
    }
  }

  /** What is known about the bytes at `ip`: nothing, that they are not one repeated byte, or that they are. */
  datatype Repeat = Untested | Not | Confirmed(length: nat)

  /** LZ4HC_CCtx_internal: indexes from `lowLimit` on are those of the input, earlier ones are left from before. */
  class HcContext {
    const hash: seq<Byte> -> nat
    const hashTable: array<nat>
    const chainTable: array<nat>
    var nextToUpdate: nat
    var lowLimit: nat
    var end: nat
    var dirty: bool

    ghost predicate Tables(top: nat)
      reads hashTable, chainTable
    {
      && hashTable.Length == HC_HASHTABLESIZE && chainTable.Length == HC_MAXD
      && (forall h :: 0 <= h < hashTable.Length ==> hashTable[h] < top || hashTable[h] == top == 0)
      && (forall i :: 0 <= i < chainTable.Length ==> chainTable[i] < HC_MAXD)
    }

    /** Between two blocks. */
    ghost predicate Ready()
      reads this, hashTable, chainTable
    {
      Tables(end) && end < U32_MODULUS
    }

    /** While an input of `n` bytes is searched. */
    ghost predicate Searching(n: nat)
      reads this, hashTable, chainTable
    {
      && Tables(nextToUpdate) && 64 * KB <= lowLimit <= nextToUpdate <= lowLimit + n && lowLimit + n < U32_MODULUS
    }

    /** The tables hold the chains of the positions that are inserted. */
    ghost predicate Chains(s: seq<Byte>)
      reads this, hashTable, chainTable
    {
      && lowLimit <= nextToUpdate
      && Chained(hash, s, lowLimit, nextToUpdate - lowLimit, hashTable[..], chainTable[..])
    }

    constructor (hash: seq<Byte> -> nat)
      ensures Ready() && fresh(hashTable) && fresh(chainTable) && this.hash == hash
    {
      this.hash := hash;
      hashTable := new nat[HC_HASHTABLESIZE](_ => 0);
      chainTable := new nat[HC_MAXD](_ => 0);
      nextToUpdate, lowLimit, end, dirty := 0, 0, 0, false;
    }

    /** LZ4_initStreamHC and LZ4HC_clearTables. */
    method Clear(chain: nat)
      requires hashTable.Length == HC_HASHTABLESIZE && chainTable.Length == HC_MAXD && chain < HC_MAXD
      modifies this`end, hashTable, chainTable
      ensures end == 0 && Tables(0)
    {
      forall h | 0 <= h < hashTable.Length {
        hashTable[h] := 0;
      }
      forall i | 0 <= i < chainTable.Length {
        chainTable[i] := chain;
      }
      end := 0;
    }

    /** LZ4_resetStreamHC_fast, then LZ4HC_init_internal: after a failure everything is cleared; indexes go on where the
        last block ended, after a gap of 64 KB; tables are cleared after 1 GB. */
    method Init()
      requires Ready()
      modifies this, hashTable, chainTable
      ensures Ready() && Tables(nextToUpdate) && nextToUpdate == lowLimit == end && 64 * KB <= end <= GB + 64 * KB
      ensures forall s: seq<Byte> :: Chains(s)
    {
      if dirty {
        Clear(0);
        dirty := false;
      }
      if end > GB {
        Clear(0xFFFF);
      }
      var startingOffset := end + 64 * KB;
      nextToUpdate, lowLimit, end := startingOffset, startingOffset, startingOffset;
      forall s: seq<Byte>
        ensures Chains(s)
      {
        NothingChained(hash, s, lowLimit, hashTable[..], chainTable[..]);
      }
    }

    lemma SearchedIsReady(n: nat)
      requires Searching(n) && end == lowLimit + n
      ensures Ready()
    {
    }

    /** LZ4HC_Insert: positions before `ip` are hashed and chained. */
    method Insert(src: array<Byte>, ip: nat)
      requires Searching(src.Length) && ip + 4 <= src.Length && nextToUpdate <= lowLimit + ip
      modifies this`nextToUpdate, hashTable, chainTable
      requires Chains(src[..])
      ensures Searching(src.Length) && nextToUpdate == lowLimit + ip && Chains(src[..])
    {
      hide HashAt, Head, Linked;
      var target := lowLimit + ip;
      var idx: nat := nextToUpdate;
      while idx < target
        invariant Tables(idx) && nextToUpdate <= idx <= target
        invariant Chained(hash, src[..], lowLimit, idx - lowLimit, hashTable[..], chainTable[..])
      {
        var h := HashAt(hash, src[..], idx - lowLimit);
        ChainOne(hash, src[..], lowLimit, idx - lowLimit, hashTable[..], chainTable[..]);
        ghost var heads, links := hashTable[..], chainTable[..];
        var delta: nat := idx - hashTable[h];
        if delta > LZ4_DISTANCE_MAX {
          delta := LZ4_DISTANCE_MAX;
        }
        chainTable[idx % HC_MAXD] := delta;
        hashTable[h] := idx;
        assert hashTable[..] == heads[h := idx] && chainTable[..] == links[idx % HC_MAXD := delta];
        idx := idx + 1;
      }
      nextToUpdate := target;
    }

    /** DELTANEXTU16. */
    function Delta(index: nat): (delta: nat)
      requires chainTable.Length == HC_MAXD && forall i :: 0 <= i < chainTable.Length ==> chainTable[i] < HC_MAXD
      reads chainTable
      ensures delta < HC_MAXD && delta == LinkAt(chainTable[..], index)
    {
      chainTable[index % HC_MAXD]
    }

    /** The best match so far: none that is longer than asked for, or one of `longest` bytes. */
    ghost predicate Found(s: seq<Byte>, ip: nat, asked: nat, longest: nat, m: nat) {
      longest == asked || (asked < longest && MINMATCH <= longest && ip + longest + LASTLITERALS <= |s|
        && IsMatch(s, m, ip, longest))
    }

    /** A match that is longer agrees in the two bytes where it would be, and any match in its first four. */
    lemma RunReaches(s: seq<Byte>, c: nat, ip: nat, longest: nat)
      requires c < ip && ip + MFLIMIT <= |s| && 1 <= longest && ip + longest + LASTLITERALS <= |s|
      ensures longest < Run(s, c, ip) ==> SameBytes(s, c + longest - 1, ip + longest - 1, 2)
      ensures MINMATCH <= Run(s, c, ip) ==> SameBytes(s, c, ip, 4)
    {
      hide CommonRun, SameRun;
      CommonRunAgrees(s, c, ip, |s| - LASTLITERALS);
      var n := Run(s, c, ip);
      if longest < n {
        RunAt(s, c, ip, n, longest - 1);
        RunAt(s, c, ip, n, longest);
        SameTwo(s, c + longest - 1, ip + longest - 1);
      }
      if MINMATCH <= n {
        RunInFour(s, c, ip, 0, n);
      }
    }

    /** A candidate of the chain is compared. */
    method TryCandidate(src: array<Byte>, ip: nat, candidate: nat, ghost asked: nat, longest: nat, best: nat)
      returns (matchLength: nat, longest': nat, best': nat)
      requires candidate < ip <= candidate + LZ4_DISTANCE_MAX && ip + MFLIMIT <= src.Length && 1 <= longest
      requires ip + longest + LASTLITERALS <= src.Length && Found(src[..], ip, asked, longest, best)
      ensures longest <= longest' && ip + longest' + LASTLITERALS <= src.Length
        && Found(src[..], ip, asked, longest', best')
      ensures matchLength == 0 || MINMATCH <= matchLength <= longest'
      ensures var run := Run(src[..], candidate, ip);
        && longest' == (if MINMATCH <= run && longest < run then run else longest)
        && (matchLength == 0 || matchLength == run)
    {
      hide SameBytes, SameRun, CommonRun;
      RunReaches(src[..], candidate, ip, longest);
      matchLength, longest', best' := 0, longest, best;
      if SameBytes(src[..], candidate + longest - 1, ip + longest - 1, 2) {
        if SameBytes(src[..], candidate, ip, 4) {
          SameBytesRun(src[..], candidate, ip, 4);
          var more := Count(src, ip + MINMATCH, candidate + MINMATCH, src.Length - LASTLITERALS);
          RunsJoin(src[..], candidate, ip, MINMATCH, more);
          matchLength := MINMATCH + more;
          LongestIsCommonRun(src[..], candidate, ip, src.Length - LASTLITERALS, matchLength);
          if matchLength > longest {
            longest', best' := matchLength, candidate;
          }
        }
      }
    }

    /** Chain swap: the position inside the match whose chain goes back farthest, and how far. */
    method BestChain(matchIndex: nat, longest: nat, chainPos: nat) returns (distance: nat, chainPos': nat)
      requires chainTable.Length == HC_MAXD && forall i :: 0 <= i < chainTable.Length ==> chainTable[i] < HC_MAXD
      requires MINMATCH <= longest
      ensures 1 <= distance < HC_MAXD
      ensures if distance == 1 then chainPos' == chainPos
              else chainPos' + MINMATCH <= longest && distance == Delta(matchIndex + chainPos')
      ensures Delta(matchIndex) <= distance
    {
      distance, chainPos' := 1, chainPos;
      var end := longest - MINMATCH + 1;
      var accel, pos := 16, 0;
      while pos < end
        invariant 16 <= accel && 1 <= distance < HC_MAXD && (0 < pos ==> Delta(matchIndex) <= distance)
        invariant if distance == 1 then chainPos' == chainPos
                  else chainPos' < end && distance == Delta(matchIndex + chainPos')
        decreases end - pos
      {
        var candidateDist := Delta(matchIndex + pos);
        var step := accel / 16;
        accel := accel + 1;
        if candidateDist > distance {
          distance, chainPos', accel := candidateDist, pos, 16;
        }
        pos := pos + step;
      }
    }

    /** The four bytes at `ip` are one repeated byte. */
    method TestRepeat(src: array<Byte>, ip: nat, known: Repeat) returns (r: Repeat)
      requires ip + MFLIMIT <= src.Length && RepeatOk(src[..], ip, known)
      ensures RepeatOk(src[..], ip, r) && !r.Untested?
    {
      r := known;
      if known.Untested? {
        if src[ip] == src[ip + 2] && src[ip + 1] == src[ip + 3] && src[ip] == src[ip + 3] {
          var more := CountPattern(src, ip + 4, src.Length - LASTLITERALS, src[ip]);
          r := Confirmed(more + 4);
        } else {
          r := Not;
        }
      }
    }

    ghost predicate RepeatOk(s: seq<Byte>, ip: nat, r: Repeat)
      requires ip < |s|
    {
      && (r.Confirmed? ==>
            && 4 <= r.length && ip + r.length + LASTLITERALS <= |s| && AllAre(s, ip, r.length, s[ip])
            && (ip + r.length + LASTLITERALS < |s| ==> s[ip + r.length] != s[ip]))
      && (r.Not? ==> !AllAre(s, ip, 4, s[ip]))
    }

    ghost predicate IsHunt(u: Hunt, s: seq<Byte>, ip: nat)
      reads this
    {
      u.hash == hash && u.s == s && u.low == lowLimit && u.ip == ip && HuntOk(u)
    }

    /** Pattern analysis at a candidate that is inside a run of the byte that is repeated at `ip`: where the search goes
        on, and perhaps a longer match. `back` says that the search goes on from the beginning of the run. */
    method AnalysePattern(src: array<Byte>, ip: nat, candidateIdx: nat, lowest: nat, length: nat, ghost asked: nat,
        longest: nat, best: nat, ghost u: Hunt)
      returns (matchIndex: nat, back: bool, stop: bool, longest': nat, best': nat)
      requires lowLimit <= lowest <= candidateIdx < lowLimit + ip && ip + MFLIMIT <= src.Length
      requires 4 <= length && ip + length + LASTLITERALS <= src.Length && AllAre(src[..], ip, length, src[ip])
      requires AllAre(src[..], candidateIdx - lowLimit, 4, src[ip])
      requires ip + longest + LASTLITERALS <= src.Length && Found(src[..], ip, asked, longest, best)
      requires ip + length + LASTLITERALS < src.Length ==> src[ip + length] != src[ip]
      requires IsHunt(u, src[..], ip) && lowest == Lowest(u) && AllFrom(u, candidateIdx + 1, longest)
      ensures !stop && lowest <= matchIndex <= candidateIdx && OnChain(u, matchIndex, 0, longest')
      ensures if back then AllFrom(u, matchIndex, longest') else AllAbove(u, matchIndex, longest')
      ensures longest <= longest' && ip + longest' + LASTLITERALS <= src.Length
        && Found(src[..], ip, asked, longest', best')
    {
      hide SameRun, AllFrom, AllAbove, OnChain;
      var at := candidateIdx - lowLimit;
      longest', best', stop := longest, best, false;
      var more := CountPattern(src, at + 4, src.Length - LASTLITERALS, src[ip]);
      var forwardLength := more + 4;
      var backLength := ReverseCountPattern(src, at, src[ip]);
      if backLength > candidateIdx - lowest {
        backLength := candidateIdx - lowest;
      }
      var segmentLength := backLength + forwardLength;
      assert Segment(u, at, backLength, forwardLength, length, src[ip]);
      if segmentLength >= length && forwardLength <= length {
        EndsTogether(u, at, backLength, forwardLength, length, src[ip], longest);
        return candidateIdx + forwardLength - length, false, false, longest, best;
      }
      matchIndex, back := candidateIdx - backLength, true;
      var maxMl := if segmentLength < length then segmentLength else length;
      if longest < maxMl {
        if lowLimit + ip - matchIndex > LZ4_DISTANCE_MAX {
          stop := true;
          return;
        }
        TwoRuns(src[..], at - backLength, ip, maxMl, segmentLength, length, src[ip]);
        longest', best' := maxMl, at - backLength;
      }
      FromTheBeginning(u, at, backLength, forwardLength, length, src[ip], longest, longest');
    }

    /** LZ4HC_InsertAndGetWiderMatch, forward only: a match at `ip` that is longer than `asked`, if one is found. */
    method InsertAndGetWiderMatch(src: array<Byte>, ip: nat, asked: nat, maxNbAttempts: nat, favorDecSpeed: bool)
      returns (longest: nat, best: nat)
      requires Searching(src.Length) && ip + MFLIMIT <= src.Length && nextToUpdate <= lowLimit + ip
      requires 1 <= asked && ip + asked + LASTLITERALS <= src.Length && Chains(src[..])
      modifies this`nextToUpdate, hashTable, chainTable
      ensures Searching(src.Length) && nextToUpdate == lowLimit + ip && Chains(src[..])
      ensures asked <= longest && Found(src[..], ip, asked, longest, best)
      ensures (if ip <= 65535 then ip else 65535) <= maxNbAttempts ==>
        IsLongest(src[..], ip, favorDecSpeed, longest)
    {
      hide Found, Chained, IsLongest;
      Insert(src, ip);
      longest, best := Search(src, ip, asked, maxNbAttempts, favorDecSpeed);
    }

    /** One attempt: the candidate is compared, unless it is too near. */
    method Attempt(src: array<Byte>, ip: nat, matchIndex: nat, favorDecSpeed: bool, ghost asked: nat, longest: nat,
        best: nat, ghost u: Hunt, ghost pos: nat)
      returns (matchLength: nat, longest': nat, best': nat)
      requires IsHunt(u, src[..], ip) && u.favorDecSpeed == favorDecSpeed
      requires Lowest(u) <= matchIndex < lowLimit + ip && AllAbove(u, matchIndex, longest) && 1 <= longest
      requires ip + longest + LASTLITERALS <= src.Length && Found(src[..], ip, asked, longest, best)
      ensures longest <= longest' && ip + longest' + LASTLITERALS <= src.Length
        && Found(src[..], ip, asked, longest', best')
      requires OnChain(u, matchIndex, pos, longest)
      ensures OnChain(u, matchIndex, pos, longest')
      ensures AllFrom(u, matchIndex, longest') && (Eligible(u, matchIndex) ==> Beaten(u, matchIndex, longest'))
      ensures matchLength == longest' ==>
        Eligible(u, matchIndex) && RunOf(u, matchIndex) == longest' && MINMATCH <= longest'
    {
      hide Found, SameRun, AllAbove, AllFrom, CommonRun, HashIs, HashAt;
      matchLength, longest', best' := 0, longest, best;
      if !(favorDecSpeed && lowLimit + ip - matchIndex < 8) {
        matchLength, longest', best' := TryCandidate(src, ip, matchIndex - lowLimit, asked, longest, best);
      }
      Tried(u, matchIndex, longest, longest');
    }

    lemma StillBeaten(u: Hunt, c: nat, was: nat, longest: nat)
      requires HuntOk(u) && was <= longest && (Eligible(u, c) ==> Beaten(u, c, was))
      ensures Eligible(u, c) ==> Beaten(u, c, longest)
    {
    }

    /** At a candidate as long as the longest match: goes on along the chain that goes back farthest. */
    method SwapChain(src: array<Byte>, ip: nat, matchIndex: nat, longest: nat, chainPos: nat, ghost u: Hunt)
      returns (moved: bool, stop: bool, index: nat, chainPos': nat)
      requires Searching(src.Length) && nextToUpdate == lowLimit + ip && Chains(src[..])
      requires IsHunt(u, src[..], ip) && Eligible(u, matchIndex) && AllFrom(u, matchIndex, longest)
      requires RunOf(u, matchIndex) == longest && MINMATCH <= longest && matchIndex + longest <= lowLimit + ip
      requires ip + longest + LASTLITERALS <= src.Length
      ensures !stop
      ensures if moved then index < matchIndex && AllAbove(u, index, longest) && OnChain(u, index, chainPos', longest)
              else chainPos' == chainPos
    {
      hide HashAt, Chained, Run, AllAbove, AllFrom, HashIs, OnChain;
      ghost var heads, links := hashTable[..], chainTable[..];
      var distance;
      distance, chainPos' := BestChain(matchIndex, longest, chainPos);
      moved, stop, index := distance > 1, false, matchIndex;
      if moved {
        Swapped(u, heads, links, matchIndex, chainPos', longest);
        Followed(u, heads, links, matchIndex, chainPos', longest);
        if distance > matchIndex {
          stop := true;
        } else {
          index := matchIndex - distance;
        }
      }
    }

    /** Behind a candidate whose predecessor is the position before it: perhaps a repeated byte, and then its whole
        segment is dealt with at once. */
    method AtRepeat(src: array<Byte>, ip: nat, matchIndex: nat, lowest: nat, known: Repeat, ghost asked: nat,
        longest: nat, best: nat, ghost u: Hunt)
      returns (repeat: Repeat, moved: bool, stop: bool, index: nat, longest': nat, best': nat)
      requires Searching(src.Length) && nextToUpdate == lowLimit + ip && Chains(src[..])
      requires lowLimit <= lowest <= matchIndex < lowLimit + ip && ip + MFLIMIT <= src.Length
      requires RepeatOk(src[..], ip, known)
      requires ip + longest + LASTLITERALS <= src.Length && Found(src[..], ip, asked, longest, best)
      requires IsHunt(u, src[..], ip) && lowest == Lowest(u) && AllFrom(u, matchIndex, longest)
      ensures !stop && RepeatOk(src[..], ip, repeat)
      ensures longest <= longest' && ip + longest' + LASTLITERALS <= src.Length
        && Found(src[..], ip, asked, longest', best')
      ensures if moved then index < matchIndex && AllAbove(u, index, longest') && OnChain(u, index, 0, longest')
              else longest' == longest
    {
      hide Found, RepeatOk, AllAre, HashAt, Chained, Run, AllAbove, AllFrom, HashIs, OnChain;
      ghost var heads, links := hashTable[..], chainTable[..];
      moved, stop, index, longest', best' := false, false, matchIndex, longest, best;
      repeat := TestRepeat(src, ip, known);
      var candidateIdx := matchIndex - 1;
      if repeat.Confirmed? && candidateIdx >= lowest {
        var at := candidateIdx - lowLimit;
        if src[at] == src[ip] && src[at + 1] == src[ip] && src[at + 2] == src[ip] && src[at + 3] == src[ip] {
          FourAre(src[..], at, src[ip]);
          Confirm(src[..], ip, repeat);
          var back;
          index, back, stop, longest', best' :=
            AnalysePattern(src, ip, candidateIdx, lowest, repeat.length, asked, longest, best, u);
          moved := true;
          if back && !stop {
            Followed(u, heads, links, index, 0, longest');
            var next := Delta(index);
            if next > index {
              stop := true;
            } else {
              index := index - next;
            }
          }
        }
      }
    }

    lemma AllAreBeaten(u: Hunt, m: nat, longest: nat)
      requires HuntOk(u) && AllAbove(u, m, longest) && m < Lowest(u)
      ensures IsLongest(u.s, u.ip, u.favorDecSpeed, longest) && !Eligible(u, m)
    {
      hide Run;
      forall c: nat | c < u.ip <= c + 65535 && (u.favorDecSpeed ==> c + 8 <= u.ip)
        ensures Run(u.s, c, u.ip) < 4 || Run(u.s, c, u.ip) <= longest
      {
        assert Eligible(u, u.low + c) && Beaten(u, u.low + c, longest);
      }
    }

    /** The next candidate: behind a repeated pattern, or along the current chain. */
    method Advance(src: array<Byte>, ip: nat, matchIndex: nat, lowest: nat, known: Repeat, chainPos: nat,
        ghost asked: nat, longest: nat, best: nat, ghost u: Hunt)
      returns (repeat: Repeat, stop: bool, index: nat, longest': nat, best': nat)
      requires Searching(src.Length) && nextToUpdate == lowLimit + ip && Chains(src[..])
      requires lowLimit <= lowest <= matchIndex < lowLimit + ip && ip + MFLIMIT <= src.Length
      requires RepeatOk(src[..], ip, known)
      requires ip + longest + LASTLITERALS <= src.Length && Found(src[..], ip, asked, longest, best)
      requires IsHunt(u, src[..], ip) && lowest == Lowest(u) && AllFrom(u, matchIndex, longest)
      requires OnChain(u, matchIndex, chainPos, longest)
      ensures !stop && RepeatOk(src[..], ip, repeat)
      ensures longest <= longest' && ip + longest' + LASTLITERALS <= src.Length
        && Found(src[..], ip, asked, longest', best')
      ensures index < matchIndex && AllAbove(u, index, longest') && OnChain(u, index, chainPos, longest')
    {
      hide Found, RepeatOk, SameRun, IsMatch, AllAre, HashAt, Chained, Run, AllAbove, AllFrom, HashIs, Beaten, Eligible,
        RunOf, OnChain, Lowest;
      repeat, stop, longest', best' := known, false, longest, best;
      var next := Delta(matchIndex);
      if next == 1 && chainPos == 0 {
        var moved;
        repeat, moved, stop, index, longest', best' :=
          AtRepeat(src, ip, matchIndex, lowest, known, asked, longest, best, u);
        if stop || moved {
          return;
        }
      }
      Followed(u, hashTable[..], chainTable[..], matchIndex, chainPos, longest');
      next := Delta(matchIndex + chainPos);
      index := matchIndex - next;
    }

    /** The search along the chains. */
    method Search(src: array<Byte>, ip: nat, asked: nat, maxNbAttempts: nat, favorDecSpeed: bool)
      returns (longest: nat, best: nat)
      requires Searching(src.Length) && ip + MFLIMIT <= src.Length && nextToUpdate == lowLimit + ip
      requires 1 <= asked && ip + asked + LASTLITERALS <= src.Length && Chains(src[..])
      ensures asked <= longest && Found(src[..], ip, asked, longest, best)
      ensures (if ip <= 65535 then ip else 65535) <= maxNbAttempts ==>
        IsLongest(src[..], ip, favorDecSpeed, longest)
      ensures var u, first := Hunt(hash, src[..], lowLimit, ip, favorDecSpeed), hashTable[HashAt(hash, src[..], ip)];
        1 <= maxNbAttempts && Eligible(u, first) ==> Beaten(u, first, longest)
    {
      hide Found, RepeatOk, SameRun, IsMatch, AllAre, HashAt, Chained, IsLongest, Run, AllAbove, AllFrom, HashIs;
      hide Beaten, Eligible, RunOf, OnChain;
      ghost var s := src[..];
      var ipIndex := lowLimit + ip;
      var lowest := if lowLimit + LZ4_DISTANCE_MAX + 1 > ipIndex then lowLimit else ipIndex - LZ4_DISTANCE_MAX;
      var nbAttempts: nat, chainPos: nat, repeat := maxNbAttempts, 0, Untested;
      longest, best := asked, 0;
      Nothing(src[..], ip, asked);
      var matchIndex: nat := hashTable[HashAt(hash, src[..], ip)];
      ghost var u, first := Hunt(hash, s, lowLimit, ip, favorDecSpeed), matchIndex;
      ghost var heads, links := hashTable[..], chainTable[..];
      FirstCandidate(u, heads, links, longest);
      assert lowest == Lowest(u) && lowLimit <= lowest;
      hide Lowest;
      while matchIndex >= lowest && nbAttempts > 0
        invariant matchIndex < ipIndex && asked <= longest && ip + longest + LASTLITERALS <= src.Length
        invariant Found(s, ip, asked, longest, best) && RepeatOk(s, ip, repeat)
        invariant nbAttempts <= maxNbAttempts && AllAbove(u, matchIndex, longest)
        invariant OnChain(u, matchIndex, chainPos, longest)
        invariant ipIndex - lowest <= maxNbAttempts ==> matchIndex < lowest || matchIndex - lowest < nbAttempts
        invariant if nbAttempts == maxNbAttempts then matchIndex == first
                  else Eligible(u, first) ==> Beaten(u, first, longest)
        decreases nbAttempts
      {
        var matchLength;
        ghost var was := longest;
        nbAttempts := nbAttempts - 1;
        matchLength, longest, best := Attempt(src, ip, matchIndex, favorDecSpeed, asked, longest, best, u, chainPos);
        if nbAttempts + 1 < maxNbAttempts {
          StillBeaten(u, first, was, longest);
        }
        was := longest;
        if matchLength == longest && matchIndex + longest <= ipIndex {
          var moved, stop, index;
          moved, stop, index, chainPos := SwapChain(src, ip, matchIndex, longest, chainPos, u);
          if stop {
            break;
          }
          if moved {
            matchIndex := index;
            continue;
          }
        }
        var stop;
        repeat, stop, matchIndex, longest, best :=
          Advance(src, ip, matchIndex, lowest, repeat, chainPos, asked, longest, best, u);
        StillBeaten(u, first, was, longest);
        if stop {
          break;
        }
      }
      if matchIndex < lowest {
        AllAreBeaten(u, matchIndex, longest);
      }
    }

    lemma Nothing(s: seq<Byte>, ip: nat, asked: nat)
      requires ip < |s|
      ensures Found(s, ip, asked, asked, 0) && RepeatOk(s, ip, Untested)
    {
    }

    lemma Confirm(s: seq<Byte>, ip: nat, r: Repeat)
      requires ip < |s| && RepeatOk(s, ip, r) && r.Confirmed?
      ensures 4 <= r.length && ip + r.length + LASTLITERALS <= |s| && AllAre(s, ip, r.length, s[ip])
      ensures ip + r.length + LASTLITERALS < |s| ==> s[ip + r.length] != s[ip]
    {
    }

    lemma FourAre(s: seq<Byte>, at: nat, b: Byte)
      requires at + 4 <= |s| && s[at] == b && s[at + 1] == b && s[at + 2] == b && s[at + 3] == b
      ensures AllAre(s, at, 4, b)
    {
    }

    /** LZ4HC_FindLongerMatch: a match, its length 0 if there is none. */
    method FindLongerMatch(src: array<Byte>, ip: nat, minLen: nat, nbSearches: nat, favorDecSpeed: bool)
      returns (off: nat, len: nat)
      requires Searching(src.Length) && ip + MFLIMIT <= src.Length && nextToUpdate <= lowLimit + ip
      requires 1 <= minLen && ip + minLen + LASTLITERALS <= src.Length && Chains(src[..])
      modifies this`nextToUpdate, hashTable, chainTable
      ensures Searching(src.Length) && nextToUpdate == lowLimit + ip && Chains(src[..])
      ensures len != 0 ==>
        off <= ip && MINMATCH <= len && ip + len + LASTLITERALS <= src.Length && IsMatch(src[..], ip - off, ip, len)
      ensures len != 0 ==> (minLen < len || (favorDecSpeed && len == 18)) && ip + minLen + LASTLITERALS < src.Length
      ensures (if ip <= 65535 then ip else 65535) <= nbSearches && !favorDecSpeed ==>
        IsLongest(src[..], ip, false, if len == 0 then minLen else len)
      ensures (if ip <= 65535 then ip else 65535) <= nbSearches && favorDecSpeed ==>
        if len == 18 then IsLongest(src[..], ip, true, 36)
        else IsLongest(src[..], ip, true, if len == 0 then minLen else len)
    {
      hide SameRun, Chained, Run;
      var matchLength, best := InsertAndGetWiderMatch(src, ip, minLen, nbSearches, favorDecSpeed);
      if matchLength <= minLen {
        return 0, 0;
      }
      if favorDecSpeed && 18 < matchLength <= 36 {
        ShorterRun(src[..], best, ip, matchLength, 18);
        matchLength := 18;
      }
      return ip - best, matchLength;
    }

    lemma ShorterRun(s: seq<Byte>, m: nat, ip: nat, n: nat, n': nat)
      requires SameRun(s, m, ip, n) && n' <= n
      ensures SameRun(s, m, ip, n')
    {
    }
  }
}
