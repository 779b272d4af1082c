/** The chains of lz4hc.c: every position is linked to the one before it with the same hash, however far the tables
    have wrapped, and so the search along them, with its two shortcuts, passes over nothing that is longer. */
module Lz4HcChains {
  import opened Basics
  import opened Lz4Format
  import opened Lz4Emit
  import opened Lz4Greedy

  const HC_HASHTABLESIZE := 32768
  const HC_MAXD := 65536

  /** LZ4HC_hashPtr. */
  function HashAt(hash: seq<Byte> -> nat, s: seq<Byte>, p: nat): (h: nat)
    requires p + 4 <= |s|
    ensures h == hash(s[p..p + 4]) % 32768
  {
    hash(s[p..p + 4]) % HC_HASHTABLESIZE
  }

  ghost predicate HashIs(hash: seq<Byte> -> nat, s: seq<Byte>, p: nat, h: nat) {
    p + 4 <= |s| && HashAt(hash, s, p) == h
  }

  // ---------------------------------------------------------------------------
  // The tables
  // ---------------------------------------------------------------------------

  /** Slot `h` holds the index of the last of the positions below `top` with that hash, if there is one. */
  ghost predicate Head(hash: seq<Byte> -> nat, s: seq<Byte>, low: nat, top: nat, h: nat, e: nat) {
    && (low <= e ==> e < low + top && HashIs(hash, s, e - low, h))
    && forall q: nat :: q < top && e < low + q ==> !HashIs(hash, s, q, h)
  }

  /** `delta` goes from `p` to the position before it with the same hash, or at least passes over none. */
  ghost predicate Link(hash: seq<Byte> -> nat, s: seq<Byte>, p: nat, delta: nat) {
    && p + 4 <= |s| && 1 <= delta <= 65535
    && (forall q: nat :: q < p < q + delta ==> !HashIs(hash, s, q, HashAt(hash, s, p)))
    && (delta < 65535 && delta <= p ==> HashIs(hash, s, p - delta, HashAt(hash, s, p)))
  }

  function LinkAt(links: seq<nat>, index: nat): nat
    requires |links| == HC_MAXD
  {
    links[index % HC_MAXD]
  }

  ghost predicate Linked(hash: seq<Byte> -> nat, s: seq<Byte>, low: nat, links: seq<nat>, p: nat)
    requires |links| == HC_MAXD
  {
    Link(hash, s, p, LinkAt(links, low + p))
  }

  /** Positions below `top`: all the heads, and the links that are not overwritten yet. */
  ghost predicate Chained(hash: seq<Byte> -> nat, s: seq<Byte>, low: nat, top: nat, heads: seq<nat>, links: seq<nat>) {
    && |heads| == HC_HASHTABLESIZE && |links| == HC_MAXD
    && (forall h :: 0 <= h < |heads| ==> Head(hash, s, low, top, h, heads[h]))
    && (forall p: nat :: p < top <= p + 65536 ==> Linked(hash, s, low, links, p))
  }

  /** Before anything is inserted: old indexes are below all new ones. */
  lemma NothingChained(hash: seq<Byte> -> nat, s: seq<Byte>, low: nat, heads: seq<nat>, links: seq<nat>)
    requires |heads| == HC_HASHTABLESIZE && |links| == HC_MAXD && forall h :: 0 <= h < |heads| ==> heads[h] < low
    ensures Chained(hash, s, low, 0, heads, links)
  {
  }

  lemma NewLink(hash: seq<Byte> -> nat, s: seq<Byte>, low: nat, top: nat, e: nat)
    requires top + 4 <= |s| && Head(hash, s, low, top, HashAt(hash, s, top), e) && e < low + top
    ensures Link(hash, s, top, if low + top - e > 65535 then 65535 else low + top - e)
  {
    hide HashAt;
  }

  /** The next position is hashed and linked. */
  lemma ChainOne(hash: seq<Byte> -> nat, s: seq<Byte>, low: nat, top: nat, heads: seq<nat>, links: seq<nat>)
    requires Chained(hash, s, low, top, heads, links) && top + 4 <= |s|
    requires heads[HashAt(hash, s, top)] < low + top
    ensures var h := HashAt(hash, s, top);
            var delta := if low + top - heads[h] > 65535 then 65535 else low + top - heads[h];
            Chained(hash, s, low, top + 1, heads[h := low + top], links[(low + top) % HC_MAXD := delta])
  {
    var h := HashAt(hash, s, top);
    var delta := if low + top - heads[h] > 65535 then 65535 else low + top - heads[h];
    var heads', links' := heads[h := low + top], links[(low + top) % HC_MAXD := delta];
    hide HashAt;
    assert Head(hash, s, low, top, h, heads[h]);
    forall g | 0 <= g < |heads'|
      ensures Head(hash, s, low, top + 1, g, heads'[g])
    {
      assert Head(hash, s, low, top, g, heads[g]);
    }
    forall p: nat | p < top + 1 <= p + 65536
      ensures Linked(hash, s, low, links', p)
    {
      if p < top {
        assert (low + p) % HC_MAXD != (low + top) % HC_MAXD;
        assert Linked(hash, s, low, links, p) && LinkAt(links', low + p) == LinkAt(links, low + p);
      } else {
        NewLink(hash, s, low, top, heads[h]);
      }
    }
  }

  // ---------------------------------------------------------------------------
  // Runs
  // ---------------------------------------------------------------------------

  /** The length of the match at `ip` with `c`. */
  function Run(s: seq<Byte>, c: nat, ip: nat): nat
    requires c <= ip && ip + LASTLITERALS <= |s|
  {
    CommonRun(s, c, ip, |s| - LASTLITERALS)
  }

  /** No match at `ip` that starts within reach is longer. To favour decompression speed, nearer than eight bytes does
      not count. */
  ghost predicate IsLongest(s: seq<Byte>, ip: nat, favorDecSpeed: bool, longest: nat) {
    ip + MFLIMIT <= |s| && forall c: nat :: c < ip <= c + 65535 && (favorDecSpeed ==> c + 8 <= ip) ==>
      Run(s, c, ip) < 4 || Run(s, c, ip) <= longest
  }

  lemma {:induction false} CommonRunAgrees(s: seq<Byte>, p: nat, q: nat, limit: nat)
    requires p <= q <= limit <= |s|
    ensures var n := CommonRun(s, p, q, limit); SameRun(s, p, q, n) && (q + n < limit ==> s[p + n] != s[q + n])
    decreases limit - q
  {
    if q < limit && s[p] == s[q] {
      CommonRunAgrees(s, p + 1, q + 1, limit);
      var n := CommonRun(s, p + 1, q + 1, limit);
      forall i | q <= i < q + n + 1
        ensures s[i] == s[p + (i - q)]
      {
        if q < i {
          assert s[i] == s[p + 1 + (i - (q + 1))];
        }
      }
    }
  }

  /** Bytes that agree are part of the run. */
  lemma {:induction false} CommonRunAtLeast(s: seq<Byte>, p: nat, q: nat, limit: nat, n: nat)
    requires p <= q <= limit <= |s| && q + n <= limit && SameRun(s, p, q, n)
    ensures n <= CommonRun(s, p, q, limit)
    decreases n
  {
    if n != 0 {
      assert s[q] == s[p + (q - q)];
      assert forall i :: q + 1 <= i < q + n ==> s[i] == s[p + (i - q)];
      CommonRunAtLeast(s, p + 1, q + 1, limit, n - 1);
    }
  }

  /** Four bytes of a match have the same hash. */
  lemma RunHashes(hash: seq<Byte> -> nat, s: seq<Byte>, c: nat, ip: nat, pos: nat)
    requires c <= ip && ip + LASTLITERALS <= |s| && ip + pos + 4 <= |s|
    ensures pos + 4 <= Run(s, c, ip) ==> HashIs(hash, s, c + pos, HashAt(hash, s, ip + pos))
  {
    CommonRunAgrees(s, c, ip, |s| - LASTLITERALS);
    if pos + 4 <= Run(s, c, ip) {
      RunInFour(s, c, ip, pos, Run(s, c, ip));
    }
  }

  lemma RunInFour(s: seq<Byte>, c: nat, ip: nat, pos: nat, n: nat)
    requires SameRun(s, c, ip, n) && pos + 4 <= n
    ensures s[c + pos..c + pos + 4] == s[ip + pos..ip + pos + 4]
  {
    RunAt(s, c, ip, n, pos);
    RunAt(s, c, ip, n, pos + 1);
    RunAt(s, c, ip, n, pos + 2);
    RunAt(s, c, ip, n, pos + 3);
    SameFour(s, c + pos, ip + pos);
  }

  /** What a link passes over agrees in fewer bytes. */
  lemma LinkPassesOver(hash: seq<Byte> -> nat, s: seq<Byte>, m: nat, pos: nat, delta: nat, ip: nat, c: nat)
    requires ip + pos + 4 <= |s| && ip + LASTLITERALS <= |s| && HashIs(hash, s, m + pos, HashAt(hash, s, ip + pos))
    requires Link(hash, s, m + pos, delta) && c < m < c + delta && c <= ip
    ensures Run(s, c, ip) < pos + 4
  {
    hide HashAt, Run;
    RunHashes(hash, s, c, ip, pos);
    assert !HashIs(hash, s, c + pos, HashAt(hash, s, m + pos));
  }

  // ---------------------------------------------------------------------------
  // Runs of one byte
  // ---------------------------------------------------------------------------

  /** A run of one byte. */
  ghost predicate AllAre(s: seq<Byte>, from: nat, n: nat, b: Byte) {
    from + n <= |s| && forall i :: from <= i < from + n ==> s[i] == b
  }

  lemma TwoRuns(s: seq<Byte>, p: nat, q: nat, n: nat, np: nat, nq: nat, b: Byte)
    requires AllAre(s, p, np, b) && AllAre(s, q, nq, b) && n <= np && n <= nq
    ensures SameRun(s, p, q, n)
  {
  }

  /** A run of `r` equal bytes from `c` on against one of `length` bytes at `ip`: the shorter of the two agrees, and
      more only where both are as long. */
  lemma RunOfOneByte(s: seq<Byte>, c: nat, r: nat, ip: nat, length: nat, b: Byte)
    requires c < ip && ip + length + LASTLITERALS <= |s| && AllAre(s, c, r, b) && AllAre(s, ip, length, b)
    requires c + r + LASTLITERALS < |s| ==> s[c + r] != b
    requires ip + length + LASTLITERALS < |s| ==> s[ip + length] != b
    ensures r < length ==> Run(s, c, ip) == r
    ensures length < r ==> Run(s, c, ip) == length
    ensures r == length ==> length <= Run(s, c, ip)
  {
    var n := if r < length then r else length;
    TwoRuns(s, c, ip, n, r, length, b);
    if r == length {
      CommonRunAtLeast(s, c, ip, |s| - LASTLITERALS, n);
    } else {
      assert r < length ==> s[ip + r] == b;
      assert length < r ==> s[c + length] == b;
      LongestIsCommonRun(s, c, ip, |s| - LASTLITERALS, n);
    }
  }

  // ---------------------------------------------------------------------------
  // The search
  // ---------------------------------------------------------------------------

  /** The input, the index of its first byte, the position that is searched for, and whether positions nearer than
      eight bytes are left out. */
  datatype Hunt = Hunt(hash: seq<Byte> -> nat, s: seq<Byte>, low: nat, ip: nat, favorDecSpeed: bool)

  ghost predicate HuntOk(u: Hunt) { u.ip + MFLIMIT <= |u.s| && HC_MAXD <= u.low }

  /** How far back matches may start. */
  function Lowest(u: Hunt): (lowest: nat)
    ensures u.low <= lowest <= u.low + u.ip
    ensures u.low + u.ip - lowest == if u.ip <= 65535 then u.ip else 65535
  {
    if u.low + LZ4_DISTANCE_MAX + 1 > u.low + u.ip then u.low else u.low + u.ip - LZ4_DISTANCE_MAX
  }

  /** Index `c` may be used. */
  predicate Eligible(u: Hunt, c: nat) {
    Lowest(u) <= c < u.low + u.ip && (u.favorDecSpeed ==> c + 8 <= u.low + u.ip)
  }

  function RunOf(u: Hunt, c: nat): nat
    requires HuntOk(u) && Eligible(u, c)
  {
    Run(u.s, c - u.low, u.ip)
  }

  /** The match with index `c` is none, or not longer than `longest`. */
  ghost predicate Beaten(u: Hunt, c: nat, longest: nat)
    requires HuntOk(u) && Eligible(u, c)
  {
    RunOf(u, c) < MINMATCH || RunOf(u, c) <= longest
  }

  /** The chain that is followed is that of the four bytes `pos` bytes behind the match. */
  ghost predicate OnChain(u: Hunt, m: nat, pos: nat, longest: nat)
    requires HuntOk(u)
  {
    Lowest(u) <= m ==>
      && m < u.low + u.ip && (pos == 0 || (pos + 4 <= longest && m + pos + 4 <= u.low + u.ip))
      && u.ip + pos + 4 <= |u.s| && HashIs(u.hash, u.s, m - u.low + pos, HashAt(u.hash, u.s, u.ip + pos))
  }

  /** All indexes above `m` are beaten, or would be by what is found at `m`. */
  ghost predicate AllAbove(u: Hunt, m: nat, longest: nat)
    requires HuntOk(u)
  {
    forall c :: m < c && Eligible(u, c) ==>
      Beaten(u, c, longest) || (Lowest(u) <= m && Eligible(u, m) && RunOf(u, c) <= RunOf(u, m))
  }

  /** All indexes from `m` on are beaten. */
  ghost predicate AllFrom(u: Hunt, m: nat, longest: nat)
    requires HuntOk(u)
  {
    forall c :: m <= c && Eligible(u, c) ==> Beaten(u, c, longest)
  }

  /** Nothing is above the first candidate that could match. */
  lemma FirstCandidate(u: Hunt, heads: seq<nat>, links: seq<nat>, longest: nat)
    requires HuntOk(u) && Chained(u.hash, u.s, u.low, u.ip, heads, links)
    ensures var m := heads[HashAt(u.hash, u.s, u.ip)]; AllAbove(u, m, longest) && OnChain(u, m, 0, longest)
  {
    hide HashAt, Run, Lowest;
    var h := HashAt(u.hash, u.s, u.ip);
    var m := heads[h];
    assert Head(u.hash, u.s, u.low, u.ip, h, m);
    forall c | m < c && Eligible(u, c)
      ensures Beaten(u, c, longest)
    {
      RunHashes(u.hash, u.s, c - u.low, u.ip, 0);
      assert !HashIs(u.hash, u.s, c - u.low, h);
    }
  }

  /** Once `m` was tried, nothing from it on is left. */
  lemma Tried(u: Hunt, m: nat, was: nat, longest: nat)
    requires HuntOk(u) && AllAbove(u, m, was) && was <= longest
    requires Eligible(u, m) ==> Beaten(u, m, longest)
    ensures AllFrom(u, m, longest)
  {
    hide Run, Lowest;
  }

  /** The next index of the chain: what is passed over is beaten. */
  lemma Followed(u: Hunt, heads: seq<nat>, links: seq<nat>, m: nat, pos: nat, longest: nat)
    requires HuntOk(u) && Chained(u.hash, u.s, u.low, u.ip, heads, links)
    requires Lowest(u) <= m && OnChain(u, m, pos, longest) && AllFrom(u, m, longest)
    ensures var delta := LinkAt(links, m + pos);
            1 <= delta <= 65535 && delta <= m && AllAbove(u, m - delta, longest) && OnChain(u, m - delta, pos, longest)
  {
    hide HashAt, Run, Lowest;
    var delta := LinkAt(links, m + pos);
    var p := m - u.low + pos;
    assert Linked(u.hash, u.s, u.low, links, p) && u.low + p == m + pos;
    forall c | m - delta < c && Eligible(u, c)
      ensures Beaten(u, c, longest)
    {
      if c < m {
        LinkPassesOver(u.hash, u.s, m - u.low, pos, delta, u.ip, c - u.low);
      }
    }
  }

  /** Another chain through a match as long as the longest: it still passes over nothing that is longer. */
  lemma Swapped(u: Hunt, heads: seq<nat>, links: seq<nat>, m: nat, pos: nat, longest: nat)
    requires HuntOk(u) && Chained(u.hash, u.s, u.low, u.ip, heads, links)
    requires Eligible(u, m) && AllFrom(u, m, longest) && RunOf(u, m) == longest
    requires pos + 4 <= longest && m + longest <= u.low + u.ip && u.ip + longest + LASTLITERALS <= |u.s|
    ensures OnChain(u, m, pos, longest)
  {
    hide HashAt, Run, Lowest;
    RunHashes(u.hash, u.s, m - u.low, u.ip, pos);
  }

  /** A segment of one byte around the candidate `at`, and the run of that byte at `ip`, as far as they go. */
  ghost predicate Segment(u: Hunt, at: nat, back: nat, forward: nat, length: nat, b: Byte) {
    && back <= at && u.low + at < u.low + u.ip && 4 <= forward && 4 <= length
    && u.ip + length + LASTLITERALS <= |u.s| && AllAre(u.s, at - back, back + forward, b)
      && AllAre(u.s, u.ip, length, b)
    && (at + forward + LASTLITERALS < |u.s| ==> u.s[at + forward] != b)
    && (u.ip + length + LASTLITERALS < |u.s| ==> u.s[u.ip + length] != b)
  }

  /** A position `d` bytes from the candidate inside the segment. */
  lemma InSegment(u: Hunt, at: nat, back: nat, forward: nat, length: nat, b: Byte, c: nat)
    requires HuntOk(u) && Segment(u, at, back, forward, length, b) && at - back <= c <= at
    ensures var r := at + forward - c;
            && AllAre(u.s, c, r, b)
            && (r < length ==> Run(u.s, c, u.ip) == r) && (length < r ==> Run(u.s, c, u.ip) == length)
            && (r == length ==> length <= Run(u.s, c, u.ip))
  {
    hide Run;
    RunOfOneByte(u.s, c, at + forward - c, u.ip, length, b);
  }

  lemma SameByteHashes(u: Hunt, c: nat, b: Byte)
    requires HuntOk(u) && AllAre(u.s, c, 4, b) && AllAre(u.s, u.ip, 4, b)
    ensures HashIs(u.hash, u.s, c, HashAt(u.hash, u.s, u.ip))
  {
    assert u.s[c..c + 4] == u.s[u.ip..u.ip + 4];
  }

  /** The segment is long enough and reaches no farther than the run: the best position is where both end together. */
  lemma EndsTogether(u: Hunt, at: nat, back: nat, forward: nat, length: nat, b: Byte, longest: nat)
    requires HuntOk(u) && Segment(u, at, back, forward, length, b) && Lowest(u) <= u.low + at - back
    requires AllFrom(u, u.low + at + 1, longest) && forward <= length <= back + forward
    ensures var m := u.low + at + forward - length; AllAbove(u, m, longest) && OnChain(u, m, 0, longest)
  {
    hide Run, Lowest, Segment, HashAt;
    var p := at + forward - length;
    SegmentIs(u, at, back, forward, length, b);
    InSegment(u, at, back, forward, length, b, p);
    SameByteHashes(u, p, b);
    forall c | u.low + p < c <= u.low + at && Eligible(u, c)
      ensures RunOf(u, c) <= Run(u.s, p, u.ip)
    {
      InSegment(u, at, back, forward, length, b, c - u.low);
    }
  }

  lemma SegmentIs(u: Hunt, at: nat, back: nat, forward: nat, length: nat, b: Byte)
    requires Segment(u, at, back, forward, length, b)
    ensures back <= at < u.ip && 4 <= forward && 4 <= length
    ensures AllAre(u.s, u.ip, length, b) && AllAre(u.s, at - back, back + forward, b)
  {
  }

  /** Otherwise the farthest position of the segment is as good as any in it. */
  lemma FromTheBeginning(u: Hunt, at: nat, back: nat, forward: nat, length: nat, b: Byte, was: nat, longest: nat)
    requires HuntOk(u) && Segment(u, at, back, forward, length, b) && Lowest(u) <= u.low + at - back
    requires AllFrom(u, u.low + at + 1, was) && was <= longest && !(forward <= length <= back + forward)
    requires back + forward <= longest || length <= longest
    ensures var m := u.low + at - back; AllFrom(u, m, longest) && OnChain(u, m, 0, longest)
  {
    hide Run, Lowest, Segment, HashAt;
    SegmentIs(u, at, back, forward, length, b);
    SameByteHashes(u, at - back, b);
    forall c | u.low + at - back <= c <= u.low + at && Eligible(u, c)
      ensures Beaten(u, c, longest)
    {
      InSegment(u, at, back, forward, length, b, c - u.low);
    }
  }
}
