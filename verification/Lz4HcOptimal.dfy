/** LZ4HC_compress_optimal of lz4hc.c: prices for every position of a stretch of input, the cheapest path through them,
    which is found backwards and reversed in place, and its sequences. Prices decide which path is taken; that every
    path stands for the input does not depend on them. */
module Lz4HcOptimal {
  import opened Basics
  import opened Lz4Format
  import opened Lz4Emit
  import opened Lz4Greedy
  import opened Lz4HcChains
  import opened Lz4Encoder
  import opened Lz4HcEncoder
  import opened Lz4HcMatch

  const LZ4_OPT_NUM := 4096
  const TRAILING_LITERALS := 3

  /** LZ4HC_optimal_t: how a position is reached. A length of 1 is a literal. */
  datatype Opt = Opt(price: int, off: nat, mlen: nat, litlen: nat)

  function LiteralsPrice(litlen: nat): int {
    litlen + if litlen >= RUN_MASK then 1 + (litlen - RUN_MASK) / 255 else 0
  }

  function SequencePrice(litlen: nat, mlen: nat): int
    requires MINMATCH <= mlen
  {
    1 + 2 + LiteralsPrice(litlen) + if mlen >= ML_MASK + MINMATCH then 1 + (mlen - (ML_MASK + MINMATCH)) / 255 else 0
  }

  /** Prices are sizes: those of the literals without their token, and those of a whole sequence. */
  lemma PricesAreSizes(q: Sequence)
    requires MINMATCH <= q.matchLength
    ensures 1 + LiteralsPrice(|q.literals|) == HeadSize(|q.literals|)
    ensures SequencePrice(|q.literals|, q.matchLength) == SequenceSize(q)
  {
    var n, code := |q.literals|, q.matchLength - MINMATCH;
    assert (n + 240) / 255 == if n < 15 then 0 else 1 + (n - 15) / 255;
    assert (code + 240) / 255 == if code < 15 then 0 else 1 + (code - 15) / 255;
  }

  // ---------------------------------------------------------------------------
  // Paths
  // ---------------------------------------------------------------------------

  datatype Hop = Hop(mlen: nat, off: nat)

  /** A literal, or a match that is really there and may stand there. */
  ghost predicate HopOk(s: seq<Byte>, p: nat, x: Hop) {
    x.mlen == 1 || (x.off <= p && CanFollow(s, p, p, p - x.off, x.mlen))
  }

  /** `pos` is reached by a step from a position of the stretch that starts at `ip`. */
  ghost predicate EntryOk(s: seq<Byte>, ip: nat, pos: nat, e: Opt) {
    if pos == 0 then e.mlen == 1 else 1 <= e.mlen <= pos && HopOk(s, ip + pos - e.mlen, Hop(e.mlen, e.off))
  }

  ghost predicate Filled(s: seq<Byte>, ip: nat, opt: array<Opt>, n: nat)
    reads opt
  {
    opt.Length == LZ4_OPT_NUM + TRAILING_LITERALS && n < opt.Length && forall pos :: 0 <= pos <= n ==>
      EntryOk(s, ip, pos, opt[pos])
  }

  /** Every position is reached from an earlier one. */
  ghost predicate Reachable(o: seq<Opt>, n: nat) {
    n < |o| && o[0].mlen == 1 && forall pos :: 1 <= pos <= n ==> 1 <= o[pos].mlen <= pos
  }

  /** The steps that lead to `pos`. */
  ghost function BackPath(o: seq<Opt>, n: nat, pos: nat): seq<Hop>
    requires Reachable(o, n) && pos <= n
    decreases pos
  {
    if pos == 0 then [] else BackPath(o, n, pos - o[pos].mlen) + [Hop(o[pos].mlen, o[pos].off)]
  }

  function Length(steps: seq<Hop>): nat {
    if steps == [] then 0 else steps[0].mlen + Length(steps[1..])
  }

  /** From `p` on, every entry says the next step. */
  ghost predicate Leads(o: seq<Opt>, p: nat, steps: seq<Hop>)
    decreases |steps|
  {
    steps == [] ||
    (p < |o| && 1 <= steps[0].mlen && o[p].mlen == steps[0].mlen && o[p].off == steps[0].off
      && Leads(o, p + steps[0].mlen, steps[1..]))
  }

  ghost predicate GoodPath(s: seq<Byte>, p: nat, steps: seq<Hop>)
    decreases |steps|
  {
    steps == [] || (1 <= steps[0].mlen && HopOk(s, p, steps[0]) && GoodPath(s, p + steps[0].mlen, steps[1..]))
  }

  /** The sequences of a path: its matches, each with the literals since the one before. */
  ghost function PathSequences(s: seq<Byte>, anchor: nat, p: nat, steps: seq<Hop>): seq<Sequence>
    requires anchor <= p && GoodPath(s, p, steps)
    decreases |steps|
  {
    if steps == [] then []
    else if steps[0].mlen == 1 then PathSequences(s, anchor, p + 1, steps[1..])
    else
      var end := p + steps[0].mlen;
      [Sequence(s[anchor..p], steps[0].off, steps[0].mlen)] + PathSequences(s, end, end, steps[1..])
  }

  ghost predicate HasMatch(steps: seq<Hop>) { exists i :: 0 <= i < |steps| && steps[i].mlen != 1 }

  lemma {:induction false} MatchesAreSequences(s: seq<Byte>, anchor: nat, p: nat, steps: seq<Hop>)
    requires anchor <= p && GoodPath(s, p, steps) && HasMatch(steps)
    ensures PathSequences(s, anchor, p, steps) != []
    decreases |steps|
  {
    if steps[0].mlen == 1 {
      var i :| 0 <= i < |steps| && steps[i].mlen != 1;
      assert steps[1..][i - 1].mlen != 1;
      MatchesAreSequences(s, anchor, p + 1, steps[1..]);
    }
  }

  /** A path that comes past position 4 has a match in it, if that position is reached by one. */
  lemma {:induction false} PathHasMatch(o: seq<Opt>, n: nat, pos: nat)
    requires Reachable(o, n) && MINMATCH <= pos <= n && o[MINMATCH].mlen != 1
    requires forall q :: MINMATCH <= q <= n ==> o[q].mlen == 1 || MINMATCH <= o[q].mlen
    ensures HasMatch(BackPath(o, n, pos))
    decreases pos
  {
    var path, last := BackPath(o, n, pos - o[pos].mlen), Hop(o[pos].mlen, o[pos].off);
    assert BackPath(o, n, pos) == path + [last];
    if o[pos].mlen != 1 {
      assert (path + [last])[|path|] == last;
    } else {
      PathHasMatch(o, n, pos - 1);
      var i :| 0 <= i < |path| && path[i].mlen != 1;
      assert (path + [last])[i] == path[i];
    }
  }

  lemma {:induction false} LengthAppend(a: seq<Hop>, b: seq<Hop>)
    ensures Length(a + b) == Length(a) + Length(b)
    decreases |a|
  {
    if a == [] {
      assert a + b == b;
    } else {
      assert (a + b)[0] == a[0] && (a + b)[1..] == a[1..] + b;
      LengthAppend(a[1..], b);
    }
  }

  lemma {:induction false} GoodAppend(s: seq<Byte>, p: nat, a: seq<Hop>, b: seq<Hop>)
    requires GoodPath(s, p, a) && GoodPath(s, p + Length(a), b)
    ensures GoodPath(s, p, a + b)
    decreases |a|
  {
    hide HopOk;
    if a == [] {
      assert a + b == b;
    } else {
      assert (a + b)[0] == a[0] && (a + b)[1..] == a[1..] + b;
      GoodAppend(s, p + a[0].mlen, a[1..], b);
    }
  }

  /** The path to a position is as long as it should be, and good. */
  lemma {:induction false} BackPathIsGood(s: seq<Byte>, ip: nat, o: seq<Opt>, n: nat, pos: nat)
    requires Reachable(o, n) && pos <= n && forall q :: 0 <= q <= n ==> EntryOk(s, ip, q, o[q])
    ensures Length(BackPath(o, n, pos)) == pos && GoodPath(s, ip, BackPath(o, n, pos))
    decreases pos
  {
    hide HopOk;
    if pos > 0 {
      var from := pos - o[pos].mlen;
      var last := [Hop(o[pos].mlen, o[pos].off)];
      BackPathIsGood(s, ip, o, n, from);
      LengthAppend(BackPath(o, n, from), last);
      assert EntryOk(s, ip, pos, o[pos]) && last[1..] == [];
      GoodAppend(s, ip, BackPath(o, n, from), last);
    }
  }

  lemma {:induction false} LeadsAbove(o: seq<Opt>, o': seq<Opt>, c: nat, p: nat, steps: seq<Hop>)
    requires Leads(o, p, steps) && c < p && |o| == |o'| && forall q :: c < q < |o| ==> o'[q] == o[q]
    ensures Leads(o', p, steps)
    decreases |steps|
  {
    if steps != [] {
      LeadsAbove(o, o', c, p + steps[0].mlen, steps[1..]);
    }
  }

  /** The reversal in place: the path to `cur`, which the entries describe backwards, and the last step become a path
      that the entries describe forwards. */
  method Reverse(opt: array<Opt>, cur: nat, mlen: nat, off: nat)
    requires Reachable(opt[..], cur) && 1 <= mlen
    modifies opt
    ensures Leads(opt[..], 0, old(BackPath(opt[..], cur, cur)) + [Hop(mlen, off)])
  {
    hide BackPath, Leads;
    ghost var o := opt[..];
    ghost var whole := BackPath(o, cur, cur) + [Hop(mlen, off)];
    var candidatePos: nat, selectedLength: nat, selectedOffset: nat := cur, mlen, off;
    ghost var rest: seq<Hop> := [];
    NowhereToGo(opt[..], cur + mlen);
    assert whole + rest == whole;
    while true
      invariant candidatePos <= cur && 1 <= selectedLength
      invariant forall q :: 0 <= q <= candidatePos ==> opt[q] == o[q]
      invariant Leads(opt[..], candidatePos + selectedLength, rest)
      invariant BackPath(o, cur, candidatePos) + [Hop(selectedLength, selectedOffset)] + rest == whole
      decreases candidatePos
    {
      var nextLength: nat, nextOffset: nat := opt[candidatePos].mlen, opt[candidatePos].off;
      ghost var before := opt[..];
      opt[candidatePos] := opt[candidatePos].(mlen := selectedLength, off := selectedOffset);
      LeadsAbove(before, opt[..], candidatePos, candidatePos + selectedLength, rest);
      LeadsFrom(opt[..], candidatePos, Hop(selectedLength, selectedOffset), rest);
      BackPathStep(o, cur, candidatePos);
      Regroup(BackPath(o, cur, candidatePos), Hop(selectedLength, selectedOffset), rest);
      rest := [Hop(selectedLength, selectedOffset)] + rest;
      if nextLength > candidatePos {
        return;
      }
      selectedLength, selectedOffset := nextLength, nextOffset;
      candidatePos := candidatePos - nextLength;
    }
  }

  lemma NowhereToGo(o: seq<Opt>, p: nat)
    ensures Leads(o, p, [])
  {
  }

  lemma LeadsFrom(o: seq<Opt>, p: nat, x: Hop, rest: seq<Hop>)
    requires p < |o| && o[p].mlen == x.mlen >= 1 && o[p].off == x.off && Leads(o, p + x.mlen, rest)
    ensures Leads(o, p, [x] + rest)
  {
    assert ([x] + rest)[1..] == rest;
  }

  lemma BackPathStep(o: seq<Opt>, n: nat, pos: nat)
    requires Reachable(o, n) && pos <= n
    ensures BackPath(o, n, pos) == if pos == 0 then []
      else BackPath(o, n, pos - o[pos].mlen) + [Hop(o[pos].mlen, o[pos].off)]
  {
  }

  lemma Regroup(a: seq<Hop>, x: Hop, rest: seq<Hop>)
    ensures a + [x] + rest == a + ([x] + rest) && [] + ([x] + rest) == [x] + rest
  {
  }

  // ---------------------------------------------------------------------------
  // Prices
  // ---------------------------------------------------------------------------

  /** An input, and how it is searched. */
  datatype Plan = Plan(s: seq<Byte>, nbSearches: nat, sufficientLen: nat, fullUpdate: bool, favorDecSpeed: bool)

  /** What a search gives: no length if it finds nothing. */
  datatype Find = Find(off: nat, len: nat)

  datatype Prices = Prices(o: seq<Opt>, last: nat)

  /** A stretch that ends after a match, before the last literals of the input. */
  ghost predicate Stretch(s: seq<Byte>, ip: nat, opt: array<Opt>, last: nat)
    reads opt
  {
    1 <= last < LZ4_OPT_NUM && ip + last + LASTLITERALS <= |s| && Filled(s, ip, opt, last + TRAILING_LITERALS)
  }

  lemma LiteralIsOk(s: seq<Byte>, ip: nat, pos: nat, price: int, litlen: nat)
    ensures EntryOk(s, ip, pos, Opt(price, 0, 1, litlen))
  {
  }

  /** Part of a match is a match, and an entry at its end. */
  lemma MatchIsOk(s: seq<Byte>, ip: nat, cur: nat, off: nat, len: nat, ml: nat, price: int, litlen: nat)
    requires HopOk(s, ip + cur, Hop(len, off)) && MINMATCH <= ml <= len
    ensures EntryOk(s, ip, cur + ml, Opt(price, off, ml, litlen))
  {
  }

  /** `n` literals behind the position of `e`. */
  function Trailing(e: Opt, n: nat): Opt { Opt(e.price + LiteralsPrice(n), 0, 1, n) }

  /** Complete following positions with literals. */
  method TrailingLiterals(ghost s: seq<Byte>, ghost ip: nat, opt: array<Opt>, last: nat)
    requires last < LZ4_OPT_NUM && Filled(s, ip, opt, last)
    modifies opt
    ensures Filled(s, ip, opt, last + TRAILING_LITERALS)
    ensures forall pos :: 0 <= pos < opt.Length ==>
      opt[pos] == if last < pos <= last + 3 then Trailing(old(opt[last]), pos - last) else old(opt[pos])
  {
    hide EntryOk;
    for addLit := 1 to TRAILING_LITERALS + 1
      invariant Filled(s, ip, opt, last + addLit - 1)
      invariant forall pos :: 0 <= pos < opt.Length ==>
        opt[pos] == if last < pos < last + addLit then Trailing(old(opt[last]), pos - last) else old(opt[pos])
    {
      LiteralIsOk(s, ip, last + addLit, opt[last].price + LiteralsPrice(addLit), addLit);
      opt[last + addLit] := Opt(opt[last].price + LiteralsPrice(addLit), 0, 1, addLit);
    }
  }

  /** The entries of the first positions, of a first match and its parts, and of three literals behind it. */
  ghost predicate Started(o: seq<Opt>, llen: nat, first: Find) {
    && MINMATCH <= first.len && first.len + 3 < |o|
    && (forall pos :: 0 <= pos < 4 ==> o[pos] == Opt(LiteralsPrice(llen + pos), 0, 1, llen + pos))
    && (forall pos :: 4 <= pos <= first.len ==> o[pos] == Opt(SequencePrice(llen, pos), first.off, pos, llen))
    && (forall n :: 1 <= n <= 3 ==> o[first.len + n] == Trailing(o[first.len], n))
  }

  /** The first positions, and those of the first match. */
  method SetInitialPrices(ghost s: seq<Byte>, ghost ip: nat, opt: array<Opt>, llen: nat, off: nat, len: nat)
    requires opt.Length == LZ4_OPT_NUM + TRAILING_LITERALS && MINMATCH <= len < LZ4_OPT_NUM
      && HopOk(s, ip, Hop(len, off))
    modifies opt
    ensures Stretch(s, ip, opt, len) && Started(opt[..], llen, Find(off, len))
  {
    assert ip + len + LASTLITERALS <= |s|;
    hide EntryOk, HopOk;
    for rPos := 0 to MINMATCH
      invariant forall pos :: 0 <= pos < rPos ==> EntryOk(s, ip, pos, opt[pos])
      invariant forall pos :: 0 <= pos < rPos ==> opt[pos] == Opt(LiteralsPrice(llen + pos), 0, 1, llen + pos)
    {
      LiteralIsOk(s, ip, rPos, LiteralsPrice(llen + rPos), llen + rPos);
      opt[rPos] := Opt(LiteralsPrice(llen + rPos), 0, 1, llen + rPos);
    }
    for mlen := MINMATCH to len + 1
      invariant forall pos :: 0 <= pos < mlen ==> EntryOk(s, ip, pos, opt[pos])
      invariant forall pos :: 0 <= pos < 4 ==> opt[pos] == Opt(LiteralsPrice(llen + pos), 0, 1, llen + pos)
      invariant forall pos :: 4 <= pos < mlen ==> opt[pos] == Opt(SequencePrice(llen, pos), off, pos, llen)
    {
      MatchIsOk(s, ip, 0, off, len, mlen, SequencePrice(llen, mlen), llen);
      opt[mlen] := Opt(SequencePrice(llen, mlen), off, mlen, llen);
    }
    TrailingLiterals(s, ip, opt, len);
  }

  /** `n` literals more behind position `cur`. */
  function MoreLiterals(e: Opt, n: nat): Opt {
    Opt(e.price - LiteralsPrice(e.litlen) + LiteralsPrice(e.litlen + n), 0, 1, e.litlen + n)
  }

  /** Up to three literals behind `cur`, where they are cheaper. */
  ghost predicate LiteralsAdded(o: seq<Opt>, o': seq<Opt>, cur: nat) {
    && cur < |o| == |o'|
    && forall pos :: 0 <= pos < |o| ==>
         o'[pos] == if cur < pos < cur + 4 && MoreLiterals(o[cur], pos - cur).price < o[pos].price
                    then MoreLiterals(o[cur], pos - cur) else o[pos]
  }

  /** Before a match: literals that are cheaper. */
  method LiteralsBefore(ghost s: seq<Byte>, ghost ip: nat, opt: array<Opt>, cur: nat, ghost last: nat)
    requires Stretch(s, ip, opt, last) && 1 <= cur < last
    modifies opt
    ensures Stretch(s, ip, opt, last) && LiteralsAdded(old(opt[..]), opt[..], cur)
  {
    hide EntryOk, LiteralsPrice;
    var baseLitlen := opt[cur].litlen;
    for litlen := 1 to MINMATCH
      invariant Stretch(s, ip, opt, last) && opt[cur] == old(opt[cur])
      invariant forall pos :: 0 <= pos < opt.Length ==>
        opt[pos] == if cur < pos < cur + litlen && MoreLiterals(old(opt[cur]), pos - cur).price < old(opt[pos]).price
                    then MoreLiterals(old(opt[cur]), pos - cur) else old(opt[pos])
    {
      var price := opt[cur].price - LiteralsPrice(baseLitlen) + LiteralsPrice(baseLitlen + litlen);
      var pos := cur + litlen;
      if price < opt[pos].price {
        LiteralIsOk(s, ip, pos, price, baseLitlen + litlen);
        opt[pos] := Opt(price, 0, 1, baseLitlen + litlen);
      }
    }
  }

  /** A match of `ml` bytes at position `cur`: the literals before it count as its own. */
  function WithMatch(o: seq<Opt>, cur: nat, off: nat, ml: nat): Opt
    requires cur < |o| && MINMATCH <= ml
  {
    var ll := if o[cur].mlen == 1 then o[cur].litlen else 0;
    var before := if o[cur].mlen != 1 then o[cur].price else if cur > ll then o[cur - ll].price else 0;
    Opt(before + SequencePrice(ll, ml), off, ml, ll)
  }

  /** It is taken beyond the stretch, and where it is cheaper or, unless decompression speed is favoured, as cheap. */
  predicate Cheaper(o: seq<Opt>, cur: nat, last: nat, off: nat, ml: nat, favorDecSpeed: bool)
    requires cur + ml < |o| && MINMATCH <= ml
  {
    || cur + ml > last + 3
    || WithMatch(o, cur, off, ml).price <= o[cur + ml].price - (if favorDecSpeed then 1 else 0)
  }

  /** The position that a match of `ml` bytes at `cur` reaches. */
  method MatchPrice(opt: array<Opt>, cur: nat, last: nat, off: nat, ml: nat, favorDecSpeed: bool, ghost o: seq<Opt>)
    returns (cheaper: bool)
    requires MINMATCH <= ml && cur + ml < opt.Length == |o|
    requires opt[cur + ml] == o[cur + ml] && forall pos :: 0 <= pos <= cur ==> opt[pos] == o[pos]
    modifies opt
    ensures cheaper <==> Cheaper(o, cur, last, off, ml, favorDecSpeed)
    ensures forall pos :: 0 <= pos < opt.Length ==>
      opt[pos] == if pos == cur + ml && cheaper then WithMatch(o, cur, off, ml) else old(opt[pos])
  {
    hide LiteralsPrice, SequencePrice;
    var pos := cur + ml;
    var ll, price;
    if opt[cur].mlen == 1 {
      ll := opt[cur].litlen;
      price := (if cur > ll then opt[cur - ll].price else 0) + SequencePrice(ll, ml);
    } else {
      ll := 0;
      price := opt[cur].price + SequencePrice(0, ml);
    }
    cheaper := pos > last + TRAILING_LITERALS || price <= opt[pos].price - (if favorDecSpeed then 1 else 0);
    if cheaper {
      opt[pos] := Opt(price, off, ml, ll);
    }
  }

  /** Every entry, once matches of 4 up to `n` bytes at `cur` have been priced. */
  ghost predicate Priced(o: seq<Opt>, o': seq<Opt>, cur: nat, last: nat, off: nat, n: nat, favorDecSpeed: bool)
    requires cur + n < |o| == |o'|
  {
    forall pos :: 0 <= pos < |o| ==>
      o'[pos] == if cur + 4 <= pos <= cur + n && Cheaper(o, cur, last, off, pos - cur, favorDecSpeed)
                 then WithMatch(o, cur, off, pos - cur) else o[pos]
  }

  /** The loop over the lengths of a match. */
  method PriceLengths(opt: array<Opt>, cur: nat, last: nat, off: nat, len: nat, favorDecSpeed: bool)
    returns (last': nat)
    requires MINMATCH <= len && cur + len < opt.Length
    modifies opt
    ensures Priced(old(opt[..]), opt[..], cur, last, off, len, favorDecSpeed)
    ensures last' == if last < cur + len && Cheaper(old(opt[..]), cur, last, off, len, favorDecSpeed) then cur + len
                     else last
  {
    hide Cheaper, WithMatch;
    ghost var o := opt[..];
    last' := last;
    for ml := MINMATCH to len + 1
      invariant Priced(o, opt[..], cur, last, off, ml - 1, favorDecSpeed)
      invariant last' == if ml == len + 1 && last < cur + len && Cheaper(o, cur, last, off, len, favorDecSpeed)
                         then cur + len else last
    {
      var cheaper := MatchPrice(opt, cur, last', off, ml, favorDecSpeed, o);
      if cheaper && ml == len && last' < cur + ml {
        last' := cur + ml;
      }
    }
  }

  lemma PricedIsOk(s: seq<Byte>, ip: nat, o: seq<Opt>, o': seq<Opt>, cur: nat, last: nat, off: nat, len: nat,
      favorDecSpeed: bool)
    requires MINMATCH <= len && cur + len < |o| == |o'| && cur < last && last + 3 < |o|
    requires HopOk(s, ip + cur, Hop(len, off))
    requires forall pos :: 0 <= pos <= last + 3 ==> EntryOk(s, ip, pos, o[pos])
    requires Priced(o, o', cur, last, off, len, favorDecSpeed)
    ensures forall pos :: 0 <= pos <= Max(last + 3, cur + len) ==> EntryOk(s, ip, pos, o'[pos])
  {
    hide EntryOk, HopOk, LiteralsPrice, SequencePrice;
    forall pos | 0 <= pos <= Max(last + 3, cur + len)
      ensures EntryOk(s, ip, pos, o'[pos])
    {
      if cur + 4 <= pos <= cur + len {
        var e := WithMatch(o, cur, off, pos - cur);
        MatchIsOk(s, ip, cur, off, len, pos - cur, e.price, e.litlen);
      }
    }
  }

  /** The match and its parts, where they are cheaper or reach beyond the stretch; three literals follow. */
  ghost predicate MatchAdded(t: Prices, t': Prices, cur: nat, f: Find, favorDecSpeed: bool) {
    && MINMATCH <= f.len && cur + f.len < |t.o| == |t'.o| && t'.last + 3 < |t.o|
    && t'.last == (if t.last < cur + f.len && Cheaper(t.o, cur, t.last, f.off, f.len, favorDecSpeed) then cur + f.len
                   else t.last)
    && (forall pos :: 0 <= pos <= t'.last ==>
          t'.o[pos] == if cur + 4 <= pos <= cur + f.len && Cheaper(t.o, cur, t.last, f.off, pos - cur, favorDecSpeed)
                       then WithMatch(t.o, cur, f.off, pos - cur) else t.o[pos])
    && (forall n :: 1 <= n <= 3 ==> t'.o[t'.last + n] == Trailing(t'.o[t'.last], n))
  }

  /** The positions that a match at `cur` reaches. */
  method MatchPrices(ghost s: seq<Byte>, ghost ip: nat, opt: array<Opt>, cur: nat, last: nat, off: nat, len: nat,
      favorDecSpeed: bool)
    returns (last': nat)
    requires Stretch(s, ip, opt, last) && 1 <= cur < last && MINMATCH <= len && cur + len < LZ4_OPT_NUM
    requires HopOk(s, ip + cur, Hop(len, off))
    modifies opt
    ensures last <= last' && Stretch(s, ip, opt, last')
    ensures MatchAdded(Prices(old(opt[..]), last), Prices(opt[..], last'), cur, Find(off, len), favorDecSpeed)
  {
    assert ip + cur + len + LASTLITERALS <= |s|;
    hide EntryOk, HopOk, Cheaper, WithMatch, Trailing;
    ghost var o := opt[..];
    last' := PriceLengths(opt, cur, last, off, len, favorDecSpeed);
    PricedIsOk(s, ip, o, opt[..], cur, last, off, len, favorDecSpeed);
    assert forall pos :: 0 <= pos <= Max(last + 3, cur + len) ==> EntryOk(s, ip, pos, opt[..][pos]);
    TrailingLiterals(s, ip, opt, last');
  }

  /** The last step of the path, from `cur`, and where the path must have come to. */
  ghost predicate Elected(s: seq<Byte>, ip: nat, opt: array<Opt>, cur: nat, last: nat, mlen: nat, off: nat)
    reads opt
  {
    && Filled(s, ip, opt, cur) && 1 <= mlen && HopOk(s, ip + cur, Hop(mlen, off))
    && cur < last <= cur + mlen && ip + cur + mlen + LASTLITERALS <= |s|
  }

  // ---------------------------------------------------------------------------
  // A stretch: its searches, and the prices after each
  // ---------------------------------------------------------------------------

  /** When a search is as long as it can be: there are attempts enough for all positions within reach. */
  predicate Thorough(n: nat, nbSearches: nat, favorDecSpeed: bool) {
    !favorDecSpeed && (n <= nbSearches || 65535 <= nbSearches)
  }

  /** Not useful to search at `cur`, when the next position costs no more. */
  predicate Skips(o: seq<Opt>, cur: nat, fullUpdate: bool)
    requires cur + MINMATCH < |o|
  {
    o[cur + 1].price <= o[cur].price && (!fullUpdate || o[cur + MINMATCH].price < o[cur].price + 3)
  }

  /** What a search at `p` may give: a match that is longer than asked. If it has attempts enough, nothing within reach
      is longer than what it gives, or than what was asked. */
  ghost predicate Searched(w: Plan, p: nat, asked: nat, f: Find) {
    && p + MFLIMIT <= |w.s|
    && (f.len != 0 ==>
          && f.off <= p && MINMATCH <= f.len && p + f.len + LASTLITERALS <= |w.s| && IsMatch(w.s, p - f.off, p, f.len)
          && (w.favorDecSpeed || asked < f.len))
    && (Thorough(p, w.nbSearches, w.favorDecSpeed) ==>
          IsLongest(w.s, p, false, if f.len == 0 then asked else f.len))
  }

  /** How long a match at `cur` has to be: longer than three bytes, or, without full update, than what is left. */
  function Asked(w: Plan, t: Prices, cur: nat): nat
    requires cur <= t.last
  {
    if w.fullUpdate then 3 else t.last - cur
  }

  /** It ends the stretch at once. */
  predicate IsLong(w: Plan, cur: nat, f: Find) { f.len > w.sufficientLen || f.len + cur >= 4096 }

  /** What becomes of the prices at `cur`, with what is found there. */
  ghost predicate Stepped(w: Plan, ip: nat, cur: nat, t: Prices, f: Find, t': Prices) {
    && 1 <= cur < t.last && t.last + 3 < |t.o| && !IsLong(w, cur, f)
    && if Skips(t.o, cur, w.fullUpdate) then f.len == 0 && t' == t
       else
         && Searched(w, ip + cur, Asked(w, t, cur), f)
         && if f.len == 0 then t' == t
            else exists o :: LiteralsAdded(t.o, o, cur) && MatchAdded(Prices(o, t.last), t', cur, f, w.favorDecSpeed)
  }

  ghost predicate Steps(w: Plan, ip: nat, ts: seq<Prices>, fs: seq<Find>) {
    |ts| == |fs| + 1 && forall i :: 0 <= i < |fs| ==> Stepped(w, ip, i + 1, ts[i], fs[i], ts[i + 1])
  }

  /** Every position is looked at, in order, until the stretch or the input ends or a long match is found; the last step
      is then that match, or what the last position says. */
  ghost predicate Optimised(w: Plan, ip: nat, llen: nat, first: Find, ts: seq<Prices>, fs: seq<Find>, o: seq<Opt>,
      cur: nat, last: nat, best: Find)
  {
    && Steps(w, ip, ts, fs) && Started(ts[0].o, llen, first) && ts[0].last == first.len && o == ts[|fs|].o
    && var t, c := ts[|fs|], |fs| + 1;
       if c < t.last && ip + c + MFLIMIT <= |w.s| then
         && t.last + 3 < |o| && !Skips(o, c, w.fullUpdate)
         && Searched(w, ip + c, Asked(w, t, c), best) && IsLong(w, c, best) && cur == c && last == c + 1
       else last == t.last && last < |o| && best == Find(o[last].off, o[last].mlen) && cur + best.len == last
  }

  lemma OneStepMore(w: Plan, ip: nat, ts: seq<Prices>, fs: seq<Find>, f: Find, t: Prices)
    requires Steps(w, ip, ts, fs) && Stepped(w, ip, |fs| + 1, ts[|fs|], f, t)
    ensures Steps(w, ip, ts + [t], fs + [f])
  {
    hide Stepped;
    forall i | 0 <= i < |fs| + 1
      ensures Stepped(w, ip, i + 1, (ts + [t])[i], (fs + [f])[i], (ts + [t])[i + 1])
    {
      if i < |fs| {
        assert Stepped(w, ip, i + 1, ts[i], fs[i], ts[i + 1]);
      }
    }
  }

  /** The longest match at `p` has `n` bytes. */
  ghost predicate Longest(s: seq<Byte>, p: nat, n: nat) {
    IsLongest(s, p, false, n) && exists c: nat :: c < p <= c + 65535 && Run(s, c, p) == n
  }

  /** One byte after `ip` starts a match that is long enough to be taken at once. */
  ghost predicate LongNext(w: Plan, ip: nat, n: nat) {
    Thorough(ip + 1, w.nbSearches, w.favorDecSpeed) && MINMATCH <= n && w.sufficientLen < n && Longest(w.s, ip + 1, n)
  }

  /** What a thorough search gives is the longest match. */
  lemma SearchedIsLongest(w: Plan, p: nat, asked: nat, f: Find, n: nat)
    requires Searched(w, p, asked, f) && Thorough(p, w.nbSearches, w.favorDecSpeed) && Longest(w.s, p, n)
    requires MINMATCH <= n && asked < n
    ensures f.len == n
  {
    var c: nat :| c < p <= c + 65535 && Run(w.s, c, p) == n;
    hide Run;
    if f.len != 0 {
      MatchIsRun(w.s, p - f.off, p, f.len);
    }
  }

  lemma MatchIsRun(s: seq<Byte>, m: nat, p: nat, n: nat)
    requires IsMatch(s, m, p, n) && p + n + LASTLITERALS <= |s|
    ensures m < p <= m + 65535 && n <= Run(s, m, p)
  {
    CommonRunAtLeast(s, m, p, |s| - LASTLITERALS, n);
  }

  /** A match that is long enough and starts one byte later is preferred to the first one. */
  lemma LongNextIsElected(w: Plan, ip: nat, llen: nat, first: Find, ts: seq<Prices>, fs: seq<Find>, o: seq<Opt>,
      cur: nat, last: nat, best: Find, n: nat)
    requires Optimised(w, ip, llen, first, ts, fs, o, cur, last, best) && LongNext(w, ip, n)
    requires first.len <= w.sufficientLen
    ensures cur == 1 && best.len == n
  {
    assert ip + 1 + MFLIMIT <= |w.s| && ts[0].o[1].price < ts[0].o[2].price;
    hide Searched, Longest, LiteralsAdded, MatchAdded, SequencePrice;
    if fs != [] {
      assert Stepped(w, ip, 1, ts[0], fs[0], ts[1]);
      SearchedIsLongest(w, ip + 1, Asked(w, ts[0], 1), fs[0], n);
      assert false;
    }
    SearchedIsLongest(w, ip + 1, Asked(w, ts[0], 1), best, n);
  }

  lemma LongNextsAreElected(w: Plan, ip: nat, llen: nat, first: Find, ts: seq<Prices>, fs: seq<Find>, o: seq<Opt>,
      cur: nat, last: nat, best: Find)
    requires Optimised(w, ip, llen, first, ts, fs, o, cur, last, best) && first.len <= w.sufficientLen
    ensures forall n :: LongNext(w, ip, n) ==> cur == 1 && best.len == n && 1 < n
  {
    forall n | LongNext(w, ip, n)
      ensures cur == 1 && best.len == n && 1 < n
    {
      LongNextIsElected(w, ip, llen, first, ts, fs, o, cur, last, best, n);
    }
  }

  method SkipSearch(opt: array<Opt>, cur: nat, fullUpdate: bool) returns (skip: bool)
    requires cur + MINMATCH < opt.Length
    ensures skip <==> Skips(opt[..], cur, fullUpdate)
  {
    skip := opt[cur + 1].price <= opt[cur].price && (!fullUpdate || opt[cur + MINMATCH].price < opt[cur].price + 3);
  }

  /** The first positions are literals, and position 4 is the end of a match. */
  ghost predicate Opening(o: seq<Opt>, llen: nat) {
    && 5 <= |o| && (forall pos :: 0 <= pos < 4 ==> o[pos] == Opt(LiteralsPrice(llen + pos), 0, 1, llen + pos))
    && o[4].mlen == 4 && o[4].price == SequencePrice(llen, 4)
  }

  /** Literals are not cheaper there. */
  lemma OpeningIsKept(o: seq<Opt>, llen: nat, cur: nat)
    requires Opening(o, llen) && 1 <= cur < |o|
    ensures forall pos :: cur < pos < cur + 4 && pos <= 4 ==> MoreLiterals(o[cur], pos - cur).price >= o[pos].price
  {
    assert cur < 4 ==> o[cur] == Opt(LiteralsPrice(llen + cur), 0, 1, llen + cur);
    assert LiteralsPrice(llen + 4) >= LiteralsPrice(llen) + 3;
  }

  /** One position of a stretch: a search, unless it is not useful, and the prices of what it finds; a match that is
      long enough ends the stretch at once. A match up to the last literals stays as it is without full update. */
  method OptimiseAt(ctx: HcContext, src: array<Byte>, ip: nat, opt: array<Opt>, cur: nat, last: nat, nbSearches: nat,
      sufficientLen: nat, fullUpdate: bool, favorDecSpeed: bool, ghost llen: nat, ghost w: Plan)
    returns (immediate: bool, last': nat, mlen: nat, off: nat, ghost f: Find)
    requires w == Plan(src[..], nbSearches, sufficientLen, fullUpdate, favorDecSpeed)
    requires ctx.Searching(src.Length) && ctx.nextToUpdate <= ctx.lowLimit + ip + cur && ctx.Chains(src[..])
    requires ip + cur + MFLIMIT <= src.Length && sufficientLen < LZ4_OPT_NUM
    requires 1 <= cur < last && MINMATCH <= last && Stretch(src[..], ip, opt, last) && Opening(opt[..], llen)
    modifies ctx`nextToUpdate, ctx.hashTable, ctx.chainTable, opt
    ensures ctx.Searching(src.Length) && ctx.nextToUpdate <= ctx.lowLimit + ip + cur && ctx.Chains(src[..])
    ensures last <= last' && Stretch(src[..], ip, opt, last') && Opening(opt[..], llen)
    ensures immediate ==> last' == last && MINMATCH <= mlen
    ensures immediate ==> HopOk(src[..], ip + cur, Hop(mlen, off)) && ip + cur + mlen + LASTLITERALS <= src.Length
    ensures !fullUpdate && ip + last + LASTLITERALS == src.Length ==>
      !immediate && last' == last && opt[last] == old(opt[last])
    ensures var t := Prices(old(opt[..]), last);
      if immediate then
        opt[..] == t.o && !Skips(t.o, cur, fullUpdate) && f == Find(off, mlen)
        && Searched(w, ip + cur, Asked(w, t, cur), f) && IsLong(w, cur, f)
      else Stepped(w, ip, cur, t, f, Prices(opt[..], last'))
  {
    hide EntryOk, HopOk, LiteralsPrice, SequencePrice, Chained, Cheaper, WithMatch, Run, IsMatch;
    ghost var s := src[..];
    immediate, last', mlen, off, f := false, last, 1, 0, Find(0, 0);
    ghost var t := Prices(opt[..], last);
    var skip := SkipSearch(opt, cur, fullUpdate);
    if !skip {
      off, mlen := ctx.FindLongerMatch(src, ip + cur, if fullUpdate then MINMATCH - 1 else last - cur, nbSearches,
        favorDecSpeed);
      f := Find(off, mlen);
      assert Searched(w, ip + cur, Asked(w, t, cur), f);
      if mlen != 0 {
        FoundIsOk(s, ip + cur, off, mlen);
        if mlen > sufficientLen || mlen + cur >= LZ4_OPT_NUM {
          immediate := true;
          return;
        }
        OpeningIsKept(opt[..], llen, cur);
        LiteralsBefore(s, ip, opt, cur, last);
        ghost var o := opt[..];
        last' := MatchPrices(s, ip, opt, cur, last, off, mlen, favorDecSpeed);
      }
    }
  }

  /** The prices of a stretch that starts with a match, and the path that is elected. */
  method Optimise(ctx: HcContext, src: array<Byte>, ip: nat, llen: nat, opt: array<Opt>, off: nat, len: nat,
      nbSearches: nat,
                  sufficientLen: nat, fullUpdate: bool, favorDecSpeed: bool)
    returns (cur: nat, last: nat, bestMlen: nat, bestOff: nat, ghost ts: seq<Prices>, ghost fs: seq<Find>)
    requires ctx.Searching(src.Length) && ctx.nextToUpdate == ctx.lowLimit + ip && ip + MFLIMIT <= src.Length
    requires opt.Length == LZ4_OPT_NUM + TRAILING_LITERALS && MINMATCH <= len <= sufficientLen < LZ4_OPT_NUM
    requires HopOk(src[..], ip, Hop(len, off)) && ctx.Chains(src[..])
    modifies ctx`nextToUpdate, ctx.hashTable, ctx.chainTable, opt
    ensures ctx.Searching(src.Length) && ctx.nextToUpdate <= ctx.lowLimit + ip + last && ctx.Chains(src[..])
    ensures Elected(src[..], ip, opt, cur, last, bestMlen, bestOff)
    ensures bestMlen != 1 || (MINMATCH <= cur && opt[MINMATCH].mlen != 1)
    ensures !fullUpdate && ip + len + LASTLITERALS == src.Length ==>
      cur == 0 && last == bestMlen == len && bestOff == off
    ensures Optimised(Plan(src[..], nbSearches, sufficientLen, fullUpdate, favorDecSpeed), ip, llen, Find(off, len), ts,
                      fs, opt[..], cur, last, Find(bestOff, bestMlen))
  {
    hide EntryOk, HopOk, LiteralsPrice, SequencePrice, Chained, Stepped, Searched, Trailing;
    ghost var s := src[..];
    ghost var w := Plan(s, nbSearches, sufficientLen, fullUpdate, favorDecSpeed);
    SetInitialPrices(s, ip, opt, llen, off, len);
    ts, fs := [Prices(opt[..], len)], [];
    last := len;
    cur := 1;
    while cur < last && ip + cur + MFLIMIT <= src.Length
      invariant 1 <= cur <= last && Stretch(s, ip, opt, last) && MINMATCH <= last && Opening(opt[..], llen)
      invariant !fullUpdate && ip + len + LASTLITERALS == src.Length ==>
        last == len && opt[len].mlen == len && opt[len].off == off
      invariant ctx.Searching(src.Length) && ctx.nextToUpdate <= ctx.lowLimit + ip + cur && ctx.Chains(s)
      invariant src[..] == s
      invariant Steps(w, ip, ts, fs) && Started(ts[0].o, llen, Find(off, len)) && ts[0].last == len
      invariant cur == |fs| + 1 && ts[|fs|] == Prices(opt[..], last)
      decreases LZ4_OPT_NUM - cur
    {
      var immediate;
      ghost var f;
      immediate, last, bestMlen, bestOff, f :=
        OptimiseAt(ctx, src, ip, opt, cur, last, nbSearches, sufficientLen, fullUpdate, favorDecSpeed, llen, w);
      if immediate {
        last := cur + 1;
        return;
      }
      OneStepMore(w, ip, ts, fs, f, Prices(opt[..], last));
      ts, fs := ts + [Prices(opt[..], last)], fs + [f];
      cur := cur + 1;
    }
    bestMlen := opt[last].mlen;
    bestOff := opt[last].off;
    LastIsOk(s, ip, last, opt[last]);
    cur := last - bestMlen;
  }

  lemma FoundIsOk(s: seq<Byte>, p: nat, off: nat, len: nat)
    requires off <= p && MINMATCH <= len && p + MFLIMIT <= |s| && p + len + LASTLITERALS <= |s|
      && IsMatch(s, p - off, p, len)
    ensures HopOk(s, p, Hop(len, off))
  {
  }

  lemma LastIsOk(s: seq<Byte>, ip: nat, last: nat, e: Opt)
    requires 1 <= last && EntryOk(s, ip, last, e)
    ensures 1 <= e.mlen <= last && HopOk(s, ip + (last - e.mlen), Hop(e.mlen, e.off))
  {
  }

  // ---------------------------------------------------------------------------
  // Encoding
  // ---------------------------------------------------------------------------

  /** Encodes all recorded sequences in order; stops at the first that does not fit. */
  method EncodePath(src: array<Byte>, dst: array<Byte>, d: OutputDirective, opt: array<Opt>, last: nat, op0: nat,
      anchor0: nat, ip0: nat,
                    ghost steps: seq<Hop>, ghost qs0: seq<Sequence>)
    returns (ok: bool, op: nat, anchor: nat, ip: nat, ml: nat, m: nat, ghost qs: seq<Sequence>)
    requires src != dst && Progress(d, src[..], dst, op0, anchor0, qs0) && anchor0 <= ip0
    requires Leads(opt[..], 0, steps) && GoodPath(src[..], ip0, steps) && last <= Length(steps)
    requires steps != [] && Length(steps[..|steps| - 1]) < last
    modifies dst
    ensures Progress(d, src[..], dst, op, anchor, qs) && anchor <= ip
    ensures ok ==> ip == ip0 + Length(steps) && qs == qs0 + PathSequences(src[..], anchor0, ip0, steps)
    ensures !ok ==> !d.NotLimited? && CanFollow(src[..], anchor, ip, m, ml)
    ensures !ok ==> var q := Sequence(src[anchor..ip], ip - m, ml);
      && qs0 <= qs && qs + [q] <= qs0 + PathSequences(src[..], anchor0, ip0, steps)
      && op + SequenceSize(q) + 6 > Oend(d, dst.Length)
  {
    hide Progress, SameRun, IsMatch, HopOk, SequenceSize, Leads, GoodPath, PathSequences, Length, CanFollow;
    op, anchor, ip, qs, ml, m := op0, anchor0, ip0, qs0, 1, 0;
    var rPos: nat := 0;
    ghost var s, rest, all := src[..], steps, qs0 + PathSequences(src[..], anchor0, ip0, steps);
    LengthSplit(steps);
    while rPos < last
      invariant ip == ip0 + rPos && anchor <= ip && rPos + Length(rest) == Length(steps)
      invariant rest != [] ==> rest[|rest| - 1] == steps[|steps| - 1]
      invariant src[..] == s && Leads(opt[..], rPos, rest) && GoodPath(s, ip, rest)
      invariant Progress(d, src[..], dst, op, anchor, qs)
      invariant all == qs + PathSequences(s, anchor, ip, rest) && qs0 <= qs
      decreases |rest|
    {
      NoLength(rest);
      PathStep(s, opt[..], rPos, anchor, ip, rest);
      ml := opt[rPos].mlen;
      var offset := opt[rPos].off;
      rest := rest[1..];
      if ml == 1 {
        ip, rPos := ip + 1, rPos + 1;
      } else {
        rPos := rPos + ml;
        m := ip - offset;
        var encoded, op';
        assert src[anchor..ip] == s[anchor..ip];
        Regroup2(qs, Sequence(s[anchor..ip], offset, ml), PathSequences(s, ip + ml, ip + ml, rest));
        encoded, op', qs := EncodeSequence(src, dst, d, true, op, anchor, ip, m, ml, qs);
        if !encoded {
          assert src[..] == s;
          return false, op, anchor, ip, ml, m, qs;
        }
        op, ip := op', ip + ml;
        anchor := ip;
      }
    }
    if rest != [] {
      LengthSplit(rest);
    }
    NoLength(rest);
    NoSequences(s, anchor, ip, rest);
    assert qs + [] == qs;
    ok := true;
  }

  lemma NoLength(steps: seq<Hop>)
    ensures steps == [] ==> Length(steps) == 0
  {
  }

  lemma NoSequences(s: seq<Byte>, anchor: nat, p: nat, steps: seq<Hop>)
    requires anchor <= p && GoodPath(s, p, steps)
    ensures steps == [] ==> PathSequences(s, anchor, p, steps) == []
  {
  }

  /** What the entry at `p` says about the next step. */
  lemma PathStep(s: seq<Byte>, o: seq<Opt>, p: nat, anchor: nat, ip: nat, rest: seq<Hop>)
    requires rest != [] && Leads(o, p, rest) && GoodPath(s, ip, rest) && anchor <= ip
    ensures p < |o| && 1 <= o[p].mlen && Length(rest) == o[p].mlen + Length(rest[1..])
    ensures Leads(o, p + o[p].mlen, rest[1..]) && GoodPath(s, ip + o[p].mlen, rest[1..])
    ensures o[p].mlen == 1 ==> PathSequences(s, anchor, ip, rest) == PathSequences(s, anchor, ip + 1, rest[1..])
    ensures o[p].mlen != 1 ==> var q := Sequence(s[anchor..ip], o[p].off, o[p].mlen); var end := ip + o[p].mlen;
      && o[p].off <= ip && CanFollow(s, anchor, ip, ip - o[p].off, o[p].mlen)
      && PathSequences(s, anchor, ip, rest) == [q] + PathSequences(s, end, end, rest[1..])
  {
    HopIs(s, ip, rest[0]);
  }

  lemma HopIs(s: seq<Byte>, p: nat, x: Hop)
    requires HopOk(s, p, x)
    ensures x.mlen != 1 ==> x.off <= p && CanFollow(s, p, p, p - x.off, x.mlen)
  {
  }

  lemma Regroup2(qs: seq<Sequence>, q: Sequence, rest: seq<Sequence>)
    ensures qs + ([q] + rest) == qs + [q] + rest && qs + [q] <= qs + ([q] + rest)
  {
  }

  lemma LengthSplit(steps: seq<Hop>)
    requires steps != []
    ensures Length(steps) == Length(steps[..|steps| - 1]) + steps[|steps| - 1].mlen
  {
    var init, last := steps[..|steps| - 1], steps[|steps| - 1];
    assert steps == init + [last] && [last][1..] == [];
    LengthAppend(init, [last]);
  }

  /** Label _dest_overflow of a filled output: the sequence that does not fit, with a shorter match if that fits. */
  method DestOverflow(src: array<Byte>, dst: array<Byte>, op: nat, anchor: nat, ip: nat, m: nat, ml: nat,
      ghost qs: seq<Sequence>)
    returns (op': nat, anchor': nat, ghost qs': seq<Sequence>)
    requires src != dst && Progress(FillOutput, src[..], dst, op, anchor, qs) && CanFollow(src[..], anchor, ip, m, ml)
    modifies dst
    ensures Progress(FillOutput, src[..], dst, op', anchor', qs')
  {
    hide Progress, SameRun;
    var ll := ip - anchor;
    var llTotalCost := 1 + (ll + 240) / 255 + ll;
    var oend: int := dst.Length - LASTLITERALS;
    var maxLitPos := oend - 3;
    op', anchor', qs' := op, anchor, qs;
    if op + llTotalCost <= maxLitPos {
      var bytesLeftForMl := maxLitPos - (op + llTotalCost);
      var maxMlSize := MINMATCH + (ML_MASK - 1) + bytesLeftForMl * 255;
      var ovml := if ml > maxMlSize then maxMlSize else ml;
      if oend + LASTLITERALS - (op + llTotalCost + 2) - 1 + ovml >= MFLIMIT {
        ShorterMatch(src[..], m, ip, ml, ovml);
        FitsUnchecked(dst.Length, op, ll, ovml - MINMATCH, bytesLeftForMl);
        var ok;
        ok, op', qs' := EncodeSequence(src, dst, FillOutput, false, op, anchor, ip, m, ovml, qs);
        anchor' := ip + ovml;
      }
    }
  }

  lemma ShorterMatch(s: seq<Byte>, m: nat, ip: nat, n: nat, n': nat)
    requires SameRun(s, m, ip, n) && n' <= n
    ensures SameRun(s, m, ip, n')
  {
  }

  lemma FitsUnchecked(limit: nat, op: nat, ll: nat, matchCode: nat, left: nat)
    requires op + 1 + (ll + 240) / 255 + ll + left == limit - LASTLITERALS - 3
    requires matchCode <= (ML_MASK - 1) + left * 255
    requires limit - (op + 1 + (ll + 240) / 255 + ll + 2) - 1 + matchCode + MINMATCH >= MFLIMIT
    ensures Unchecked(FillOutput, limit, op, ll, matchCode)
  {
    hide ExtBytes;
    assert (matchCode + 240) / 255 <= left;
  }

  // ---------------------------------------------------------------------------
  // The main loop
  // ---------------------------------------------------------------------------

  /** The path is reversed and encoded. */
  method EncodeElected(src: array<Byte>, dst: array<Byte>, d: OutputDirective, opt: array<Opt>, cur: nat, last: nat,
      mlen: nat, off: nat, op0: nat, anchor0: nat, ip0: nat, ghost qs0: seq<Sequence>, ghost steps: seq<Hop>)
    returns (ok: bool, op: nat, anchor: nat, ip: nat, ml: nat, m: nat, ghost qs: seq<Sequence>)
    requires src != dst && Progress(d, src[..], dst, op0, anchor0, qs0) && anchor0 <= ip0
    requires Elected(src[..], ip0, opt, cur, last, mlen, off)
    requires Reachable(opt[..], cur) && steps == BackPath(opt[..], cur, cur) + [Hop(mlen, off)]
    requires GoodPath(src[..], ip0, steps)
    modifies dst, opt
    ensures Progress(d, src[..], dst, op, anchor, qs) && anchor <= ip
    ensures ok ==> ip0 + last <= ip && ip == ip0 + cur + mlen && ip + LASTLITERALS <= src.Length
    ensures ok ==> qs == qs0 + PathSequences(src[..], anchor0, ip0, steps)
    ensures !ok ==> !d.NotLimited? && CanFollow(src[..], anchor, ip, m, ml)
    ensures !ok ==> var q := Sequence(src[anchor..ip], ip - m, ml);
      && qs0 <= qs && qs + [q] <= qs0 + PathSequences(src[..], anchor0, ip0, steps)
      && op + SequenceSize(q) + 6 > Oend(d, dst.Length)
  {
    hide Progress, HopOk, SameRun, CanFollow, SequenceSize;
    ElectedPath(src[..], ip0, opt, cur, last, mlen, off);
    Reverse(opt, cur, mlen, off);
    ok, op, anchor, ip, ml, m, qs := EncodePath(src, dst, d, opt, last, op0, anchor0, ip0, steps, qs0);
  }

  lemma ElectedPath(s: seq<Byte>, ip: nat, opt: array<Opt>, cur: nat, last: nat, mlen: nat, off: nat)
    requires Elected(s, ip, opt, cur, last, mlen, off)
    ensures Reachable(opt[..], cur)
    ensures var steps := BackPath(opt[..], cur, cur) + [Hop(mlen, off)];
            && GoodPath(s, ip, steps) && last <= Length(steps) == cur + mlen && ip + Length(steps) + LASTLITERALS <= |s|
            && steps[..|steps| - 1] == BackPath(opt[..], cur, cur) && Length(steps[..|steps| - 1]) == cur
    ensures mlen != 1 || (MINMATCH <= cur && opt[MINMATCH].mlen != 1) ==>
      HasMatch(BackPath(opt[..], cur, cur) + [Hop(mlen, off)])
  {
    hide HopOk;
    assert forall q :: 0 <= q <= cur ==> EntryOk(s, ip, q, opt[q]);
    BackPathIsGood(s, ip, opt[..], cur, cur);
    LengthAppend(BackPath(opt[..], cur, cur), [Hop(mlen, off)]);
    assert [Hop(mlen, off)][1..] == [];
    GoodAppend(s, ip, BackPath(opt[..], cur, cur), [Hop(mlen, off)]);
    var path, whole := BackPath(opt[..], cur, cur), BackPath(opt[..], cur, cur) + [Hop(mlen, off)];
    assert whole[..|whole| - 1] == path;
    if mlen != 1 {
      assert whole[|path|].mlen != 1;
    } else if MINMATCH <= cur && opt[MINMATCH].mlen != 1 {
      MatchesAreFour(s, ip, opt[..], cur);
      PathHasMatch(opt[..], cur, cur);
      var i :| 0 <= i < |path| && path[i].mlen != 1;
      assert whole[i].mlen != 1;
    }
  }

  lemma MatchesAreFour(s: seq<Byte>, ip: nat, o: seq<Opt>, n: nat)
    requires n < |o| && forall q :: 0 <= q <= n ==> EntryOk(s, ip, q, o[q])
    ensures forall q :: MINMATCH <= q <= n ==> o[q].mlen == 1 || MINMATCH <= o[q].mlen
  {
    forall q | MINMATCH <= q <= n
      ensures o[q].mlen == 1 || MINMATCH <= o[q].mlen
    {
      assert EntryOk(s, ip, q, o[q]);
    }
  }

  /** No four bytes before `ip` come twice within reach. */
  ghost predicate NoRepeatBelow(s: seq<Byte>, ip: nat) {
    forall p, q :: 0 <= p < q <= p + 65535 && q < ip && q + 12 <= |s| ==> !FourAgree(s, p, q)
  }

  lemma FourIsRun(s: seq<Byte>, p: nat, ip: nat)
    requires p < ip && ip + 12 <= |s|
    ensures FourAgree(s, p, ip) ==> 4 <= Run(s, p, ip)
  {
    SameBytesRun(s, p, ip, 4);
    if SameBytes(s, p, ip, 4) {
      CommonRunAtLeast(s, p, ip, |s| - LASTLITERALS, 4);
    }
  }

  lemma NoneAt(s: seq<Byte>, ip: nat)
    requires NoRepeatBelow(s, ip) && IsLongest(s, ip, false, 3)
    ensures NoRepeatBelow(s, ip + 1)
  {
    hide Run, FourAgree;
    forall p: nat | p < ip <= p + 65535
      ensures !FourAgree(s, p, ip)
    {
      FourIsRun(s, p, ip);
    }
  }

  /** The first bytes that come again are at `p`, or one byte later, and it is there that a long match starts. */
  ghost predicate LaterIsLonger(w: Plan, p: nat, n: nat) {
    NoRepeatBelow(w.s, p) && IsLongest(w.s, p, false, w.sufficientLen) && LongNext(w, p, n)
  }

  /** The parse is not greedy: the long match is taken, and the byte before it stays a literal. */
  ghost predicate TakesLater(w: Plan, qs: seq<Sequence>) {
    forall p: nat, n: nat :: LaterIsLonger(w, p, n) ==> Takes(qs, 0, w.s[..p + 1], n)
  }

  /** The same before the sequences are there: the position of the long match has not been passed. */
  ghost predicate TakesLaterFrom(w: Plan, qs: seq<Sequence>, ip: nat) {
    if qs == [] then forall p: nat, n: nat :: LaterIsLonger(w, p, n) ==> ip <= p + 1 else TakesLater(w, qs)
  }

  lemma NothingFound(w: Plan, qs: seq<Sequence>, ip: nat)
    requires TakesLaterFrom(w, qs, ip) && Searched(w, ip, 3, Find(0, 0))
    ensures TakesLaterFrom(w, qs, ip + 1)
  {
    hide Searched, NoRepeatBelow;
    if qs == [] {
      forall p: nat, n: nat | LaterIsLonger(w, p, n)
        ensures ip <= p
      {
        FoundBefore(w, p, n, ip, Find(0, 0));
      }
    }
  }

  lemma SomethingFound(w: Plan, qs: seq<Sequence>, qs': seq<Sequence>, ip: nat, ip': nat, f: Find)
    requires TakesLaterFrom(w, qs, ip) && Searched(w, ip, 3, f) && f.len != 0 && ip <= |w.s| && qs < qs'
    requires qs == [] && w.sufficientLen < f.len ==> qs' == [Sequence(w.s[..ip], f.off, f.len)]
    requires qs == [] && f.len <= w.sufficientLen ==> forall n :: LongNext(w, ip, n) ==> Takes(qs', 0, w.s[..ip + 1], n)
    ensures TakesLaterFrom(w, qs', ip')
  {
    hide Searched, NoRepeatBelow;
    forall p: nat, n: nat | LaterIsLonger(w, p, n)
      ensures Takes(qs', 0, w.s[..p + 1], n)
    {
      if qs == [] {
        FoundBefore(w, p, n, ip, f);
      } else {
        assert Takes(qs, 0, w.s[..p + 1], n) && qs[0] == qs'[0];
      }
    }
  }

  lemma EndOfSearch(w: Plan, qs: seq<Sequence>, ip: nat)
    requires TakesLaterFrom(w, qs, ip) && ip + MFLIMIT > |w.s|
    ensures TakesLater(w, qs)
  {
  }

  /** What is found up to there. */
  lemma FoundBefore(w: Plan, p: nat, n: nat, ip: nat, f: Find)
    requires LaterIsLonger(w, p, n) && Searched(w, ip, 3, f) && ip <= p + 1
    ensures f.len == 0 ==> ip <= p
    ensures f.len != 0 ==> if f.len <= w.sufficientLen then ip == p else ip == p + 1 && f.len == n
  {
    hide Longest, Run, IsLongest, FourAgree;
    if ip == p + 1 {
      SearchedIsLongest(w, p + 1, 3, f, n);
    } else if f.len != 0 {
      MatchIsRun(w.s, ip - f.off, ip, f.len);
      if ip < p {
        MatchIsFour(w.s, ip - f.off, ip, f.len);
      } else {
        RunIsAtMost(w.s, p, w.sufficientLen, ip - f.off);
      }
    }
  }

  lemma MatchIsFour(s: seq<Byte>, m: nat, p: nat, n: nat)
    requires IsMatch(s, m, p, n) && MINMATCH <= n && p + 12 <= |s|
    ensures FourAgree(s, m, p)
  {
    RunInFour(s, m, p, 0, n);
  }

  lemma RunIsAtMost(s: seq<Byte>, p: nat, n: nat, c: nat)
    requires IsLongest(s, p, false, n) && c < p <= c + 65535 && 4 <= Run(s, c, p)
    ensures Run(s, c, p) <= n
  {
  }

  /** Equal bytes, and a search that takes a match up to the last literals as it is. */
  ghost predicate TakesAll(s: seq<Byte>, nbSearches: nat, sufficientLen: nat, fullUpdate: bool, favorDecSpeed: bool) {
    && 13 <= |s| && AllEqual(s) && 1 <= nbSearches && !favorDecSpeed
    && (sufficientLen + 6 < |s| || !fullUpdate)
  }

  function OneMatch(s: seq<Byte>): Sequence
    requires 13 <= |s|
  {
    Sequence([s[0]], 1, |s| - 6)
  }

  /** The match at the second byte of equal bytes is the whole rest but for the last literals. */
  lemma EqualMatch(s: seq<Byte>, off: nat, len: nat)
    requires 13 <= |s| && AllEqual(s) && IsLongest(s, 1, false, if len == 0 then 3 else len)
    requires len != 0 ==> off <= 1 && 1 + len + LASTLITERALS <= |s| && IsMatch(s, 1 - off, 1, len)
    ensures len == |s| - 6 && off == 1 && s[0..1] == [s[0]]
  {
    assert Run(s, 0, 1) == |s| - 6 by { EqualRun(s, 0, 1, |s| - LASTLITERALS); }
  }

  lemma NothingBefore(s: seq<Byte>, off: nat, len: nat)
    requires len != 0 ==> off <= 0 && IsMatch(s, 0 - off, 0, len)
    ensures len == 0
  {
  }

  /** LZ4HC_compress_optimal: for any hash, number of searches, lengths and directive, a block stands for what it has
      consumed of the input. */
  method CompressOptimal(ctx: HcContext, src: array<Byte>, dst: array<Byte>, d: OutputDirective, nbSearches: nat,
      targetLength: nat, fullUpdate: bool, favorDecSpeed: bool)
    returns (r: nat, consumed: nat, ghost qs: seq<Sequence>)
    requires src != dst && src.Length <= LZ4_MAX_INPUT_SIZE
    requires ctx.Searching(src.Length) && ctx.nextToUpdate == ctx.lowLimit && ctx.Chains(src[..])
    requires (d.NotLimited? ==> WorstCase(src.Length) <= dst.Length) && (d.FillOutput? ==> 1 <= dst.Length)
    modifies dst, ctx`nextToUpdate, ctx.hashTable, ctx.chainTable
    ensures ctx.Searching(src.Length)
    ensures r <= dst.Length && (r > 0 ==> Compressed(src[..], dst[..r], consumed))
    ensures r > 0 && !d.FillOutput? ==> consumed == src.Length
    ensures !d.LimitedOutput? ==> r > 0
    ensures d.NotLimited? ==> r <= src.Length + src.Length / 255 + 2
    ensures r > 0 ==> IsBlock(dst[..r], qs, src[..], consumed)
    ensures d.FillOutput? && consumed < src.Length ==> r + 1 >= dst.Length
    ensures !d.FillOutput? && r > 0 && Thorough(src.Length, nbSearches, favorDecSpeed) && qs == [] ==> NoRepeat(src[..])
    ensures !d.FillOutput? && TakesAll(src[..], nbSearches, if targetLength >= 4096 then 4095 else targetLength,
                                       fullUpdate, favorDecSpeed) ==>
      r == if 10 + (src.Length + 230) / 255 <= dst.Length then 10 + (src.Length + 230) / 255 else 0
    ensures !d.FillOutput? && r > 0 ==>
      TakesLater(Plan(src[..], nbSearches, if targetLength >= 4096 then 4095 else targetLength, fullUpdate,
                      favorDecSpeed), qs)
  {
    hide Progress, Decode, Strict, HopOk, IsBlock, Chained, AllEqual, NoRepeat, Size, Span, TakesLater;
    ghost var s := src[..];
    var ok, op, anchor := true, 0, 0;
    NoProgress(d, s, dst);
    var sufficientLen := if targetLength >= LZ4_OPT_NUM then LZ4_OPT_NUM - 1 else targetLength;
    ok, op, anchor, qs := OptimalSequences(ctx, src, dst, d, nbSearches, sufficientLen, fullUpdate, favorDecSpeed);
    OneMatchSize(s);
    if !ok {
      return 0, src.Length, qs;
    }
    r, consumed := LastLiterals(src, dst, d, op, anchor, qs);
  }

  lemma OneMatchSize(s: seq<Byte>)
    ensures 13 <= |s| ==> var q := OneMatch(s);
      && Span([q]) == |s| - 5 && BlockSize([q], |s|) == SequenceSize(q) + 6 == 10 + (|s| + 230) / 255
  {
    if 13 <= |s| {
      SizeSnoc([], OneMatch(s));
      assert [] + [OneMatch(s)] == [OneMatch(s)];
    }
  }

  /** The sequences of the path that is elected from a match on. */
  method EncodeOptimised(ctx: HcContext, src: array<Byte>, dst: array<Byte>, d: OutputDirective, opt: array<Opt>,
      nbSearches: nat, sufficientLen: nat, fullUpdate: bool, favorDecSpeed: bool, op0: nat, anchor0: nat, ip0: nat,
      off: nat, len: nat, ghost qs0: seq<Sequence>)
    returns (ok: bool, op: nat, anchor: nat, ip: nat, ml: nat, m: nat, ghost qs: seq<Sequence>)
    requires src != dst && opt.Length == LZ4_OPT_NUM + TRAILING_LITERALS
    requires Progress(d, src[..], dst, op0, anchor0, qs0) && anchor0 <= ip0 && ip0 + MFLIMIT <= src.Length
    requires ctx.Searching(src.Length) && ctx.nextToUpdate == ctx.lowLimit + ip0 && ctx.Chains(src[..])
    requires MINMATCH <= len <= sufficientLen < LZ4_OPT_NUM && HopOk(src[..], ip0, Hop(len, off))
    modifies dst, opt, ctx`nextToUpdate, ctx.hashTable, ctx.chainTable
    ensures ctx.Searching(src.Length) && ctx.Chains(src[..]) && (ok ==> ctx.nextToUpdate <= ctx.lowLimit + ip)
    ensures Progress(d, src[..], dst, op, anchor, qs) && anchor <= ip
    ensures ok ==> ip0 < ip && qs0 < qs
    ensures !ok ==> !d.NotLimited? && CanFollow(src[..], anchor, ip, m, ml)
    ensures ip0 + len + LASTLITERALS == src.Length && !fullUpdate ==>
      var q := Sequence(src[anchor0..ip0], off, len);
      if ok then qs == qs0 + [q] && ip == ip0 + len
      else qs == qs0 && op + SequenceSize(q) + 6 > Oend(d, dst.Length)
    ensures ok ==> forall n :: LongNext(Plan(src[..], nbSearches, sufficientLen, fullUpdate, favorDecSpeed), ip0, n) ==>
      Takes(qs, |qs0|, src[anchor0..ip0 + 1], n)
  {
    hide Progress, HopOk, SameRun, IsMatch, Chained, SequenceSize, GoodPath, PathSequences, Optimised, LongNext;
    hide BackPath, Takes, TakesNext;
    ghost var s := src[..];
    ghost var w := Plan(s, nbSearches, sufficientLen, fullUpdate, favorDecSpeed);
    ghost var ts, fs;
    var cur, last, bestMlen, bestOff;
    cur, last, bestMlen, bestOff, ts, fs :=
      Optimise(ctx, src, ip0, ip0 - anchor0, opt, off, len, nbSearches, sufficientLen, fullUpdate, favorDecSpeed);
    ghost var steps, all :=
      ElectedSequences(w, anchor0, ip0, Find(off, len), ts, fs, opt, cur, last, Find(bestOff, bestMlen));
    ok, op, anchor, ip, ml, m, qs :=
      EncodeElected(src, dst, d, opt, cur, last, bestMlen, bestOff, op0, anchor0, ip0, qs0, steps);
    if ok {
      FirstIsTaken(w, anchor0, ip0, all, qs0);
    } else if |all| == 1 {
      MatchIsBehind(s, m, ip, ml);
      OnlyOne(qs, Sequence(s[anchor..ip], ip - m, ml), qs0, all[0]);
    }
  }

  /** If a long match starts one byte later, it is the first of these sequences. */
  ghost predicate TakesNext(w: Plan, anchor: nat, ip: nat, all: seq<Sequence>)
    requires anchor <= ip && ip + MFLIMIT <= |w.s|
  {
    forall n :: LongNext(w, ip, n) ==> Takes(all, 0, w.s[anchor..ip + 1], n)
  }

  lemma FirstIsTaken(w: Plan, anchor: nat, ip: nat, all: seq<Sequence>, qs: seq<Sequence>)
    requires anchor <= ip && ip + MFLIMIT <= |w.s| && all != [] && TakesNext(w, anchor, ip, all)
    ensures forall n :: LongNext(w, ip, n) ==> Takes(qs + all, |qs|, w.s[anchor..ip + 1], n)
    ensures qs < qs + all
  {
    hide LongNext;
    assert (qs + all)[|qs|] == all[0];
  }

  /** The sequences of the path that is elected. */
  lemma ElectedSequences(w: Plan, anchor: nat, ip: nat, first: Find, ts: seq<Prices>, fs: seq<Find>, opt: array<Opt>,
      cur: nat, last: nat, best: Find)
    returns (steps: seq<Hop>, all: seq<Sequence>)
    requires anchor <= ip && ip + MFLIMIT <= |w.s| && first.len <= w.sufficientLen
    requires Elected(w.s, ip, opt, cur, last, best.len, best.off)
    requires best.len != 1 || (MINMATCH <= cur && opt[MINMATCH].mlen != 1)
    requires Optimised(w, ip, ip - anchor, first, ts, fs, opt[..], cur, last, best)
    ensures Reachable(opt[..], cur) && steps == BackPath(opt[..], cur, cur) + [Hop(best.len, best.off)]
    ensures GoodPath(w.s, ip, steps) && all == PathSequences(w.s, anchor, ip, steps) != []
    ensures cur == 0 && best.len != 1 ==> all == [Sequence(w.s[anchor..ip], best.off, best.len)]
    ensures TakesNext(w, anchor, ip, all)
  {
    hide HopOk, Optimised, LongNext, GoodPath, PathSequences;
    ElectedPath(w.s, ip, opt, cur, last, best.len, best.off);
    steps := BackPath(opt[..], cur, cur) + [Hop(best.len, best.off)];
    MatchesAreSequences(w.s, anchor, ip, steps);
    OneHop(w.s, anchor, ip, opt[..], cur, best.len, best.off);
    LongNextsAreElected(w, ip, ip - anchor, first, ts, fs, opt[..], cur, last, best);
    all := PathSequences(w.s, anchor, ip, steps);
  }

  lemma OnlyOne(qs: seq<Sequence>, q: Sequence, qs0: seq<Sequence>, only: Sequence)
    requires qs0 <= qs && qs + [q] <= qs0 + [only]
    ensures qs == qs0 && q == only
  {
    assert |qs| == |qs0|;
    assert (qs + [q])[|qs|] == (qs0 + [only])[|qs|];
  }

  /** The sequences from a match on: the match itself where it is long enough, a path otherwise. A match up to the last
      literals is taken as it is, then or without full update. */
  method EncodeFound(ctx: HcContext, src: array<Byte>, dst: array<Byte>, d: OutputDirective, opt: array<Opt>,
      nbSearches: nat, sufficientLen: nat, fullUpdate: bool, favorDecSpeed: bool, op0: nat, anchor0: nat, ip0: nat,
      off: nat, len: nat, ghost qs0: seq<Sequence>)
    returns (ok: bool, op: nat, anchor: nat, ip: nat, ml: nat, m: nat, ghost qs: seq<Sequence>)
    requires src != dst && sufficientLen < LZ4_OPT_NUM && opt.Length == LZ4_OPT_NUM + TRAILING_LITERALS
    requires Progress(d, src[..], dst, op0, anchor0, qs0) && anchor0 <= ip0
    requires ctx.Searching(src.Length) && ctx.nextToUpdate == ctx.lowLimit + ip0 && ctx.Chains(src[..])
    requires off <= ip0 && CanFollow(src[..], ip0, ip0, ip0 - off, len)
    modifies dst, opt, ctx`nextToUpdate, ctx.hashTable, ctx.chainTable
    ensures ctx.Searching(src.Length) && ctx.Chains(src[..]) && (ok ==> ctx.nextToUpdate <= ctx.lowLimit + ip)
    ensures Progress(d, src[..], dst, op, anchor, qs) && anchor <= ip
    ensures ok ==> ip0 < ip && qs0 < qs
    ensures !ok ==> !d.NotLimited? && CanFollow(src[..], anchor, ip, m, ml)
    ensures ip0 + len + LASTLITERALS == src.Length && (sufficientLen < len || !fullUpdate) ==>
      var q := Sequence(src[anchor0..ip0], off, len);
      if ok then qs == qs0 + [q] && ip == ip0 + len
      else qs == qs0 && op + SequenceSize(q) + 6 > Oend(d, dst.Length)
    ensures ok && sufficientLen < len ==> qs == qs0 + [Sequence(src[anchor0..ip0], off, len)]
    ensures ok && len <= sufficientLen ==>
      forall n :: LongNext(Plan(src[..], nbSearches, sufficientLen, fullUpdate, favorDecSpeed), ip0, n) ==>
        Takes(qs, |qs0|, src[anchor0..ip0 + 1], n)
  {
    hide Progress, HopOk, SameRun, IsMatch, Chained, SequenceSize, LongNext, Takes;
    FoundIsOk(src[..], ip0, off, len);
    if len > sufficientLen {
      op, anchor, ip, ml, m := op0, anchor0, ip0, len, ip0 - off;
      var op';
      ok, op', qs := EncodeSequence(src, dst, d, true, op, anchor, ip, m, ml, qs0);
      if ok {
        op, ip := op', ip + ml;
        anchor := ip;
      }
    } else {
      ok, op, anchor, ip, ml, m, qs := EncodeOptimised(ctx, src, dst, d, opt, nbSearches, sufficientLen, fullUpdate,
        favorDecSpeed, op0, anchor0, ip0, off, len, qs0);
    }
  }

  lemma OneHop(s: seq<Byte>, anchor: nat, p: nat, o: seq<Opt>, cur: nat, mlen: nat, off: nat)
    requires anchor <= p && Reachable(o, cur) && GoodPath(s, p, BackPath(o, cur, cur) + [Hop(mlen, off)])
    ensures var steps := BackPath(o, cur, cur) + [Hop(mlen, off)];
      cur <= 1 && mlen != 1 ==>
        p + cur <= |s| && PathSequences(s, anchor, p, steps) == [Sequence(s[anchor..p + cur], off, mlen)]
  {
    if cur == 0 && mlen != 1 {
      assert BackPath(o, cur, cur) + [Hop(mlen, off)] == [Hop(mlen, off)];
    } else if cur == 1 && mlen != 1 {
      var literal := Hop(1, o[1].off);
      assert BackPath(o, 1, 0) == [] && BackPath(o, 1, 1) == [] + [literal];
      var steps := BackPath(o, cur, cur) + [Hop(mlen, off)];
      assert steps == [literal, Hop(mlen, off)] && steps[1..] == [Hop(mlen, off)] && steps[1..][1..] == [];
      assert PathSequences(s, anchor, p + 1, steps[1..]) == [Sequence(s[anchor..p + 1], off, mlen)];
    }
  }

  /** Sequence `k` has these literals and a match of that length. */
  predicate Takes(qs: seq<Sequence>, k: nat, literals: seq<Byte>, n: nat) {
    k < |qs| && qs[k].literals == literals && qs[k].matchLength == n
  }

  /** The main loop: sequences are appended until the end of the input comes near or the output is full. */
  method OptimalSequences(ctx: HcContext, src: array<Byte>, dst: array<Byte>, d: OutputDirective, nbSearches: nat,
      sufficientLen: nat, fullUpdate: bool, favorDecSpeed: bool)
    returns (ok: bool, op: nat, anchor: nat, ghost qs: seq<Sequence>)
    requires src != dst && sufficientLen < LZ4_OPT_NUM && Progress(d, src[..], dst, 0, 0, [])
    requires ctx.Searching(src.Length) && ctx.nextToUpdate == ctx.lowLimit && ctx.Chains(src[..])
    modifies dst, ctx`nextToUpdate, ctx.hashTable, ctx.chainTable
    ensures ctx.Searching(src.Length)
    ensures !ok ==> d.LimitedOutput?
    ensures ok ==> Progress(d, src[..], dst, op, anchor, qs)
    ensures ok && !d.FillOutput? && Thorough(src.Length, nbSearches, favorDecSpeed) && qs == [] ==> NoRepeat(src[..])
    ensures !d.FillOutput? && TakesAll(src[..], nbSearches, sufficientLen, fullUpdate, favorDecSpeed) ==>
      if ok then qs == [OneMatch(src[..])] else SequenceSize(OneMatch(src[..])) + 6 > dst.Length
    ensures ok && !d.FillOutput? ==> TakesLater(Plan(src[..], nbSearches, sufficientLen, fullUpdate, favorDecSpeed), qs)
  {
    hide Progress, HopOk, SameRun, IsMatch, Chained, IsLongest, SequenceSize, TakesLaterFrom, TakesLater, LongNext,
      Takes;
    ghost var s := src[..];
    ghost var w := Plan(s, nbSearches, sufficientLen, fullUpdate, favorDecSpeed);
    NothingTaken(w);
    ghost var all := TakesAll(s, nbSearches, sufficientLen, fullUpdate, favorDecSpeed);
    var opt := new Opt[LZ4_OPT_NUM + TRAILING_LITERALS](_ => Opt(0, 0, 0, 0));
    ok, op, anchor, qs := true, 0, 0, [];
    var ip, ml, m := 0, 0, 0;
    while ip + MFLIMIT <= src.Length
      invariant src[..] == s && anchor <= ip && Progress(d, s, dst, op, anchor, qs)
      invariant (qs == [] ==> anchor == 0) && TakesLaterFrom(w, qs, ip)
      invariant ctx.Searching(src.Length) && ctx.nextToUpdate <= ctx.lowLimit + ip && ctx.Chains(s)
      invariant Thorough(src.Length, nbSearches, favorDecSpeed) && qs == [] ==> NoRepeatBelow(s, ip)
      invariant all ==> (ip <= 1 && op == anchor == 0 && qs == []) || (ip + 5 == src.Length && qs == [OneMatch(s)])
      decreases src.Length - ip
    {
      var off, len := ctx.FindLongerMatch(src, ip, MINMATCH - 1, nbSearches, favorDecSpeed);
      assert Searched(w, ip, 3, Find(off, len));
      if len == 0 {
        NothingFound(w, qs, ip);
        if Thorough(src.Length, nbSearches, favorDecSpeed) && qs == [] {
          NoneAt(s, ip);
        }
        if all && ip == 1 {
          EqualMatch(s, off, len);
        }
        ip := ip + 1;
        continue;
      }
      if all && ip == 0 {
        NothingBefore(s, off, len);
      }
      if all && ip == 1 {
        EqualMatch(s, off, len);
      }
      ghost var ip0, qs0 := ip, qs;
      ok, op, anchor, ip, ml, m, qs := EncodeFound(ctx, src, dst, d, opt, nbSearches, sufficientLen, fullUpdate,
        favorDecSpeed, op, anchor, ip, off, len, qs);
      if ok {
        SomethingFound(w, qs0, qs, ip0, ip, Find(off, len));
      }
      if !ok {
        assert src[..] == s;
        ProgressFits(d, s, dst, op, anchor, qs);
        SizeOfNone();
        if d.FillOutput? {
          op, anchor, qs := DestOverflow(src, dst, op, anchor, ip, m, ml, qs);
          ok := true;
        }
        return;
      }
    }
    EndOfSearch(w, qs, ip);
  }

  lemma NothingTaken(w: Plan)
    ensures TakesLaterFrom(w, [], 0)
  {
  }

  // ---------------------------------------------------------------------------
  // Entry points
  // ---------------------------------------------------------------------------

  const LZ4HC_CLEVEL_OPT_MIN := 10
  const LZ4HC_CLEVEL_MAX := 12

  /** How many positions a search looks at, by level. */
  function Attempts(level: nat): (n: nat)
    ensures level <= 10 ==> n == 96
    ensures level == 11 ==> n == 512
    ensures 12 <= level ==> n == 16384
  {
    if level >= LZ4HC_CLEVEL_MAX then 16384 else if level == 11 then 512 else 96
  }

  /** From which length on a match is taken at once, by level. */
  function SufficientLength(level: nat): (n: nat)
    ensures level <= 10 ==> n == 64
    ensures level == 11 ==> n == 128
    ensures 12 <= level ==> n == 4095
  {
    if level >= LZ4HC_CLEVEL_MAX then LZ4_OPT_NUM - 1 else if level == 11 then 128 else 64
  }

  function LevelPlan(s: seq<Byte>, level: nat, favorDecSpeed: bool): Plan {
    Plan(s, Attempts(level), SufficientLength(level), 12 <= level, favorDecSpeed)
  }

  /** LZ4HC_compress_generic at a level that has the optimal parser. */
  method CompressGenericHc(ctx: HcContext, src: array<Byte>, dst: array<Byte>, d: OutputDirective, level: nat,
      favorDecSpeed: bool)
    returns (r: nat, consumed: nat, ghost qs: seq<Sequence>)
    requires src != dst && LZ4HC_CLEVEL_OPT_MIN <= level && ctx.Ready() && ctx.Tables(ctx.nextToUpdate)
    requires ctx.nextToUpdate == ctx.lowLimit == ctx.end && 64 * KB <= ctx.end <= GB + 64 * KB && ctx.Chains(src[..])
    requires d.NotLimited? ==> CompressBound(src.Length) <= dst.Length
    modifies dst, ctx, ctx.hashTable, ctx.chainTable
    ensures ctx.Ready()
    ensures r <= dst.Length && (r > 0 ==> Compressed(src[..], dst[..r], consumed))
    ensures r > 0 && !d.FillOutput? ==> consumed == src.Length
    ensures src.Length > LZ4_MAX_INPUT_SIZE ==> r == 0
    ensures src.Length <= LZ4_MAX_INPUT_SIZE && (d.NotLimited? || (d.FillOutput? && 1 <= dst.Length)) ==> r > 0
    ensures d.NotLimited? ==> r <= src.Length + src.Length / 255 + 2
    ensures r > 0 ==> IsBlock(dst[..r], qs, src[..], consumed)
    ensures r > 0 && consumed < src.Length ==> r + 1 >= dst.Length
    ensures !d.FillOutput? && r > 0 && !favorDecSpeed && src.Length <= Attempts(level) && qs == [] ==>
      NoRepeat(src[..])
    ensures !d.FillOutput? && EqualAtLevel(src[..], level, favorDecSpeed) ==>
      r == if 10 + (src.Length + 230) / 255 <= dst.Length then 10 + (src.Length + 230) / 255 else 0
    ensures !d.FillOutput? && r > 0 ==> TakesLater(LevelPlan(src[..], level, favorDecSpeed), qs)
  {
    hide Decode, Strict, IsBlock, Chained, NoRepeat, AllEqual, TakesLater;
    if (d.FillOutput? && dst.Length < 1) || src.Length > LZ4_MAX_INPUT_SIZE {
      return 0, 0, [];
    }
    ctx.end := ctx.end + src.Length;
    var top := if level > LZ4HC_CLEVEL_MAX then LZ4HC_CLEVEL_MAX else level;
    var nbSearches := if top == 10 then 96 else if top == 11 then 512 else 16384;
    var targetLength := if top == 10 then 64 else if top == 11 then 128 else LZ4_OPT_NUM;
    r, consumed, qs :=
      CompressOptimal(ctx, src, dst, d, nbSearches, targetLength, top == LZ4HC_CLEVEL_MAX, favorDecSpeed);
    ctx.SearchedIsReady(src.Length);
    if r == 0 {
      ctx.dirty := true;
    }
  }

  /** Equal bytes that are not too few for the level. */
  ghost predicate EqualAtLevel(s: seq<Byte>, level: nat, favorDecSpeed: bool) {
    13 <= |s| <= 0x7E00_0000 && AllEqual(s) && !favorDecSpeed && (level <= 11 || 4102 <= |s|)
  }

  /** LZ4_compress_HC_extStateHC_fastReset: a context that is used again. */
  method CompressHcFastReset(ctx: HcContext, src: array<Byte>, dst: array<Byte>, level: nat, favorDecSpeed: bool)
    returns (r: nat, ghost qs: seq<Sequence>)
    requires src != dst && LZ4HC_CLEVEL_OPT_MIN <= level && ctx.Ready()
    modifies dst, ctx, ctx.hashTable, ctx.chainTable
    ensures ctx.Ready()
    ensures r <= dst.Length && (r > 0 ==> Compressed(src[..], dst[..r], src.Length))
    ensures src.Length > LZ4_MAX_INPUT_SIZE ==> r == 0
    ensures src.Length <= 0x7E00_0000 && src.Length + src.Length / 255 + 16 <= dst.Length
      ==> 0 < r <= src.Length + src.Length / 255 + 2
    ensures r > 0 ==> IsBlock(dst[..r], qs, src[..], src.Length)
    ensures r > 0 && !favorDecSpeed && src.Length <= Attempts(level) && qs == [] ==> NoRepeat(src[..])
    ensures EqualAtLevel(src[..], level, favorDecSpeed) ==>
      r == if 10 + (src.Length + 230) / 255 <= dst.Length then 10 + (src.Length + 230) / 255 else 0
    ensures r > 0 ==> TakesLater(LevelPlan(src[..], level, favorDecSpeed), qs)
  {
    hide Decode, Strict, IsBlock, Chained, NoRepeat, AllEqual, TakesLater;
    ctx.Init();
    assert ctx.Chains(src[..]);
    var d := if dst.Length < CompressBound(src.Length) then LimitedOutput else NotLimited;
    var consumed;
    r, consumed, qs := CompressGenericHc(ctx, src, dst, d, level, favorDecSpeed);
  }

  /** LZ4_compress_HC_destSize. */
  method CompressHcDestSize(hash: seq<Byte> -> nat, src: array<Byte>, dst: array<Byte>, level: nat)
    returns (r: nat, consumed: nat)
    requires src != dst && LZ4HC_CLEVEL_OPT_MIN <= level
    modifies dst
    ensures r <= dst.Length && (r > 0 ==> Compressed(src[..], dst[..r], consumed))
    ensures r == 0 <==> src.Length > LZ4_MAX_INPUT_SIZE || dst.Length == 0
    ensures r > 0 && consumed < src.Length ==> r + 1 >= dst.Length
  {
    hide Decode, Strict, IsBlock, Chained, NoRepeat, AllEqual;
    var ctx := new HcContext(hash);
    ctx.Init();
    assert ctx.Chains(src[..]);
    ghost var qs;
    r, consumed, qs := CompressGenericHc(ctx, src, dst, FillOutput, level, false);
  }
}
