/** What the streaming frame decoder needs to know about keeping the last 64 KB. */
module Lz4FrameHistory {
  import opened Basics
  import opened Bytes
  import opened Lz4FrameFormat

  function Suffix(s: seq<Byte>, n: nat): (r: seq<Byte>)
    requires n <= |s|
    ensures |r| == n
  {
    s[|s| - n..]
  }

  /** The `n` bytes at `at`. */
  function Part(s: seq<Byte>, at: nat, n: nat): (r: seq<Byte>)
    requires at + n <= |s|
    ensures |r| == n
  {
    s[at..at + n]
  }

  /** Two histories that agree on their last 64 KB still do when both grow by the same bytes. */
  lemma GrowBoth(a: seq<Byte>, b: seq<Byte>, more: seq<Byte>)
    requires Last64(a) == Last64(b)
    ensures Last64(a + more) == Last64(b + more)
  {
    var x, y := a + more, b + more;
    assert |Last64(x)| == |Last64(y)|;
    forall i | 0 <= i < |Last64(x)|
      ensures Last64(x)[i] == Last64(y)[i]
    {
      var back := |Last64(x)| - i;
      assert Last64(x)[i] == x[|x| - back] && Last64(y)[i] == y[|y| - back];
      if back > |more| {
        var j := back - |more|;
        assert x[|x| - back] == a[|a| - j] && y[|y| - back] == b[|b| - j];
        assert Last64(a)[|Last64(a)| - j] == a[|a| - j] && Last64(b)[|Last64(b)| - j] == b[|b| - j];
      }
    }
  }

  /** The last 64 KB, or more, are enough. */
  lemma KeepSuffix(s: seq<Byte>, n: nat)
    requires n <= |s| && (n == |s| || WINDOW <= n)
    ensures Last64(Suffix(s, n)) == Last64(s)
  {
  }

  /** `n` bytes of an old history in front of a block are enough when, with the block, they make 64 KB or all there
      is; what stands before them matters only if it can be seen. */
  lemma KeepEnough(junk: seq<Byte>, past: seq<Byte>, history: seq<Byte>, block: seq<Byte>, n: nat)
    requires n <= |past| && Last64(past + block) == Last64(history)
    requires WINDOW <= n + |block| || (|history| <= n + |block| && junk == [])
    ensures Last64(junk + Suffix(past, n) + block) == Last64(history)
  {
    if WINDOW <= n + |block| {
      KeepLong(junk, past, history, block, n);
    } else {
      KeepAll(past, history, block, n);
      assert [] + Suffix(past, n) + block == past + block;
    }
  }

  lemma KeepLong(junk: seq<Byte>, past: seq<Byte>, history: seq<Byte>, block: seq<Byte>, n: nat)
    requires n <= |past| && Last64(past + block) == Last64(history) && WINDOW <= n + |block|
    ensures Last64(junk + Suffix(past, n) + block) == Last64(history)
  {
    var dropped := past[..|past| - n];
    TailOfThree(junk, Suffix(past, n), block);
    TailOfThree(dropped, Suffix(past, n), block);
    assert dropped + Suffix(past, n) == past;
    hide Last64, Suffix;
  }

  lemma KeepAll(past: seq<Byte>, history: seq<Byte>, block: seq<Byte>, n: nat)
    requires n <= |past| && Last64(past + block) == Last64(history) && |history| <= n + |block| < WINDOW
    ensures Suffix(past, n) == past
  {
    AllOfIt(past + block, history);
    hide Last64;
    assert |past + block| == |history|;
    WholeSuffix(past, n);
  }

  lemma WholeSuffix(s: seq<Byte>, n: nat)
    requires n == |s|
    ensures Suffix(s, n) == s
  {
  }

  /** 64 KB at the end hide what stands before them. */
  lemma TailOfThree(x: seq<Byte>, a: seq<Byte>, b: seq<Byte>)
    requires WINDOW <= |a| + |b|
    ensures Last64(x + a + b) == Last64(a + b)
  {
    var s := x + a + b;
    assert Suffix(s, |a + b|) == a + b;
    KeepSuffix(s, |a + b|);
  }

  lemma AllOfIt(s: seq<Byte>, history: seq<Byte>)
    requires Last64(s) == Last64(history) && |history| < WINDOW
    ensures s == history
  {
    assert |Last64(s)| == |history|;
  }

  /** What stands in front of `at + done` in a buffer, and the rest of the block at `at`. */
  function Continued(buffer: seq<Byte>, at: nat, size: nat, done: nat): seq<Byte>
    requires at + size <= |buffer| && done <= size
  {
    buffer[..at + done] + buffer[at + done..at + size]
  }

  /** `n` bytes of an old history copied in front of a block in a buffer. */
  lemma BlockInBuffer(buffer: seq<Byte>, at: nat, size: nat, past: seq<Byte>, n: nat, done: nat)
    requires n <= at && n <= |past| && at + size <= |buffer| && done <= size
    ensures var moved := Overlay(buffer, at - n, Suffix(past, n));
            && Part(moved, at, size) == Part(buffer, at, size)
            && Continued(moved, at, size, done) == Part(moved, 0, at - n) + Suffix(past, n) + Part(buffer, at, size)
  {
    var moved := Overlay(buffer, at - n, Suffix(past, n));
    assert moved[at - n..at] == Suffix(past, n);
    assert moved[at..at + size] == buffer[at..at + size];
    assert moved[..at + done] + moved[at + done..at + size]
      == moved[..at - n] + moved[at - n..at] + moved[at..at + size];
  }

  /** A block that is 64 KB or more, or that has enough history in front of it. */
  lemma BlockWithHistory(junk: seq<Byte>, past: seq<Byte>, history: seq<Byte>, block: seq<Byte>, n: nat)
    requires n <= |past| && |block| <= |history| && Suffix(history, |block|) == block
    requires WINDOW < |block| || (Last64(past + block) == Last64(history)
                                  && (WINDOW <= n + |block| || (|history| <= n + |block| && junk == [])))
    ensures Last64(junk + Suffix(past, n) + block) == Last64(history)
  {
    if WINDOW < |block| {
      var x := junk + Suffix(past, n);
      assert Suffix(x + block, |block|) == block;
      KeepSuffix(x + block, |block|);
      KeepSuffix(history, |block|);
    } else {
      KeepEnough(junk, past, history, block, n);
    }
  }

  /** Both together: history moved in front of a block continues into it. */
  lemma HistoryMoved(buffer: seq<Byte>, at: nat, size: nat, past: seq<Byte>, n: nat, done: nat, history: seq<Byte>)
    requires n <= at && n <= |past| && at + size <= |buffer| && done <= size
    requires size <= |history| && Suffix(history, size) == Part(buffer, at, size)
    requires WINDOW < size || (Last64(past + Part(buffer, at, size)) == Last64(history)
                               && (WINDOW <= n + size || (|history| <= n + size && at == n)))
    ensures var moved := Overlay(buffer, at - n, Suffix(past, n));
            && Part(moved, at, size) == Part(buffer, at, size)
            && Last64(Continued(moved, at, size, done)) == Last64(history)
  {
    BlockInBuffer(buffer, at, size, past, n, done);
    var junk := Part(Overlay(buffer, at - n, Suffix(past, n)), 0, at - n);
    hide Last64, Suffix, Overlay, Part, Continued;
    assert at == n ==> junk == [];
    BlockWithHistory(junk, past, history, Part(buffer, at, size), n);
  }

  lemma PartOfAppend(a: seq<Byte>, b: seq<Byte>, at: nat)
    requires at <= |a|
    ensures Part(a + b, at, |a| - at + |b|) == Part(a, at, |a| - at) + b
    ensures Part(a + b, |a|, |b|) == b && Part(a + b, 0, |a| + |b|) == a + b
  {
  }

  lemma PartGrows(s: seq<Byte>, at: nat, n: nat, m: nat)
    requires at + n + m <= |s|
    ensures Part(s, at, n + m) == Part(s, at, n) + Part(s, at + n, m)
  {
  }

  lemma ContinuedParts(buffer: seq<Byte>, at: nat, size: nat, done: nat)
    requires at + size <= |buffer| && done <= size
    ensures Continued(buffer, at, size, done) == Part(buffer, 0, at + done) + Part(buffer, at + done, size - done)
  {
  }

  /** Bytes of this call that fill a window are history enough. */
  lemma WholeDst(history: seq<Byte>, w: seq<Byte>, rest: seq<Byte>)
    requires |w| + |rest| <= |history| && Suffix(history, |w| + |rest|) == w + rest && WINDOW <= |w|
    ensures Last64(w + rest) == Last64(history)
  {
    KeepSuffix(history, |w| + |rest|);
    KeepSuffix(w + rest, |w| + |rest|);
  }

  /** The dictionary of a call that is flushing a block ends with what has been flushed of it. */
  lemma DictCoversBlock(dict: seq<Byte>, delivered: seq<Byte>, pending: seq<Byte>, all: seq<Byte>, block: seq<Byte>,
      history: seq<Byte>)
    requires |dict| <= |delivered| && Suffix(delivered, |dict|) == dict && all == delivered + pending
    requires |block| <= |all| && Suffix(all, |block|) == block && |pending| <= |block| <= |history|
    requires Last64(dict + pending) == Last64(history) && |block| <= WINDOW
    ensures var start := |block| - |pending|;
            start <= |dict| && dict[..|dict| - start] + block == dict + pending
  {
    var start := |block| - |pending|;
    assert |Last64(dict + pending)| == |Last64(history)|;
    assert start <= |dict|;
    assert block[start..] == pending by { assert block == all[|all| - |block|..]; }
    assert block[..start] == dict[|dict| - start..] by {
      assert block == all[|all| - |block|..];
      assert dict == delivered[|delivered| - |dict|..];
    }
    assert dict[..|dict| - start] + dict[|dict| - start..] == dict;
    assert block == block[..start] + block[start..];
  }

  lemma NothingDelivered(s: seq<Byte>)
    ensures Suffix(s, 0) == []
  {
  }

  lemma SuffixOfAppend(a: seq<Byte>, b: seq<Byte>, n: nat)
    requires n <= |b|
    ensures Suffix(a + b, n) == Suffix(b, n)
  {
  }

  lemma SuffixOfSuffix(s: seq<Byte>, w: seq<Byte>, at: nat, n: nat)
    requires |w| <= |s| && Suffix(s, |w|) == w && at + n == |w|
    ensures Suffix(s, n) == Part(w, at, n)
  {
  }

  lemma OverlaidFront(buffer: seq<Byte>, part: seq<Byte>)
    requires |part| <= |buffer|
    ensures Part(Overlay(buffer, 0, part), 0, |part|) == part
  {
  }

  /** Bytes collected in a buffer, a few more each time. */
  lemma Collecting(buffer: seq<Byte>, from: nat, size: nat, bytes: seq<Byte>)
    requires from <= size && size + |bytes| <= |buffer|
    ensures Part(Overlay(buffer, size, bytes), from, size - from + |bytes|) == Part(buffer, from, size - from) + bytes
    ensures Part(Overlay(buffer, size, bytes), 0, size) == Part(buffer, 0, size)
  {
    var now := Overlay(buffer, size, bytes);
    assert now[size..size + |bytes|] == bytes;
    assert now[from..size + |bytes|] == now[from..size] + now[size..size + |bytes|];
  }

  lemma TailOfPart(s: seq<Byte>, n: nat, m: nat)
    requires m <= n <= |s|
    ensures Suffix(Part(s, 0, n), m) == s[n - m..n]
  {
  }

  /** A good history that is shorter than 64 KB is all there is. */
  lemma HistoryFits(dict: seq<Byte>, history: seq<Byte>, n: nat)
    requires Last64(dict) == Last64(history) && (n == |dict| || WINDOW <= n)
    ensures WINDOW <= n || |history| <= n
  {
    assert |Last64(dict)| == |Last64(history)|;
  }
}
