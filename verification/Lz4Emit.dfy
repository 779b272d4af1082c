/** What LZ4_compress_generic_validated of lz4.c writes and compares: tokens, literals, matches, common runs. */
module Lz4Emit {
  import opened Basics
  import opened Lz4Format
  import opened Lz4Copy

  // ---------------------------------------------------------------------------
  // Writing lengths and literals
  // ---------------------------------------------------------------------------

  lemma {:induction false} ExtBytesAre(n: nat)
    ensures forall i :: 0 <= i < n / 255 ==> ExtBytes(n)[i] == 255
    ensures ExtBytes(n)[n / 255] == n % 255
    decreases n
  {
    if 255 <= n {
      ExtBytesAre(n - 255);
      assert n / 255 == (n - 255) / 255 + 1 && n % 255 == (n - 255) % 255;
    }
  }

  /** From `from` on, `a` holds `part`. */
  ghost predicate Holds(a: array<Byte>, from: nat, part: seq<Byte>)
    reads a
  {
    from + |part| <= a.Length && forall i :: from <= i < from + |part| ==> a[i] == part[i - from]
  }

  lemma HoldsBoth(a: array<Byte>, from: nat, p: seq<Byte>, q: seq<Byte>)
    requires Holds(a, from, p) && Holds(a, from + |p|, q)
    ensures Holds(a, from, p + q)
  {
  }

  lemma HoldsSlice(a: array<Byte>, from: nat, part: seq<Byte>)
    requires Holds(a, from, part)
    ensures a[from..from + |part|] == part
  {
  }

  /** Extension bytes, one at a time. */
  method WriteExtBytes(dst: array<Byte>, op: nat, length: nat) returns (op': nat)
    requires op + length / 255 + 1 <= dst.Length
    modifies dst
    ensures op' == op + length / 255 + 1
    ensures KeptBelow(dst, op) && Holds(dst, op, ExtBytes(length))
  {
    ExtBytesAre(length);
    hide ExtBytes;
    var len := length;
    op' := op;
    while len >= 255
      invariant op' == op + (length - len) / 255 && (length - len) % 255 == 0 && 0 <= len <= length
      invariant KeptBelow(dst, op) && forall i :: op <= i < op' ==> dst[i] == 255
    {
      dst[op'] := 255;
      op', len := op' + 1, len - 255;
    }
    dst[op'] := len;
    op' := op' + 1;
  }

  /** A token and the extension bytes of its literal length. */
  method WriteToken(dst: array<Byte>, op: nat, litLength: nat) returns (op': nat)
    requires op + 1 + |LengthBytes(litLength)| <= dst.Length
    modifies dst
    ensures op' == op + 1 + |LengthBytes(litLength)|
    ensures KeptBelow(dst, op) && Holds(dst, op, [Nibble(litLength) * 16] + LengthBytes(litLength))
  {
    hide ExtBytes;
    op' := op + 1;
    if litLength >= RUN_MASK {
      dst[op] := RUN_MASK * 16;
      op' := WriteExtBytes(dst, op', litLength - RUN_MASK);
    } else {
      dst[op] := litLength * 16;
    }
    HoldsBoth(dst, op, [Nibble(litLength) * 16], LengthBytes(litLength));
  }

  /** A token, its extension bytes and its literals, which are copied by eight bytes at a time. */
  method EncodeLiterals(src: array<Byte>, anchor: nat, ip: nat, dst: array<Byte>, op: nat) returns (op': nat)
    requires src != dst && anchor <= ip && ip + 8 <= src.Length
    requires op + 1 + |LengthBytes(ip - anchor)| + (ip - anchor) + 7 <= dst.Length
    requires ip == anchor ==> op + 9 <= dst.Length
    modifies dst
    ensures op' == op + |LiteralsBytes(src[anchor..ip], 0)|
    ensures KeptBelow(dst, op) && Holds(dst, op, LiteralsBytes(src[anchor..ip], 0))
  {
    hide LengthBytes, Nibble;
    var litLength := ip - anchor;
    assert litLength == 0 ==> |LengthBytes(litLength)| == 0;
    op' := WriteToken(dst, op, litLength);
    WildCopy8(src, anchor, dst, op', op' + litLength);
    HoldsBoth(dst, op, [Nibble(litLength) * 16] + LengthBytes(litLength), src[anchor..ip]);
    op' := op' + litLength;
  }

  /** The extension bytes of a match length, by 4-byte stores of 255 that run ahead. */
  method WriteMatchExt(dst: array<Byte>, op: nat, length: nat) returns (op': nat)
    requires op + length / 255 + 4 <= dst.Length
    modifies dst
    ensures op' == op + length / 255 + 1
    ensures KeptBelow(dst, op) && Holds(dst, op, ExtBytes(length))
  {
    ExtBytesAre(length);
    hide ExtBytes;
    var matchCode := length;
    op' := op;
    Write32Ones(dst, op');
    while matchCode >= 4 * 255
      invariant op' == op + 4 * ((length - matchCode) / 1020) && (length - matchCode) % 1020 == 0
      invariant 0 <= matchCode <= length
      invariant KeptBelow(dst, op) && forall i :: op <= i < op' + 4 ==> dst[i] == 255
    {
      op' := op' + 4;
      Write32Ones(dst, op');
      matchCode := matchCode - 4 * 255;
    }
    op' := op' + matchCode / 255;
    dst[op'] := matchCode % 255;
    op' := op' + 1;
  }

  method Write32Ones(dst: array<Byte>, op: nat)
    requires op + 4 <= dst.Length
    modifies dst
    ensures forall i :: op <= i < op + 4 ==> dst[i] == 255
    ensures forall i :: 0 <= i < op || op + 4 <= i < dst.Length ==> dst[i] == old(dst[i])
  {
    forall i | op <= i < op + 4 {
      dst[i] := 255;
    }
  }

  // ---------------------------------------------------------------------------
  // Comparing
  // ---------------------------------------------------------------------------

  /** The runs of `n` bytes at `p` and at `q` are the same. */
  ghost predicate SameRun(s: seq<Byte>, p: nat, q: nat, n: nat) {
    p + n <= |s| && q + n <= |s| && forall i :: q <= i < q + n ==> s[i] == s[p + (i - q)]
  }

  /** How many of the eight bytes at `p` and `q` agree before the first that does not (LZ4_NbCommonBytes). */
  method CommonBytes(src: array<Byte>, p: nat, q: nat) returns (n: nat)
    requires p + 8 <= src.Length && q + 8 <= src.Length
    ensures n <= 8 && SameRun(src[..], p, q, n) && (n < 8 ==> src[p + n] != src[q + n])
  {
    n := 0;
    while n < 8 && src[p + n] == src[q + n]
      invariant n <= 8 && SameRun(src[..], p, q, n)
    {
      n := n + 1;
    }
  }

  /** The test of two words of `n` bytes. */
  predicate SameBytes(s: seq<Byte>, p: nat, q: nat, n: nat)
    requires p + n <= |s| && q + n <= |s|
  {
    s[p..p + n] == s[q..q + n]
  }

  lemma SameBytesRun(s: seq<Byte>, p: nat, q: nat, n: nat)
    requires p + n <= |s| && q + n <= |s|
    ensures SameBytes(s, p, q, n) <==> SameRun(s, p, q, n)
  {
    if SameBytes(s, p, q, n) {
      forall i | q <= i < q + n
        ensures s[i] == s[p + (i - q)]
      {
        assert s[i] == s[q..q + n][i - q] == s[p..p + n][i - q];
      }
    }
  }

  /** LZ4_count: the length of the common run at `pIn` and `pMatch` up to `limit`, eight bytes at a time and
      then four, two and one. */
  method Count(src: array<Byte>, pIn: nat, pMatch: nat, limit: nat) returns (n: nat)
    requires pMatch < pIn <= limit <= src.Length
    ensures pIn + n <= limit && SameRun(src[..], pMatch, pIn, n)
    ensures pIn + n < limit ==> src[pMatch + n] != src[pIn + n]
  {
    n := 0;
    while pIn + n + 7 < limit
      invariant pIn + n <= limit && SameRun(src[..], pMatch, pIn, n)
    {
      var c := CommonBytes(src, pMatch + n, pIn + n);
      RunsJoin(src[..], pMatch, pIn, n, c);
      n := n + c;
      if c < 8 {
        return;
      }
    }
    n := CountTail(src, pIn, pMatch, limit, n);
  }

  lemma RunsJoin(s: seq<Byte>, p: nat, q: nat, n: nat, c: nat)
    requires SameRun(s, p, q, n) && SameRun(s, p + n, q + n, c)
    ensures SameRun(s, p, q, n + c)
  {
    forall i | q <= i < q + n + c
      ensures s[i] == s[p + (i - q)]
    {
      if q + n <= i {
        assert s[i] == s[p + n + (i - (q + n))];
      }
    }
  }

  lemma RunAt(s: seq<Byte>, p: nat, q: nat, n: nat, i: nat)
    requires SameRun(s, p, q, n)
    ensures i < n ==> s[q + i] == s[p + i]
  {
    if i < n {
      assert s[q + i] == s[p + (q + i - q)];
    }
  }

  method CountTail(src: array<Byte>, pIn: nat, pMatch: nat, limit: nat, from: nat) returns (n: nat)
    requires pMatch < pIn && limit <= src.Length && pIn + from <= limit <= pIn + from + 7
    requires SameRun(src[..], pMatch, pIn, from)
    ensures pIn + n <= limit && SameRun(src[..], pMatch, pIn, n)
    ensures pIn + n < limit ==> src[pMatch + n] != src[pIn + n]
  {
    hide SameBytes;
    ghost var s := src[..];
    n := from;
    if pIn + n + 3 < limit {
      SameBytesRun(s, pMatch + n, pIn + n, 4);
      if SameBytes(src[..], pMatch + n, pIn + n, 4) {
        RunsJoin(s, pMatch, pIn, n, 4);
        n := n + 4;
      } else {
        SameFour(s, pMatch + n, pIn + n);
      }
    }
    n := CountLastThree(src, pIn, pMatch, limit, n);
  }

  lemma SameTwo(s: seq<Byte>, p: nat, q: nat)
    requires p + 2 <= |s| && q + 2 <= |s|
    ensures SameBytes(s, p, q, 2) <==> s[p] == s[q] && s[p + 1] == s[q + 1]
  {
  }

  lemma SameFour(s: seq<Byte>, p: nat, q: nat)
    requires p + 4 <= |s| && q + 4 <= |s|
    ensures SameBytes(s, p, q, 4) <==>
      s[p] == s[q] && s[p + 1] == s[q + 1] && s[p + 2] == s[q + 2] && s[p + 3] == s[q + 3]
  {
  }

  method CountLastThree(src: array<Byte>, pIn: nat, pMatch: nat, limit: nat, from: nat) returns (n: nat)
    requires pMatch < pIn && limit <= src.Length && pIn + from <= limit
    requires pIn + from + 4 <= limit ==>
      || src[pIn + from] != src[pMatch + from] || src[pIn + from + 1] != src[pMatch + from + 1]
      || src[pIn + from + 2] != src[pMatch + from + 2] || src[pIn + from + 3] != src[pMatch + from + 3]
    requires SameRun(src[..], pMatch, pIn, from)
    ensures pIn + n <= limit && SameRun(src[..], pMatch, pIn, n)
    ensures pIn + n < limit ==> src[pMatch + n] != src[pIn + n]
  {
    hide SameBytes;
    ghost var s := src[..];
    n := from;
    if pIn + n + 1 < limit {
      SameTwo(s, pMatch + n, pIn + n);
      if SameBytes(src[..], pMatch + n, pIn + n, 2) {
        n := n + 2;
      }
    }
    if pIn + n < limit && src[pMatch + n] == src[pIn + n] {
      n := n + 1;
    }
  }

  // ---------------------------------------------------------------------------
  // The bytes of one match
  // ---------------------------------------------------------------------------

  method WriteMatchLength(dst: array<Byte>, op: nat, matchCode: nat) returns (op': nat)
    requires op + |LengthBytes(matchCode)| + 3 <= dst.Length
    modifies dst
    ensures op' == op + |LengthBytes(matchCode)|
    ensures KeptBelow(dst, op) && Holds(dst, op, LengthBytes(matchCode))
  {
    hide ExtBytes;
    op' := op;
    if matchCode >= ML_MASK {
      op' := WriteMatchExt(dst, op, matchCode - ML_MASK);
    }
  }

  method WriteOffset(dst: array<Byte>, op: nat, offset: nat)
    requires offset <= LZ4_DISTANCE_MAX && op + 2 <= dst.Length
    modifies dst
    ensures KeptBelow(dst, op) && Holds(dst, op, OffsetBytes(offset))
  {
    dst[op] := offset % 256;
    dst[op + 1] := offset / 256;
  }

  /** Completes a match whose literals and offset are written: the extension bytes of its length, then the
      low half of its token. */
  method WriteMatchCode(dst: array<Byte>, token: nat, op: nat, matchCode: nat, ghost literals: seq<Byte>,
                        ghost offset: nat)
    returns (op': nat)
    requires offset <= LZ4_DISTANCE_MAX && op == token + |LiteralsBytes(literals, 0)| + 2
    requires op + |LengthBytes(matchCode)| + 3 <= dst.Length
    requires Holds(dst, token, LiteralsBytes(literals, 0)) && Holds(dst, op - 2, OffsetBytes(offset))
    modifies dst
    ensures KeptBelow(dst, token)
    ensures op' == op + |LengthBytes(matchCode)|
    ensures Holds(dst, token, LiteralsBytes(literals, Nibble(matchCode)) + MatchBytes(offset, matchCode))
  {
    hide LengthBytes, Nibble, OffsetBytes, LiteralsBytes;
    op' := WriteMatchLength(dst, op, matchCode);
    HoldsBoth(dst, op - 2, OffsetBytes(offset), LengthBytes(matchCode));
    AddToToken(dst, token, matchCode, literals);
    LiteralsBytesLength(literals, Nibble(matchCode));
    HoldsBoth(dst, token, LiteralsBytes(literals, Nibble(matchCode)), MatchBytes(offset, matchCode));
  }

  lemma LiteralsBytesLength(literals: seq<Byte>, code: nat)
    requires code <= 15
    ensures |LiteralsBytes(literals, code)| == |LiteralsBytes(literals, 0)|
      == 1 + |LengthBytes(|literals|)| + |literals|
    ensures LiteralsBytes(literals, code)[0] == LiteralsBytes(literals, 0)[0] + code
    ensures LiteralsBytes(literals, code)[1..] == LiteralsBytes(literals, 0)[1..]
    ensures LiteralsBytes(literals, 0)[0] <= 240
  {
    hide LengthBytes;
    var rest := LengthBytes(|literals|) + literals;
    var t: seq<Byte> := [Nibble(|literals|) * 16 + code];
    var u: seq<Byte> := [Nibble(|literals|) * 16];
    assert LiteralsBytes(literals, code) == t + rest;
    assert LiteralsBytes(literals, 0) == u + rest;
  }

  method AddToToken(dst: array<Byte>, token: nat, matchCode: nat, ghost literals: seq<Byte>)
    requires Holds(dst, token, LiteralsBytes(literals, 0))
    modifies dst
    ensures Holds(dst, token, LiteralsBytes(literals, Nibble(matchCode)))
    ensures forall i :: 0 <= i < dst.Length && i != token ==> dst[i] == old(dst[i])
  {
    hide LiteralsBytes;
    LiteralsBytesLength(literals, Nibble(matchCode));
    ghost var was := LiteralsBytes(literals, 0);
    ghost var now := LiteralsBytes(literals, Nibble(matchCode));
    if matchCode >= ML_MASK {
      dst[token] := dst[token] + ML_MASK;
    } else {
      dst[token] := dst[token] + matchCode;
    }
    forall i | token < i < token + |now|
      ensures dst[i] == now[i - token]
    {
      assert now[i - token] == now[1..][i - token - 1] == was[1..][i - token - 1];
    }
  }
}
