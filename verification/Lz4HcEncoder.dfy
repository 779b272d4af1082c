/** LZ4HC_encodeSequence of lz4hc.c, and the end of a high-compression block. */
module Lz4HcEncoder {
  import opened Basics
  import opened Lz4Format
  import opened Lz4Copy
  import opened Lz4Emit
  import opened Lz4Greedy
  import opened Lz4Encoder

  /** The extension bytes of a match length, two at a time. */
  method WriteExtPairs(dst: array<Byte>, op: nat, length: nat) returns (op': nat)
    requires op + length / 255 + 1 <= dst.Length
    modifies dst
    ensures op' == op + length / 255 + 1
    ensures KeptBelow(dst, op) && Holds(dst, op, ExtBytes(length))
  {
    ExtBytesAre(length);
    hide ExtBytes;
    var len := length;
    op' := op;
    while len >= 510
      invariant op' == op + (length - len) / 255 && (length - len) % 510 == 0 && 0 <= len <= length
      invariant KeptBelow(dst, op) && forall i :: op <= i < op' ==> dst[i] == 255
    {
      dst[op'] := 255;
      dst[op' + 1] := 255;
      op', len := op' + 2, len - 510;
    }
    if len >= 255 {
      dst[op'] := 255;
      op', len := op' + 1, len - 255;
    }
    dst[op'] := len;
    op' := op' + 1;
  }

  method WriteLengthPairs(dst: array<Byte>, op: nat, matchCode: nat) returns (op': nat)
    requires op + |LengthBytes(matchCode)| <= dst.Length
    modifies dst
    ensures op' == op + |LengthBytes(matchCode)|
    ensures KeptBelow(dst, op) && Holds(dst, op, LengthBytes(matchCode))
  {
    hide ExtBytes;
    op' := op;
    if matchCode >= ML_MASK {
      op' := WriteExtPairs(dst, op, matchCode - ML_MASK);
    }
  }

  /** Room for a sequence whose size nobody checks. */
  predicate Unchecked(d: OutputDirective, limit: nat, op: nat, litLength: nat, matchCode: nat) {
    var end := op + 1 + |LengthBytes(litLength)| + litLength;
    && end + 7 <= limit && (litLength == 0 ==> op + 9 <= limit)
    && end + 2 + |LengthBytes(matchCode)| <= limit && MatchRoom(d, limit, end + 2 + |LengthBytes(matchCode)|, matchCode)
  }

  /** A match at `ip` that may be the next sequence after `anchor`. */
  ghost predicate CanFollow(s: seq<Byte>, anchor: nat, ip: nat, m: nat, ml: nat) {
    && anchor <= ip && MINMATCH <= ml && ip + MFLIMIT <= |s| && ip + ml + LASTLITERALS <= |s| && IsMatch(s, m, ip, ml)
  }

  function Oend(d: OutputDirective, limit: nat): int {
    if d.FillOutput? then limit - LASTLITERALS else limit
  }

  lemma CheckedRoom(d: OutputDirective, s: seq<Byte>, dst: array<Byte>, op: nat, anchor: nat, ip: nat,
      qs: seq<Sequence>)
    requires Progress(d, s, dst, op, anchor, qs) && anchor <= ip && ip + MFLIMIT <= |s|
    requires !d.NotLimited? ==>
      op + 1 + (ip - anchor) / 255 + (ip - anchor) + 2 + 1 + LASTLITERALS <= Oend(d, dst.Length)
    ensures op + 1 + |LengthBytes(ip - anchor)| + (ip - anchor) + 7 <= dst.Length
      && (ip == anchor ==> op + 9 <= dst.Length)
  {
    hide Progress, ExtBytes;
    var litLength := ip - anchor;
    assert (litLength + 240) / 255 <= litLength / 255 + 1;
    if d.NotLimited? {
      assert LiteralsFit(d, dst.Length, op, litLength);
      LiteralsRoom(d, s, dst, op, anchor, ip, qs);
    }
  }

  lemma CheckedMatch(d: OutputDirective, s: seq<Byte>, dst: array<Byte>, op: nat, anchor: nat, ip: nat, matchCode: nat,
      qs: seq<Sequence>)
    requires Progress(d, s, dst, op, anchor, qs) && anchor <= ip && ip + matchCode + MINMATCH + LASTLITERALS <= |s|
    requires var end := op + 1 + |LengthBytes(ip - anchor)| + (ip - anchor) + 2;
             !d.NotLimited? ==> end + matchCode / 255 + 1 + LASTLITERALS <= Oend(d, dst.Length)
    ensures var end := op + 1 + |LengthBytes(ip - anchor)| + (ip - anchor) + 2 + |LengthBytes(matchCode)|;
            end <= dst.Length && MatchRoom(d, dst.Length, end, matchCode)
  {
    hide Valid, Replay, SequencesBytes, MinTotal, ExtBytes, Holds;
    assert (matchCode + 240) / 255 <= matchCode / 255 + 1;
  }

  /** A check that fails says that the sequence and the least end of a block are too much. */
  lemma CheckFails(d: OutputDirective, limit: nat, op: nat, q: Sequence)
    requires MINMATCH <= q.matchLength
    ensures var n, code := |q.literals|, q.matchLength - MINMATCH;
      && op + SequenceSize(q) == op + 1 + |LengthBytes(n)| + n + 2 + |LengthBytes(code)|
      && (op + 1 + n / 255 + n + (2 + 1 + LASTLITERALS) > Oend(d, limit) ==> op + SequenceSize(q) + 6 > Oend(d, limit))
      && (op + 1 + |LengthBytes(n)| + n + 2 + code / 255 + (1 + LASTLITERALS) > Oend(d, limit) ==>
            op + SequenceSize(q) + 6 > Oend(d, limit))
  {
    hide ExtBytes;
    var n, code := |q.literals|, q.matchLength - MINMATCH;
    assert n / 255 <= (n + 240) / 255 && code / 255 <= (code + 240) / 255;
  }

  /** LZ4HC_encodeSequence: false when a check finds too little room; what was written before stays. */
  method EncodeSequence(src: array<Byte>, dst: array<Byte>, d: OutputDirective, checked: bool, op: nat, anchor: nat,
      ip: nat, m: nat,
                        ml: nat, ghost qs: seq<Sequence>)
    returns (ok: bool, op': nat, ghost qs': seq<Sequence>)
    requires src != dst && Progress(d, src[..], dst, op, anchor, qs) && CanFollow(src[..], anchor, ip, m, ml)
    requires checked || d.NotLimited? || Unchecked(d, dst.Length, op, ip - anchor, ml - MINMATCH)
    modifies dst
    ensures ok ==> Progress(d, src[..], dst, op', ip + ml, qs')
    ensures !ok ==> checked && !d.NotLimited? && qs' == qs && Progress(d, src[..], dst, op, anchor, qs)
    ensures var q := Sequence(src[anchor..ip], ip - m, ml);
      if ok then qs' == qs + [q] && op' == op + SequenceSize(q) else op + SequenceSize(q) + 6 > Oend(d, dst.Length)
  {
    hide Valid, Replay, SequencesBytes, MinTotal, Room, WorstCase, LengthBytes, Nibble, OffsetBytes, MatchBytes,
      LiteralsBytes, MatchRoom, SameRun, SequenceSize;
    ghost var s := src[..];
    CheckFails(d, dst.Length, op, Sequence(s[anchor..ip], ip - m, ml));
    var length := ip - anchor;
    qs' := qs;
    if checked && !d.NotLimited? && op + 1 + length / 255 + length + (2 + 1 + LASTLITERALS) > Oend(d, dst.Length) {
      return false, op, qs;
    }
    if checked || d.NotLimited? {
      CheckedRoom(d, s, dst, op, anchor, ip, qs);
    }
    ghost var literals := s[anchor..ip];
    assert src[anchor..ip] == literals;
    LiteralsBytesLength(literals, 0);
    op' := EncodeLiterals(src, anchor, ip, dst, op);
    WriteOffset(dst, op', ip - m);
    op' := op' + 2;
    length := ml - MINMATCH;
    if checked && !d.NotLimited? && op' + length / 255 + (1 + LASTLITERALS) > Oend(d, dst.Length) {
      return false, op, qs;
    }
    if checked || d.NotLimited? {
      CheckedMatch(d, s, dst, op, anchor, ip, length, qs);
    }
    op' := WriteMatchCodePairs(dst, op, op', length, literals, ip - m);
    ProgressAfter(d, s, dst, op, anchor, qs, ip, m, length, op');
    qs' := qs + [NewSequence(s, anchor, ip, m, length)];
    ok := true;
  }

  /** Completes a match: its extension bytes, and the low half of its token. */
  method WriteMatchCodePairs(dst: array<Byte>, token: nat, op: nat, matchCode: nat, ghost literals: seq<Byte>,
      ghost offset: nat)
    returns (op': nat)
    requires offset <= LZ4_DISTANCE_MAX && op == token + |LiteralsBytes(literals, 0)| + 2
    requires op + |LengthBytes(matchCode)| <= dst.Length
    requires Holds(dst, token, LiteralsBytes(literals, 0)) && Holds(dst, op - 2, OffsetBytes(offset))
    modifies dst
    ensures KeptBelow(dst, token) && op' == op + |LengthBytes(matchCode)|
    ensures Holds(dst, token, LiteralsBytes(literals, Nibble(matchCode)) + MatchBytes(offset, matchCode))
  {
    hide LengthBytes, Nibble, OffsetBytes, LiteralsBytes;
    op' := WriteLengthPairs(dst, op, matchCode);
    HoldsBoth(dst, op - 2, OffsetBytes(offset), LengthBytes(matchCode));
    AddToToken(dst, token, matchCode, literals);
    LiteralsBytesLength(literals, Nibble(matchCode));
    HoldsBoth(dst, token, LiteralsBytes(literals, Nibble(matchCode)), MatchBytes(offset, matchCode));
  }
}
