/** The LZ4 block format as the decoder of lz4.c reads it and as its compressors write it. */
module Lz4Format {
  import opened Basics
  import opened Bytes

  const MINMATCH := 4
  const LASTLITERALS := 5
  const MFLIMIT := 12
  const RUN_MASK := 15
  const ML_MASK := 15
  const LZ4_DISTANCE_MAX := 65535
  const LZ4_MAX_INPUT_SIZE := 0x7E000000
  const U32_MODULUS := 0x1_0000_0000

  /** One LZ4 sequence: a run of literals followed by a match. */
  datatype Sequence = Sequence(literals: seq<Byte>, offset: nat, matchLength: nat)

  // ---------------------------------------------------------------------------
  // Writing
  // ---------------------------------------------------------------------------

  /** The extension bytes of a length whose nibble is saturated. */
  function ExtBytes(n: nat): (r: seq<Byte>)
    ensures |r| == n / 255 + 1
  {
    if n < 255 then [n] else [255] + ExtBytes(n - 255)
  }

  function LengthBytes(n: nat): (r: seq<Byte>)
    ensures |r| == (n + 240) / 255
  {
    if n < 15 then [] else ExtBytes(n - 15)
  }

  function Nibble(n: nat): (r: Byte)
    ensures r <= 15
  {
    if n < 15 then n else 15
  }

  function LiteralsBytes(literals: seq<Byte>, code: nat): seq<Byte>
    requires code <= 15
  {
    [Nibble(|literals|) * 16 + code] + LengthBytes(|literals|) + literals
  }

  function OffsetBytes(offset: nat): (r: seq<Byte>)
    requires offset <= LZ4_DISTANCE_MAX
    ensures |r| == 2
  {
    [offset % 256, offset / 256]
  }

  function MatchBytes(offset: nat, matchCode: nat): seq<Byte>
    requires offset <= LZ4_DISTANCE_MAX
  {
    OffsetBytes(offset) + LengthBytes(matchCode)
  }

  predicate Writable(q: Sequence) {
    q.offset <= LZ4_DISTANCE_MAX && MINMATCH <= q.matchLength
  }

  function SequenceBytes(q: Sequence): seq<Byte>
    requires Writable(q)
  {
    LiteralsBytes(q.literals, Nibble(q.matchLength - MINMATCH)) + MatchBytes(q.offset, q.matchLength - MINMATCH)
  }

  // ---------------------------------------------------------------------------
  // Meaning: bytes are produced one at a time
  // ---------------------------------------------------------------------------

  /** Copies `len` bytes from `offset` bytes back, one by one, so that a match may overlap itself.
      An offset of 0 yields zeros: the decoder clears the destination before reading it back. */
  function CopyMatch(out: seq<Byte>, offset: nat, len: nat): (r: seq<Byte>)
    requires offset <= |out|
    ensures |r| == |out| + len
    decreases len
  {
    if len == 0 then out
    else CopyMatch(out + [if offset == 0 then 0 else out[|out| - offset]], offset, len - 1)
  }

  /** The bytes of `r` from `from` on repeat what stands `offset` bytes before them. */
  ghost predicate Periodic(r: seq<Byte>, from: nat, to: nat, offset: nat)
    requires offset <= from <= to <= |r|
  {
    forall i :: from <= i < to ==> r[i] == if offset == 0 then 0 else r[i - offset]
  }

  lemma {:induction false} CopyMatchIsPeriodic(out: seq<Byte>, offset: nat, len: nat)
    requires offset <= |out|
    ensures out <= CopyMatch(out, offset, len)
    ensures Periodic(CopyMatch(out, offset, len), |out|, |out| + len, offset)
    decreases len
  {
    if len != 0 {
      var out' := out + [if offset == 0 then 0 else out[|out| - offset]];
      CopyMatchIsPeriodic(out', offset, len - 1);
      var r := CopyMatch(out', offset, len - 1);
      assert r[..|out|] == r[..|out'|][..|out|] == out;
      assert r[|out|] == out'[|out|];
    }
  }

  /** Any sequence that extends `out` periodically is the bytewise copy. */
  lemma {:induction false} PeriodicIsCopyMatch(out: seq<Byte>, offset: nat, len: nat, r: seq<Byte>)
    requires offset <= |out| && |r| == |out| + len && out <= r
    requires Periodic(r, |out|, |r|, offset)
    ensures r == CopyMatch(out, offset, len)
    decreases len
  {
    if len != 0 {
      var out' := out + [if offset == 0 then 0 else out[|out| - offset]];
      assert r[|out|] == out'[|out|];
      assert out' <= r;
      PeriodicIsCopyMatch(out', offset, len - 1, r);
    }
  }

  /** Every sequence can be written and its offset points inside what precedes its match. */
  predicate Valid(qs: seq<Sequence>)
    decreases |qs|, 0
  {
    qs == [] ||
    var m := |qs| - 1;
    Valid(qs[..m]) && Writable(qs[m]) && 1 <= qs[m].offset <= |Replay(qs[..m])| + |qs[m].literals|
  }

  /** The bytes a list of sequences stands for. */
  function Replay(qs: seq<Sequence>): seq<Byte>
    requires Valid(qs)
    decreases |qs|, 1
  {
    if qs == [] then []
    else
      var q := qs[|qs| - 1];
      CopyMatch(Replay(qs[..|qs| - 1]) + q.literals, q.offset, q.matchLength)
  }

  function Max(a: nat, b: nat): nat { if a < b then b else a }

  /** The least size of a block that may hold these sequences: the last match starts 12 bytes and ends
      5 bytes before the end. */
  function MinTotal(qs: seq<Sequence>): nat
    requires Valid(qs)
  {
    if qs == [] then 0
    else
      var m := |qs| - 1;
      var start := |Replay(qs[..m])| + |qs[m].literals|;
      Max(MinTotal(qs[..m]), Max(start + MFLIMIT, start + qs[m].matchLength + LASTLITERALS))
  }

  function SequencesBytes(qs: seq<Sequence>): seq<Byte>
    requires Valid(qs)
  {
    if qs == [] then [] else SequencesBytes(qs[..|qs| - 1]) + SequenceBytes(qs[|qs| - 1])
  }

  /** A whole block: its sequences, then a last run of literals without a match. */
  function BlockBytes(qs: seq<Sequence>, last: seq<Byte>): seq<Byte>
    requires Valid(qs)
  {
    SequencesBytes(qs) + LiteralsBytes(last, 0)
  }

  /** What one more sequence adds to the bytes, to the content and to the least size. */
  lemma Snoc(qs: seq<Sequence>, q: Sequence)
    requires Valid(qs) && Writable(q) && 1 <= q.offset <= |Replay(qs)| + |q.literals|
    ensures Valid(qs + [q])
    ensures SequencesBytes(qs + [q]) == SequencesBytes(qs) + SequenceBytes(q)
    ensures Replay(qs + [q]) == CopyMatch(Replay(qs) + q.literals, q.offset, q.matchLength)
    ensures var start := |Replay(qs)| + |q.literals|;
            MinTotal(qs + [q]) == Max(MinTotal(qs), Max(start + MFLIMIT, start + q.matchLength + LASTLITERALS))
  {
    hide CopyMatch, SequenceBytes;
    assert (qs + [q])[..|qs|] == qs;
  }

  // ---------------------------------------------------------------------------
  // Reading: a bytewise decoder without any end-of-block restriction
  // ---------------------------------------------------------------------------

  /** Sums extension bytes up to the first that is not 255; gives the sum and the next index. */
  function VarLen(s: seq<Byte>, i: nat): (r: Option<(nat, nat)>)
    ensures r.Some? ==> i < r.value.1 <= |s|
    decreases |s| - i
  {
    if i >= |s| then None
    else if s[i] < 255 then Some((s[i], i + 1))
    else
      match VarLen(s, i + 1)
      case None => None
      case Some((n, j)) => Some((n + 255, j))
  }

  /** A length as the decoder computes it: the extension bytes are summed in 32 bits. */
  function ReadLength(s: seq<Byte>, i: nat, nibble: nat): (r: Option<(nat, nat)>)
    ensures r.Some? ==> i <= r.value.1 && (i <= |s| ==> r.value.1 <= |s|)
  {
    if nibble != 15 then Some((nibble, i))
    else
      match VarLen(s, i)
      case None => None
      case Some((n, j)) => Some((15 + n % U32_MODULUS, j))
  }

  function LE16(s: seq<Byte>, i: nat): nat
    requires i + 2 <= |s|
  {
    s[i] as nat + 256 * s[i + 1] as nat
  }

  /** What one token and what follows it say: `start` is where the literals stand. */
  datatype Parsed =
    | Bad
    | Last(start: nat, code: nat)
    | Step(start: nat, ll: nat, offset: nat, len: nat, next: nat)

  function ParseOffset(s: seq<Byte>, start: nat, ll: nat, code: nat): (p: Parsed)
    requires start + ll <= |s|
    ensures p.Bad? || (p.Step? && p.start == start && p.ll == ll && start + ll < p.next <= |s|)
  {
    if start + ll + 2 > |s| then Bad
    else
      match ReadLength(s, start + ll + 2, code)
      case None => Bad
      case Some((ml, next)) => Step(start, ll, LE16(s, start + ll), ml + MINMATCH, next)
  }

  function ParseLiterals(s: seq<Byte>, start: nat, ll: nat, code: nat): (p: Parsed)
    requires start <= |s|
    ensures p.Last? ==> start == p.start <= |s|
    ensures p.Step? ==> p.start + p.ll < p.next <= |s| && start <= p.start
  {
    if start + ll > |s| then Bad
    else if start + ll == |s| then Last(start, code)
    else ParseOffset(s, start, ll, code)
  }

  function Parse(s: seq<Byte>, ip: nat): (p: Parsed)
    requires ip <= |s|
    ensures p.Last? ==> ip < p.start <= |s|
    ensures p.Step? ==> ip < p.start && p.start + p.ll < p.next <= |s|
  {
    if ip == |s| then Bad
    else
      match ReadLength(s, ip + 1, s[ip] / 16)
      case None => Bad
      case Some((ll, start)) => ParseLiterals(s, start, ll, s[ip] % 16)
  }

  /** A token whose halves are both below 15: its literals, the offset behind them, and a length that is at least 4. */
  lemma ShortStepIs(s: seq<Byte>, ip: nat)
    requires ip < |s| && s[ip] / 16 < 15 && s[ip] % 16 < 15
    ensures var ll := s[ip] as nat / 16; var at := ip + 1 + ll;
      Parse(s, ip) == if at > |s| then Bad else if at == |s| then Last(ip + 1, s[ip] % 16)
        else if at + 2 > |s| then Bad
        else Step(ip + 1, ll, s[at] as nat + 256 * s[at + 1] as nat, s[ip] as nat % 16 + 4, at + 2)
  {
  }

  ghost predicate WellFormed(s: seq<Byte>, p: Parsed) {
    (p.Last? ==> p.start <= |s|) && (p.Step? ==> p.start + p.ll < p.next <= |s|)
  }

  function Decode(s: seq<Byte>, ip: nat, out: seq<Byte>): Option<seq<Byte>>
    requires ip <= |s|
    decreases |s| - ip
  {
    match Parse(s, ip)
    case Bad => None
    case Last(start, _) => Some(out + s[start..])
    case Step(start, ll, offset, len, next) =>
      var out' := out + s[start..start + ll];
      if offset > |out'| then None else Decode(s, next, CopyMatch(out', offset, len))
  }

  /** The decoder's result once a token has been read as `p`. */
  function Resume(s: seq<Byte>, p: Parsed, out: seq<Byte>): Option<seq<Byte>>
    requires WellFormed(s, p)
  {
    match p
    case Bad => None
    case Last(start, _) => Some(out + s[start..])
    case Step(start, ll, offset, len, next) => ResumeMatch(s, next, offset, len, out + s[start..start + ll])
  }

  function ResumeMatch(s: seq<Byte>, ip: nat, offset: nat, len: nat, out: seq<Byte>): Option<seq<Byte>>
    requires ip <= |s|
  {
    if offset > |out| then None else Decode(s, ip, CopyMatch(out, offset, len))
  }

  // ---------------------------------------------------------------------------
  // The end-of-block conditions, for a block that stands for `total` bytes
  // ---------------------------------------------------------------------------

  /** From `ip` on, with `n` bytes produced: offsets point inside the output, each match starts at least
      12 bytes and ends at least 5 bytes before the end, and the last token announces no match. */
  predicate Strict(s: seq<Byte>, ip: nat, n: nat, total: nat)
    requires ip <= |s|
    decreases |s| - ip
  {
    match Parse(s, ip)
    case Bad => false
    case Last(start, code) => n + |s| - start == total && code == 0
    case Step(start, ll, offset, len, next) =>
      && 1 <= offset <= n + ll
      && n + ll + MFLIMIT <= total
      && n + ll + len + LASTLITERALS <= total
      && Strict(s, next, n + ll + len, total)
  }

  predicate StrictResume(s: seq<Byte>, p: Parsed, n: nat, total: nat)
    requires WellFormed(s, p)
  {
    match p
    case Bad => false
    case Last(start, code) => n + |s| - start == total && code == 0
    case Step(start, ll, offset, len, next) => StrictMatch(s, next, offset, len, n + ll, total)
  }

  predicate StrictMatch(s: seq<Byte>, ip: nat, offset: nat, len: nat, n: nat, total: nat)
    requires ip <= |s|
  {
    && 1 <= offset <= n
    && n + MFLIMIT <= total
    && n + len + LASTLITERALS <= total
    && Strict(s, ip, n + len, total)
  }

  /** The conditions in numbers. */
  lemma StrictMatchIs(s: seq<Byte>, ip: nat, offset: nat, len: nat, n: nat, total: nat)
    requires ip <= |s|
    ensures StrictMatch(s, ip, offset, len, n, total)
      <==> 1 <= offset <= n && n + 12 <= total && n + len + 5 <= total && Strict(s, ip, n + len, total)
  {
  }

  /** When at least five bytes are still to come, a token and five more bytes are left to read. */
  lemma {:induction false} StrictLeavesInput(s: seq<Byte>, ip: nat, n: nat, total: nat)
    requires ip <= |s| && Strict(s, ip, n, total) && n + LASTLITERALS <= total
    ensures ip + 1 + LASTLITERALS <= |s|
    decreases |s| - ip
  {
    hide Parse;
    var p := Parse(s, ip);
    if p.Step? {
      StrictLeavesInput(s, p.next, n + p.ll + p.len, total);
    }
  }

  /** A strict block decodes, and to exactly `total` bytes. */
  lemma {:induction false} StrictDecodes(s: seq<Byte>, ip: nat, out: seq<Byte>, total: nat)
    requires ip <= |s| && Strict(s, ip, |out|, total)
    ensures Decode(s, ip, out).Some? && |Decode(s, ip, out).value| == total
    decreases |s| - ip
  {
    hide Parse, CopyMatch;
    var p := Parse(s, ip);
    if p.Step? {
      var out' := out + s[p.start..p.start + p.ll];
      StrictDecodes(s, p.next, CopyMatch(out', p.offset, p.len), total);
    }
  }

  // ---------------------------------------------------------------------------
  // Reading back what was written
  // ---------------------------------------------------------------------------

  lemma {:induction false} VarLenReadsExtBytes(s: seq<Byte>, i: nat, n: nat)
    requires At(s, i, ExtBytes(n))
    ensures VarLen(s, i) == Some((n, i + |ExtBytes(n)|))
    decreases n
  {
    if n < 255 {
      assert s[i] == s[i..i + 1][0];
    } else {
      AtAppend(s, i, [255], ExtBytes(n - 255));
      assert s[i] == s[i..i + 1][0];
      VarLenReadsExtBytes(s, i + 1, n - 255);
    }
  }

  lemma ReadLengthReadsLengthBytes(s: seq<Byte>, i: nat, n: nat)
    requires n < U32_MODULUS && At(s, i, LengthBytes(n))
    ensures ReadLength(s, i, Nibble(n)) == Some((n, i + |LengthBytes(n)|))
  {
    if 15 <= n {
      VarLenReadsExtBytes(s, i, n - 15);
    }
  }

  /** Where the literals of a token that stands at `ip` are found. */
  lemma TokenReadsBack(s: seq<Byte>, ip: nat, literals: seq<Byte>, code: nat)
    requires code <= 15 && |literals| < U32_MODULUS && At(s, ip, LiteralsBytes(literals, code))
    ensures ip < |s| && s[ip] % 16 == code
    ensures var start := ip + 1 + |LengthBytes(|literals|)|;
            && ReadLength(s, ip + 1, s[ip] / 16) == Some((|literals|, start))
            && start + |literals| == ip + |LiteralsBytes(literals, code)|
            && At(s, start, literals)
  {
    hide LengthBytes, ReadLength;
    var t: seq<Byte> := [Nibble(|literals|) * 16 + code];
    AtAppend(s, ip, t + LengthBytes(|literals|), literals);
    AtAppend(s, ip, t, LengthBytes(|literals|));
    assert s[ip] == s[ip..ip + 1][0];
    ReadLengthReadsLengthBytes(s, ip + 1, |literals|);
  }

  lemma MatchReadsBack(s: seq<Byte>, ip: nat, offset: nat, matchCode: nat)
    requires offset <= LZ4_DISTANCE_MAX && matchCode < U32_MODULUS && At(s, ip, MatchBytes(offset, matchCode))
    ensures ip + 2 <= |s| && LE16(s, ip) == offset
    ensures ReadLength(s, ip + 2, Nibble(matchCode)) == Some((matchCode, ip + |MatchBytes(offset, matchCode)|))
  {
    AtAppend(s, ip, OffsetBytes(offset), LengthBytes(matchCode));
    assert s[ip] == s[ip..ip + 2][0] && s[ip + 1] == s[ip..ip + 2][1];
    ReadLengthReadsLengthBytes(s, ip + 2, matchCode);
  }

  /** A literal run followed by a match is one step of the parser. */
  lemma StepReadsBack(s: seq<Byte>, ip: nat, literals: seq<Byte>, offset: nat, matchCode: nat)
    requires |literals| < U32_MODULUS && matchCode < U32_MODULUS && offset <= LZ4_DISTANCE_MAX
    requires At(s, ip, LiteralsBytes(literals, Nibble(matchCode)))
    requires At(s, ip + |LiteralsBytes(literals, Nibble(matchCode))|, MatchBytes(offset, matchCode))
    ensures var p := Parse(s, ip);
            && p.Step? && p.ll == |literals| && s[p.start..p.start + p.ll] == literals
            && p.offset == offset && p.len == matchCode + MINMATCH
            && p.next == ip + |LiteralsBytes(literals, Nibble(matchCode))| + |MatchBytes(offset, matchCode)|
  {
    hide LiteralsBytes, MatchBytes, ReadLength, Nibble, LengthBytes, LE16;
    TokenReadsBack(s, ip, literals, Nibble(matchCode));
    MatchReadsBack(s, ip + |LiteralsBytes(literals, Nibble(matchCode))|, offset, matchCode);
  }

  lemma SequenceReadsBack(s: seq<Byte>, ip: nat, q: Sequence)
    requires Writable(q) && At(s, ip, SequenceBytes(q))
    requires |q.literals| < U32_MODULUS && q.matchLength < U32_MODULUS
    ensures var p := Parse(s, ip);
            && p.Step? && p.ll == |q.literals| && s[p.start..p.start + p.ll] == q.literals
            && p.offset == q.offset && p.len == q.matchLength && p.next == ip + |SequenceBytes(q)|
  {
    var code := q.matchLength - MINMATCH;
    AtAppend(s, ip, LiteralsBytes(q.literals, Nibble(code)), MatchBytes(q.offset, code));
    StepReadsBack(s, ip, q.literals, q.offset, code);
  }

  lemma DecodeStep(s: seq<Byte>, ip: nat, p: Parsed, literals: seq<Byte>, out: seq<Byte>, total: nat)
    requires ip <= |s| && p == Parse(s, ip) && p.Step? && s[p.start..p.start + p.ll] == literals
    requires p.offset <= |out| + |literals|
    ensures Decode(s, ip, out) == Decode(s, p.next, CopyMatch(out + literals, p.offset, p.len))
    ensures Strict(s, ip, |out|, total) <==> StrictMatch(s, p.next, p.offset, p.len, |out| + |literals|, total)
  {
    hide Parse, ParseLiterals, ParseOffset, ReadLength, VarLen, CopyMatch, LE16;
  }

  /** One written sequence is one step of the decoder. */
  lemma DecodeOneSequence(s: seq<Byte>, ip: nat, q: Sequence, out: seq<Byte>, total: nat)
    requires Writable(q) && At(s, ip, SequenceBytes(q)) && q.offset <= |out| + |q.literals|
    requires |q.literals| < U32_MODULUS && q.matchLength < U32_MODULUS
    ensures var next := ip + |SequenceBytes(q)|;
            var out' := CopyMatch(out + q.literals, q.offset, q.matchLength);
            && Decode(s, ip, out) == Decode(s, next, out')
            && (Strict(s, ip, |out|, total) <==>
                StrictMatch(s, next, q.offset, q.matchLength, |out| + |q.literals|, total))
  {
    hide *;
    SequenceReadsBack(s, ip, q);
    DecodeStep(s, ip, Parse(s, ip), q.literals, out, total);
  }

  /** Written sequences are consumed one by one, and keep the block strict if its end is. */
  lemma {:induction false} SequencesReadBack(qs: seq<Sequence>, rest: seq<Byte>, s: seq<Byte>, total: nat)
    requires Valid(qs) && MinTotal(qs) <= total < U32_MODULUS && s == SequencesBytes(qs) + rest
    ensures Decode(s, 0, []) == Decode(s, |SequencesBytes(qs)|, Replay(qs))
    ensures Strict(s, |SequencesBytes(qs)|, |Replay(qs)|, total) ==> Strict(s, 0, 0, total)
    decreases |qs|, 0
  {
    hide Parse, CopyMatch, SequenceBytes;
    if qs != [] {
      var init, q := qs[..|qs| - 1], qs[|qs| - 1];
      Snoc(init, q);
      assert init + [q] == qs;
      SequencesReadBackOne(init, q, rest, s, total);
    }
  }

  lemma {:induction false} SequencesReadBackOne(init: seq<Sequence>, q: Sequence, rest: seq<Byte>, s: seq<Byte>,
      total: nat)
    requires Valid(init) && Writable(q) && 1 <= q.offset <= |Replay(init)| + |q.literals|
    requires MinTotal(init) <= total < U32_MODULUS && s == SequencesBytes(init) + SequenceBytes(q) + rest
    requires |Replay(init)| + |q.literals| + MFLIMIT <= total
    requires |Replay(init)| + |q.literals| + q.matchLength + LASTLITERALS <= total
    ensures var ip := |SequencesBytes(init)| + |SequenceBytes(q)|;
            var out := CopyMatch(Replay(init) + q.literals, q.offset, q.matchLength);
            Decode(s, 0, []) == Decode(s, ip, out) && (Strict(s, ip, |out|, total) ==> Strict(s, 0, 0, total))
    decreases |init|, 1
  {
    hide Parse, Decode, SequenceBytes, SequencesBytes, Valid, Replay, MinTotal, CopyMatch;
    var front := SequencesBytes(init);
    assert s == front + (SequenceBytes(q) + rest);
    SequencesReadBack(init, SequenceBytes(q) + rest, s, total);
    assert s[|front|..|front| + |SequenceBytes(q)|] == SequenceBytes(q);
    DecodeOneSequence(s, |front|, q, Replay(init), total);
  }

  /** A last run of literals ends the block. */
  lemma LastReadsBack(s: seq<Byte>, ip: nat, last: seq<Byte>, out: seq<Byte>)
    requires At(s, ip, LiteralsBytes(last, 0)) && ip + |LiteralsBytes(last, 0)| == |s| && |last| < U32_MODULUS
    ensures Decode(s, ip, out) == Some(out + last)
    ensures Strict(s, ip, |out|, |out| + |last|)
  {
    hide LiteralsBytes, ReadLength, ParseOffset;
    TokenReadsBack(s, ip, last, 0);
    var p := Parse(s, ip);
    assert p.Last? && p.code == 0 && s[p.start..] == last;
  }

  /** Round trip of the format: the bytes of a block decode to what its sequences and last literals stand
      for, and meet the end-of-block conditions. */
  lemma BlockRoundTrip(qs: seq<Sequence>, last: seq<Byte>)
    requires Valid(qs) && MinTotal(qs) <= |Replay(qs)| + |last| < U32_MODULUS
    ensures Decode(BlockBytes(qs, last), 0, []) == Some(Replay(qs) + last)
    ensures Strict(BlockBytes(qs, last), 0, 0, |Replay(qs)| + |last|)
  {
    hide SequencesBytes, LiteralsBytes, Valid, Replay, MinTotal, Decode, Strict, Parse;
    SequencesReadBack(qs, LiteralsBytes(last, 0), BlockBytes(qs, last), |Replay(qs)| + |last|);
    LastReadsBack(BlockBytes(qs, last), |SequencesBytes(qs)|, last, Replay(qs));
  }
}
