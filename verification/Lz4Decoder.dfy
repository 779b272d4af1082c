/** LZ4_decompress_generic of lz4.c for LZ4_decompress_safe: whole blocks, end on input size, no
    dictionary. Its gotos become labels; the fast loop, the 18-byte shortcut and the careful loop are kept. */
module Lz4Decoder {
  import opened Basics
  import opened Lz4Format
  import opened Lz4Copy

  const FASTLOOP_SAFE_DISTANCE := 64
  const MATCH_SAFEGUARD_DISTANCE := 2 * WILDCOPYLENGTH - MINMATCH

  /** Where the decoder stands, with the local variables that are live there. */
  datatype Label =
    | Token
    | SafeLiteralCopy(length: nat, code: nat)
    | ReadMatchLength(offset: nat, code: nat)
    | SafeMatchCopy(offset: nat, length: nat)
    | Done
    | OutputError

  /** What the bytewise decoder says of the whole block, and whether the block is strict and fits. */
  datatype Goal = Goal(s: seq<Byte>, result: Option<seq<Byte>>, strict: bool, total: nat)

  ghost function ResumeLength(s: seq<Byte>, ip: nat, offset: nat, code: nat, out: seq<Byte>): Option<seq<Byte>>
    requires ip <= |s|
  {
    match ReadLength(s, ip, code)
    case None => None
    case Some((ml, next)) => ResumeMatch(s, next, offset, ml + MINMATCH, out)
  }

  ghost predicate StrictLength(s: seq<Byte>, ip: nat, offset: nat, code: nat, n: nat, total: nat)
    requires ip <= |s|
  {
    match ReadLength(s, ip, code)
    case None => false
    case Some((ml, next)) => StrictMatch(s, next, offset, ml + MINMATCH, n, total)
  }

  /** The decoder, at a label with `out` produced, is still on the way to what the bytewise decoder gives;
      it only fails on a block that is not strict or does not fit. */
  ghost predicate OnTrack(g: Goal, at: Label, ip: nat, out: seq<Byte>, oend: nat)
  {
    && ip <= |g.s| && |out| <= oend && (g.strict ==> g.total <= oend)
    && match at
       case Token =>
         && ip < |g.s| && g.result == Decode(g.s, ip, out)
         && (g.strict ==> Strict(g.s, ip, |out|, g.total))
       case SafeLiteralCopy(length, code) =>
         && code < 16
         && g.result == Resume(g.s, ParseLiterals(g.s, ip, length, code), out)
         && (g.strict ==> StrictResume(g.s, ParseLiterals(g.s, ip, length, code), |out|, g.total))
       case ReadMatchLength(offset, code) =>
         && code < 16 && ip < |g.s| && |out| + MFLIMIT <= oend
         && g.result == ResumeLength(g.s, ip, offset, code, out)
         && (g.strict ==> StrictLength(g.s, ip, offset, code, |out|, g.total))
       case SafeMatchCopy(offset, length) =>
         && ip < |g.s| && |out| + MFLIMIT <= oend && MINMATCH <= length
         && g.result == ResumeMatch(g.s, ip, offset, length, out)
         && (g.strict ==> StrictMatch(g.s, ip, offset, length, |out|, g.total))
       case Done => g.result == Some(out)
       case OutputError => !g.strict
  }

  datatype VariableLengthError = NoError | InitialError | LoopError

  // ---------------------------------------------------------------------------
  // Variable lengths
  // ---------------------------------------------------------------------------

  lemma {:induction false} VarLenSkips(s: seq<Byte>, i: nat, j: nat)
    requires i <= j <= |s| && forall k :: i <= k < j ==> s[k] == 255
    ensures VarLen(s, i) == match VarLen(s, j) { case None => None case Some((n, e)) => Some((n + 255 * (j - i), e)) }
    decreases j - i
  {
    if i < j {
      VarLenSkips(s, i + 1, j);
    }
  }

  /** A run of 255 bytes before `j` and what the byte at `j` makes of it. */
  lemma VarLenAtByte(s: seq<Byte>, i: nat, j: nat)
    requires i <= j < |s| && forall k :: i <= k < j ==> s[k] == 255
    ensures s[j] != 255 ==> VarLen(s, i) == Some((s[j] + 255 * (j - i), j + 1))
    ensures s[j] == 255 && VarLen(s, i).Some? ==> j + 1 < VarLen(s, i).value.1
  {
    VarLenSkips(s, i, j);
  }

  lemma WrappedSum(a: nat, s: nat)
    ensures (a % U32_MODULUS + s) % U32_MODULUS == (a + s) % U32_MODULUS
  {
  }

  /** Sums extension bytes in 32 bits and stops at `lencheck`, in the middle of a length if need be. */
  method ReadVariableLength(src: array<Byte>, ip: nat, lencheck: int, initialCheck: bool)
    returns (length: nat, next: nat, error: VariableLengthError)
    requires lencheck <= src.Length && (ip < src.Length || (initialCheck && lencheck <= ip))
    ensures ip <= next && (error != InitialError ==> ip < next <= src.Length)
    ensures error == InitialError <==> initialCheck && lencheck <= ip
    ensures error == NoError ==> next < lencheck
    ensures error == LoopError ==> lencheck <= next
    ensures error != InitialError ==>
      || (src[next - 1] != 255 && VarLen(src[..], ip).Some? && VarLen(src[..], ip).value.1 == next
          && length == VarLen(src[..], ip).value.0 % U32_MODULUS)
      || (error == LoopError && length == 255 * (next - ip) % U32_MODULUS
          && (VarLen(src[..], ip).Some? ==> next < VarLen(src[..], ip).value.1))
  {
    hide VarLen;
    length, next, error := 0, ip, NoError;
    if initialCheck && next >= lencheck {
      error := InitialError;
      return;
    }
    while true
      invariant ip <= next < src.Length
      invariant next == ip || next < lencheck
      invariant forall k :: ip <= k < next ==> src[k] == 255
      invariant length == 255 * (next - ip) % U32_MODULUS
      decreases src.Length - next
    {
      var s := src[next];
      WrappedSum(255 * (next - ip), s);
      VarLenAtByte(src[..], ip, next);
      next := next + 1;
      length := (length + s) % U32_MODULUS;
      if next >= lencheck {
        error := LoopError;
        return;
      }
      if s != 255 {
        return;
      }
    }
  }

  /** 255 * k wraps to zero in 32 bits for no k the input size allows. */
  lemma NoWrapToZero(k: nat)
    requires 0 < k < 0x8000_0000
    ensures 255 * k % U32_MODULUS != 0
  {
    var m := 255 * k / U32_MODULUS;
    assert 255 * (k - 16843009 * m) == m + 255 * k % U32_MODULUS;
  }

  /** Reads the literal length of a token. A length cut off at the end of the input is found out later: the
      literals it announces do not fit either. */
  method ReadLiteralLength(src: array<Byte>, ip: nat) returns (length: nat, next: nat, ok: bool)
    requires ip < src.Length < 0x8000_0000
    ensures ok ==> ip < next <= src.Length && Parse(src[..], ip) == ParseLiterals(src[..], next, length, src[ip] % 16)
    ensures !ok ==> Parse(src[..], ip) == Bad
  {
    var token := src[ip];
    length, next, ok := token / 16, ip + 1, true;
    if length == RUN_MASK {
      var more, error;
      more, next, error := ReadVariableLength(src, ip + 1, src.Length - RUN_MASK, true);
      length := length + more;
      if error == InitialError {
        ok := false;
      } else if src[next - 1] == 255 {
        NoWrapToZero(next - (ip + 1));
        assert next + length > src.Length;
      }
    }
  }

  // ---------------------------------------------------------------------------
  // The stages of the careful loop
  // ---------------------------------------------------------------------------

  lemma TrackBounds(g: Goal, at: Label, ip: nat, out: seq<Byte>, oend: nat)
    requires OnTrack(g, at, ip, out, oend)
    ensures ip <= |g.s| && |out| <= oend
  {
  }

  /** What a strict block leaves after the literals of a sequence that is not the last. */
  lemma StrictLeavesRoom(s: seq<Byte>, start: nat, ll: nat, code: nat, n: nat, total: nat)
    requires start <= |s| && code < 16 && StrictResume(s, ParseLiterals(s, start, ll, code), n, total)
    ensures start + ll <= |s|
    ensures start + ll == |s| ==> n + ll == total
    ensures start + ll != |s| ==> start + ll + 8 <= |s| && n + ll + MFLIMIT <= total
  {
    hide ReadLength, Parse;
    var p := ParseLiterals(s, start, ll, code);
    if p.Step? {
      StrictLeavesInput(s, p.next, n + p.ll + p.len, total);
    }
  }

  /** Once its literals are copied, a sequence goes on with its offset. */
  lemma LiteralsThenOffset(g: Goal, ip: nat, length: nat, code: nat, out: seq<Byte>, out': seq<Byte>, oend: nat)
    requires OnTrack(g, SafeLiteralCopy(length, code), ip, out, oend)
    requires ip + length + 2 < |g.s| && |out| + length + MFLIMIT <= oend
    requires out' == out + g.s[ip..ip + length]
    ensures OnTrack(g, ReadMatchLength(LE16(g.s, ip + length), code), ip + length + 2, out', oend)
  {
    hide ReadLength, Decode, Strict, CopyMatch, LE16;
  }

  lemma LiteralsThenDone(g: Goal, ip: nat, length: nat, code: nat, out: seq<Byte>, out': seq<Byte>, oend: nat)
    requires OnTrack(g, SafeLiteralCopy(length, code), ip, out, oend)
    requires ip + length == |g.s| && |out| + length <= oend && out' == out + g.s[ip..ip + length]
    ensures OnTrack(g, Done, |g.s|, out', oend)
  {
    assert g.s[ip..] == g.s[ip..ip + length];
    hide ReadLength, Decode, Strict, CopyMatch, LE16;
  }

  lemma LiteralsRejected(g: Goal, ip: nat, length: nat, code: nat, out: seq<Byte>, oend: nat)
    requires OnTrack(g, SafeLiteralCopy(length, code), ip, out, oend)
    requires |out| + length > oend - MFLIMIT || ip + length > |g.s| - (2 + 1 + LASTLITERALS)
    requires ip + length != |g.s| || |out| + length > oend
    ensures OnTrack(g, OutputError, ip, out, oend)
  {
    hide ReadLength, Decode, Strict, CopyMatch, LE16, ParseLiterals;
    if g.strict {
      StrictLeavesRoom(g.s, ip, length, code, |out|, g.total);
    }
  }

  /** Label safe_literal_copy: copies the literals; near either end they must be the last ones. */
  method LiteralCopy(src: array<Byte>, dst: array<Byte>, ip: nat, op: nat, length: nat, code: nat, ghost g: Goal)
    returns (at: Label, ip': nat, op': nat)
    requires src != dst && g.s == src[..] && op <= dst.Length
    requires OnTrack(g, SafeLiteralCopy(length, code), ip, dst[..op], dst.Length)
    modifies dst
    ensures op' <= dst.Length && OnTrack(g, at, ip', dst[..op'], dst.Length)
    ensures (at.ReadMatchLength? && ip < ip') || (at.Done? && ip <= ip') || (at.OutputError? && ip == ip')
  {
    hide OnTrack, Decode, ParseLiterals;
    var oend, iend := dst.Length, src.Length;
    ghost var out := dst[..op];
    assert ip <= iend by { TrackBounds(g, SafeLiteralCopy(length, code), ip, out, oend); }
    if op + length > oend - MFLIMIT || ip + length > iend - (2 + 1 + LASTLITERALS) {
      if ip + length != iend || op + length > oend {
        LiteralsRejected(g, ip, length, code, out, oend);
        return OutputError, ip, op;
      }
      CopyBytes(src, ip, dst, op, length);
      assert dst[..op + length] == out + g.s[ip..ip + length];
      LiteralsThenDone(g, ip, length, code, out, dst[..op + length], oend);
      return Done, iend, op + length;
    }
    WildCopy8(src, ip, dst, op, op + length);
    assert dst[..op + length] == out + g.s[ip..ip + length];
    LiteralsThenOffset(g, ip, length, code, out, dst[..op + length], oend);
    ip', op' := ip + length + 2, op + length;
    at := ReadMatchLength(src[ip' - 2] as nat + 256 * src[ip' - 1] as nat, code);
  }

  /** A match length that runs up to the last bytes of the input belongs to no strict block. */
  lemma LengthRejected(g: Goal, ip: nat, offset: nat, code: nat, out: seq<Byte>, oend: nat)
    requires OnTrack(g, ReadMatchLength(offset, code), ip, out, oend)
    requires ReadLength(g.s, ip, code).Some? ==> |g.s| - LASTLITERALS + 1 <= ReadLength(g.s, ip, code).value.1
    ensures OnTrack(g, OutputError, ip, out, oend)
  {
    hide ReadLength, Decode, Strict, CopyMatch;
    if g.strict {
      var (ml, next) := ReadLength(g.s, ip, code).value;
      StrictLeavesInput(g.s, next, |out| + ml + MINMATCH, g.total);
    }
  }

  lemma LengthThenMatch(g: Goal, ip: nat, offset: nat, code: nat, out: seq<Byte>, oend: nat, ml: nat, next: nat)
    requires OnTrack(g, ReadMatchLength(offset, code), ip, out, oend)
    requires ReadLength(g.s, ip, code) == Some((ml, next)) && next < |g.s|
    ensures OnTrack(g, SafeMatchCopy(offset, ml + MINMATCH), next, out, oend)
  {
    hide ReadLength, Decode, Strict, CopyMatch;
  }

  /** Label _copy_match: reads the rest of the match length. */
  method MatchLength(src: array<Byte>, ip: nat, offset: nat, code: nat, ghost g: Goal, ghost out: seq<Byte>,
      ghost oend: nat)
    returns (at: Label, ip': nat)
    requires g.s == src[..] && OnTrack(g, ReadMatchLength(offset, code), ip, out, oend)
    ensures OnTrack(g, at, ip', out, oend) && ip <= ip'
    ensures at.OutputError? || (at.SafeMatchCopy? && at.offset == offset)
    ensures code != ML_MASK ==> at == SafeMatchCopy(offset, code + MINMATCH) && ip' == ip
  {
    hide Decode, Strict, CopyMatch, ResumeMatch, StrictMatch, ResumeLength, StrictLength;
    var length, next := code, ip;
    if length == ML_MASK {
      var more, error;
      more, next, error := ReadVariableLength(src, ip, src.Length - LASTLITERALS + 1, false);
      if error != NoError {
        LengthRejected(g, ip, offset, code, out, oend);
        return OutputError, ip;
      }
      length := length + more;
    }
    LengthThenMatch(g, ip, offset, code, out, oend, length, next);
    return SafeMatchCopy(offset, length + MINMATCH), next;
  }

  lemma MatchCopied(g: Goal, ip: nat, offset: nat, length: nat, out: seq<Byte>, out': seq<Byte>, oend: nat)
    requires OnTrack(g, SafeMatchCopy(offset, length), ip, out, oend)
    requires offset <= |out| && |out'| == |out| + length <= oend && out <= out'
    requires Periodic(out', |out|, |out'|, offset)
    ensures OnTrack(g, Token, ip, out', oend)
  {
    hide Decode, Strict, CopyMatch;
    PeriodicIsCopyMatch(out, offset, length, out');
  }

  lemma MatchRejected(g: Goal, ip: nat, offset: nat, length: nat, out: seq<Byte>, oend: nat)
    requires OnTrack(g, SafeMatchCopy(offset, length), ip, out, oend)
    requires offset > |out| || |out| + length > oend - LASTLITERALS
    ensures OnTrack(g, OutputError, ip, out, oend)
  {
    hide Decode, Strict, CopyMatch;
  }

  /** The bytes of a match, in the last part of the output: 8 bytes, then wild copies as far as the end
      allows, then single bytes. */
  method CopyMatchCarefully(a: array<Byte>, op: nat, offset: nat, length: nat) returns (ok: bool)
    requires offset <= op && op + MFLIMIT <= a.Length && MINMATCH <= length
    modifies a
    ensures KeptBelow(a, op)
    ensures ok <==> op + length <= a.Length - LASTLITERALS
    ensures ok ==> Repeats(a, op, op + length, offset)
  {
    var cpy, oend := op + length, a.Length;
    var m := FirstEight(a, op, offset);
    ghost var k := PeriodsAfterEight(offset);
    var d, distance := op + 8, op + 8 - m;
    if cpy > oend - MATCH_SAFEGUARD_DISTANCE {
      var oCopyLimit := oend - (WILDCOPYLENGTH - 1);
      if cpy > oend - LASTLITERALS {
        return false;
      }
      if d < oCopyLimit {
        WildCopy8Match(a, m, d, oCopyLimit, offset, op, k);
        d := oCopyLimit;
      }
      while d < cpy
        invariant op + 8 <= d && (d < cpy ==> d <= a.Length) && (d <= a.Length ==> Repeats(a, op, d, offset))
        invariant KeptBelow(a, op) && (d > cpy ==> d <= a.Length)
      {
        CopyRepeating(a, d, distance, 1, offset, op, k);
        d := d + 1;
      }
    } else {
      CopyRepeating(a, d, distance, 8, offset, op, k);
      if length > 16 {
        WildCopy8Match(a, m + 8, d + 8, cpy, offset, op, k);
      }
    }
    return true;
  }

  /** Label safe_match_copy. */
  method MatchCopy(dst: array<Byte>, ip: nat, op: nat, offset: nat, length: nat, ghost g: Goal)
    returns (at: Label, op': nat)
    requires op <= dst.Length && OnTrack(g, SafeMatchCopy(offset, length), ip, dst[..op], dst.Length)
    modifies dst
    ensures op' <= dst.Length && OnTrack(g, at, ip, dst[..op'], dst.Length)
    ensures at.OutputError? || at.Token?
  {
    hide OnTrack, Decode;
    ghost var out := dst[..op];
    MatchBounds(g, offset, length, ip, out, dst.Length);
    if offset > op {
      MatchRejected(g, ip, offset, length, out, dst.Length);
      return OutputError, op;
    }
    var ok := CopyMatchCarefully(dst, op, offset, length);
    assert dst[..op] == out;
    if !ok {
      MatchRejected(g, ip, offset, length, out, dst.Length);
      return OutputError, op;
    }
    MatchCopied(g, ip, offset, length, out, dst[..op + length], dst.Length);
    return Token, op + length;
  }

  lemma MatchBounds(g: Goal, offset: nat, length: nat, ip: nat, out: seq<Byte>, oend: nat)
    requires OnTrack(g, SafeMatchCopy(offset, length), ip, out, oend)
    ensures ip < |g.s| && |out| + MFLIMIT <= oend && MINMATCH <= length
  {
  }

  lemma TokenThenLiterals(g: Goal, ip: nat, next: nat, length: nat, out: seq<Byte>, oend: nat)
    requires OnTrack(g, Token, ip, out, oend) && next <= |g.s|
    requires Parse(g.s, ip) == ParseLiterals(g.s, next, length, g.s[ip] as nat % 16)
    ensures OnTrack(g, SafeLiteralCopy(length, g.s[ip] as nat % 16), next, out, oend)
  {
    hide Parse, ParseLiterals, CopyMatch;
  }

  lemma TokenRejected(g: Goal, ip: nat, out: seq<Byte>, oend: nat)
    requires OnTrack(g, Token, ip, out, oend) && Parse(g.s, ip) == Bad
    ensures OnTrack(g, OutputError, ip, out, oend)
  {
    hide Parse, CopyMatch;
  }

  lemma OffsetRejected(g: Goal, ip: nat, offset: nat, code: nat, out: seq<Byte>, oend: nat)
    requires OnTrack(g, ReadMatchLength(offset, code), ip, out, oend) && offset > |out|
    ensures OnTrack(g, OutputError, ip, out, oend)
  {
    hide ReadLength, Decode, Strict, CopyMatch;
  }

  lemma ShortLiterals(s: seq<Byte>, ip: nat)
    requires ip < |s| && s[ip] / 16 != 15
    ensures Parse(s, ip) == ParseLiterals(s, ip + 1, s[ip] as nat / 16, s[ip] as nat % 16)
  {
  }

  /** Eighteen bytes in three copies cover any match of a token whose length nibble is not saturated. */
  method CopyEighteen(a: array<Byte>, op: nat, offset: nat)
    requires 8 <= offset <= op && op + 18 <= a.Length
    modifies a
    ensures KeptBelow(a, op) && Repeats(a, op, op + 18, offset)
  {
    MoveBytes(a, op, offset, 8);
    MoveBytes(a, op + 8, offset, 8);
    MoveBytes(a, op + 16, offset, 2);
  }

  /** The first stage of the shortcut: up to 14 literals by a copy of 16, and the offset. */
  method ShortcutLiterals(src: array<Byte>, dst: array<Byte>, ip: nat, op: nat, ghost g: Goal)
    returns (offset: nat, ip': nat, op': nat)
    requires src != dst && g.s == src[..] && op + 16 <= dst.Length
    requires OnTrack(g, Token, ip, dst[..op], dst.Length)
    requires src[ip] / 16 != RUN_MASK && ip + 17 < src.Length && op + 14 + MFLIMIT <= dst.Length
    modifies dst
    ensures op <= op' <= op + 14 && ip < ip' <= ip + 17
    ensures OnTrack(g, ReadMatchLength(offset, src[ip] as nat % 16), ip', dst[..op'], dst.Length)
  {
    hide OnTrack, Parse, ParseLiterals;
    ghost var out := dst[..op];
    var length := src[ip] as nat / 16;
    CopyBytes(src, ip + 1, dst, op, 16);
    op', ip' := op + length, ip + 1 + length;
    offset := src[ip'] as nat + 256 * src[ip' + 1] as nat;
    assert dst[..op'] == out + g.s[ip + 1..ip'];
    ShortLiterals(g.s, ip);
    TokenThenLiterals(g, ip, ip + 1, length, out, dst.Length);
    LiteralsThenOffset(g, ip + 1, length, g.s[ip] as nat % 16, out, dst[..op'], dst.Length);
    ip' := ip' + 2;
  }

  /** A short match, copied by eighteen bytes, leads to the next token. */
  method ShortMatch(dst: array<Byte>, ip: nat, op: nat, offset: nat, code: nat, ghost g: Goal)
    requires op + 18 <= dst.Length && code < 15 && 8 <= offset <= op
    requires OnTrack(g, ReadMatchLength(offset, code), ip, dst[..op], dst.Length)
    modifies dst
    ensures OnTrack(g, Token, ip, dst[..op + code + MINMATCH], dst.Length)
  {
    hide Decode, Strict, CopyMatch, ResumeMatch, StrictMatch, ResumeLength, StrictLength, OnTrack;
    ghost var out := dst[..op];
    assert ip < |g.s| by { LengthBounds(g, offset, code, ip, out, dst.Length); }
    LengthThenMatch(g, ip, offset, code, out, dst.Length, code, ip);
    CopyEighteen(dst, op, offset);
    MatchCopied(g, ip, offset, code + MINMATCH, out, dst[..op + code + MINMATCH], dst.Length);
  }

  lemma LengthBounds(g: Goal, offset: nat, code: nat, ip: nat, out: seq<Byte>, oend: nat)
    requires OnTrack(g, ReadMatchLength(offset, code), ip, out, oend)
    ensures ip < |g.s| && |out| + MFLIMIT <= oend && code < 16
  {
  }

  /** The top of the careful loop: the shortcut, or the literal length. */
  method SafeToken(src: array<Byte>, dst: array<Byte>, ip: nat, op: nat, ghost g: Goal)
    returns (at: Label, ip': nat, op': nat)
    requires src != dst && g.s == src[..] && op <= dst.Length && src.Length < 0x8000_0000
    requires OnTrack(g, Token, ip, dst[..op], dst.Length)
    modifies dst
    ensures op' <= dst.Length && OnTrack(g, at, ip', dst[..op'], dst.Length)
    ensures !at.Done? && ((at.OutputError? && ip == ip') || ip < ip')
  {
    hide OnTrack, Parse, ParseLiterals;
    ghost var out := dst[..op];
    assert ip < |g.s| by { TokenBounds(g, ip, out, dst.Length); }
    var token := src[ip];
    var shortiend, shortoend := src.Length - 14 - 2, dst.Length - 14 - 18;
    if token / 16 != RUN_MASK && ip + 1 < shortiend && op <= shortoend {
      var offset;
      offset, ip', op' := ShortcutLiterals(src, dst, ip, op, g);
      if token % 16 != ML_MASK && offset >= 8 && offset <= op' {
        ShortMatch(dst, ip', op', offset, token % 16, g);
        return Token, ip', op' + token % 16 + MINMATCH;
      }
      return ReadMatchLength(offset, token % 16), ip', op';
    }
    var length, next, ok := ReadLiteralLength(src, ip);
    if !ok {
      TokenRejected(g, ip, out, dst.Length);
      return OutputError, ip, op;
    }
    TokenThenLiterals(g, ip, next, length, out, dst.Length);
    return SafeLiteralCopy(length, token % 16), next, op;
  }

  lemma TokenBounds(g: Goal, ip: nat, out: seq<Byte>, oend: nat)
    requires OnTrack(g, Token, ip, out, oend)
    ensures ip < |g.s|
  {
  }

  function Rank(at: Label): nat {
    match at
    case ReadMatchLength(_, _) => 4
    case SafeMatchCopy(_, _) => 3
    case Token => 2
    case SafeLiteralCopy(_, _) => 1
    case _ => 0
  }

  /** The careful loop, entered at any of its labels. */
  method SafeDecode(src: array<Byte>, dst: array<Byte>, at0: Label, ip0: nat, op0: nat, ghost g: Goal)
    returns (r: int)
    requires src != dst && g.s == src[..] && op0 <= dst.Length && src.Length < 0x8000_0000
    requires OnTrack(g, at0, ip0, dst[..op0], dst.Length)
    modifies dst
    ensures r <= dst.Length
    ensures r >= 0 ==> g.result == Some(dst[..r])
    ensures r < 0 ==> !g.strict
  {
    hide Decode, Resume, ResumeMatch, ResumeLength, Strict, StrictResume, StrictMatch, StrictLength;
    var at := at0;
    var ip: nat, op: nat := ip0, op0;
    while !at.Done? && !at.OutputError?
      invariant op <= dst.Length && OnTrack(g, at, ip, dst[..op], dst.Length)
      decreases src.Length - ip, Rank(at)
    {
      TrackBounds(g, at, ip, dst[..op], dst.Length);
      match at
      case Token =>
        at, ip, op := SafeToken(src, dst, ip, op, g);
      case SafeLiteralCopy(length, code) =>
        at, ip, op := LiteralCopy(src, dst, ip, op, length, code, g);
      case ReadMatchLength(offset, code) =>
        at, ip := MatchLength(src, ip, offset, code, g, dst[..op], dst.Length);
      case SafeMatchCopy(offset, length) =>
        at, op := MatchCopy(dst, ip, op, offset, length, g);
    }
    return if at.Done? then op else -(ip as int) - 1;
  }

  // ---------------------------------------------------------------------------
  // The fast loop
  // ---------------------------------------------------------------------------

  /** Literals and offset of one sequence of the fast loop; leaves for the careful loop near the ends. */
  method FastLiterals(src: array<Byte>, dst: array<Byte>, ip: nat, op: nat, ghost g: Goal)
    returns (at: Label, ip': nat, op': nat)
    requires src != dst && g.s == src[..] && op + FASTLOOP_SAFE_DISTANCE <= dst.Length && src.Length < 0x8000_0000
    requires OnTrack(g, Token, ip, dst[..op], dst.Length)
    modifies dst
    ensures op' <= dst.Length && OnTrack(g, at, ip', dst[..op'], dst.Length)
    ensures (at.OutputError? && ip == ip') || (ip < ip' && at.SafeLiteralCopy?)
         || (ip < ip' && at.ReadMatchLength? && at.code == src[ip] as nat % 16 && op' + 32 <= dst.Length)
  {
    hide OnTrack, Parse, ParseLiterals;
    ghost var out := dst[..op];
    var oend, iend := dst.Length, src.Length;
    assert ip < |g.s| by { TokenBounds(g, ip, out, oend); }
    var token := src[ip];
    if token / 16 == RUN_MASK {
      var length, next, ok := ReadLiteralLength(src, ip);
      if !ok {
        TokenRejected(g, ip, out, oend);
        return OutputError, ip, op;
      }
      TokenThenLiterals(g, ip, next, length, out, oend);
      var cpy := op + length;
      if cpy > oend - 32 || next + length > iend - 32 {
        return SafeLiteralCopy(length, token % 16), next, op;
      }
      if length == 0 {
        assert out + g.s[next..next + length] == out;
      } else {
        WildCopy32(src, next, dst, op, cpy);
      }
      assert dst[..cpy] == out + g.s[next..next + length];
      LiteralsThenOffset(g, next, length, token % 16, out, dst[..cpy], oend);
      ip', op' := next + length + 2, cpy;
      at := ReadMatchLength(src[ip' - 2] as nat + 256 * src[ip' - 1] as nat, token % 16);
    } else if ip + 1 > iend - (16 + 1) {
      ShortLiterals(g.s, ip);
      TokenThenLiterals(g, ip, ip + 1, token as nat / 16, out, oend);
      return SafeLiteralCopy(token as nat / 16, token % 16), ip + 1, op;
    } else {
      var offset;
      offset, ip', op' := ShortcutLiterals(src, dst, ip, op, g);
      at := ReadMatchLength(offset, token % 16);
    }
  }

  /** A match far enough from the end of the output, by wild copies. */
  method FastMatch(dst: array<Byte>, ip: nat, op: nat, offset: nat, length: nat, ghost g: Goal)
    requires offset <= op && MINMATCH <= length && op + length < dst.Length - FASTLOOP_SAFE_DISTANCE
    requires OnTrack(g, SafeMatchCopy(offset, length), ip, dst[..op], dst.Length)
    modifies dst
    ensures OnTrack(g, Token, ip, dst[..op + length], dst.Length)
  {
    hide OnTrack;
    ghost var out := dst[..op];
    if offset < 16 {
      MemcpyUsingOffset(dst, op, op + length, offset);
    } else {
      WildCopy32Match(dst, op, op + length, offset);
    }
    MatchCopied(g, ip, offset, length, out, dst[..op + length], dst.Length);
  }

  /** The rest of one sequence of the fast loop, from the match length on. */
  method FastMatchLength(src: array<Byte>, dst: array<Byte>, ip: nat, op: nat, offset: nat, code: nat, ghost g: Goal)
    returns (at: Label, ip': nat, op': nat)
    requires src != dst && g.s == src[..] && op + 32 <= dst.Length
    requires OnTrack(g, ReadMatchLength(offset, code), ip, dst[..op], dst.Length)
    modifies dst
    ensures op' <= dst.Length && OnTrack(g, at, ip', dst[..op'], dst.Length) && ip <= ip'
    ensures at.OutputError? || at.SafeMatchCopy? || (at.Token? && op' + FASTLOOP_SAFE_DISTANCE <= dst.Length)
  {
    hide OnTrack;
    ghost var out := dst[..op];
    if code == ML_MASK && offset > op {
      OffsetRejected(g, ip, offset, code, out, dst.Length);
      return OutputError, ip, op;
    }
    at, ip' := MatchLength(src, ip, offset, code, g, out, dst.Length);
    op' := op;
    if at.OutputError? {
      return;
    }
    var length := at.length;
    MatchBounds(g, offset, length, ip', out, dst.Length);
    LengthBounds(g, offset, code, ip, out, dst.Length);
    if op + length >= dst.Length - FASTLOOP_SAFE_DISTANCE {
      return;
    }
    if code != ML_MASK && 8 <= offset <= op {
      ShortMatch(dst, ip, op, offset, code, g);
      return Token, ip, op + code + MINMATCH;
    }
    if offset > op {
      MatchRejected(g, ip', offset, length, out, dst.Length);
      return OutputError, ip', op;
    }
    FastMatch(dst, ip', op, offset, length, g);
    return Token, ip', op + length;
  }

  /** The fast loop: runs while 64 bytes of output are left, then tells where the careful loop starts. */
  method FastDecode(src: array<Byte>, dst: array<Byte>, ghost g: Goal) returns (at: Label, ip: nat, op: nat)
    requires src != dst && g.s == src[..] && FASTLOOP_SAFE_DISTANCE <= dst.Length && src.Length < 0x8000_0000
    requires OnTrack(g, Token, 0, [], dst.Length)
    modifies dst
    ensures op <= dst.Length && OnTrack(g, at, ip, dst[..op], dst.Length)
  {
    hide OnTrack;
    at, ip, op := Token, 0, 0;
    assert dst[..0] == [];
    while at.Token?
      invariant op <= dst.Length && OnTrack(g, at, ip, dst[..op], dst.Length)
      invariant ip <= src.Length && (at.Token? ==> op + FASTLOOP_SAFE_DISTANCE <= dst.Length)
      decreases src.Length - ip, at.Token?
    {
      at, ip, op := FastLiterals(src, dst, ip, op, g);
      if at.ReadMatchLength? {
        at, ip, op := FastMatchLength(src, dst, ip, op, at.offset, at.code, g);
      }
      TrackBounds(g, at, ip, dst[..op], dst.Length);
    }
  }

  // ---------------------------------------------------------------------------
  // LZ4_decompress_safe
  // ---------------------------------------------------------------------------

  /** Decodes `src` into `dst`. A result that is not negative is the number of bytes written, and they are
      those of the bytewise decoder; every strict block that fits in `dst` is decoded. */
  method DecompressSafe(src: array<Byte>, dst: array<Byte>) returns (r: int)
    requires src != dst && src.Length < 0x8000_0000
    modifies dst
    ensures r <= dst.Length
    ensures r >= 0 ==> Decode(src[..], 0, []) == Some(dst[..r])
    ensures forall total: nat :: total <= dst.Length && Strict(src[..], 0, 0, total) ==> r == total
  {
    ghost var s := src[..];
    ghost var total := if Decode(s, 0, []).Some? then |Decode(s, 0, []).value| else 0;
    ghost var g := Goal(s, Decode(s, 0, []), total <= dst.Length && Strict(s, 0, 0, total), total);
    forall t: nat | Strict(s, 0, 0, t)
      ensures t == total && g.result.Some?
    {
      StrictDecodes(s, 0, [], t);
    }
    if dst.Length == 0 {
      EmptyOutput(s);
      assert dst[..0] == [];
      return if src.Length == 1 && src[0] == 0 then 0 else -1;
    }
    if src.Length == 0 {
      return -1;
    }
    var at, ip, op := Token, 0, 0;
    assert dst[..0] == [];
    if dst.Length >= FASTLOOP_SAFE_DISTANCE {
      at, ip, op := FastDecode(src, dst, g);
    }
    r := SafeDecode(src, dst, at, ip, op, g);
  }

  /** The only strict block of no bytes is a single zero. */
  lemma EmptyOutput(s: seq<Byte>)
    ensures Strict(s, 0, 0, 0) <==> s == [0]
    ensures s == [0] ==> Decode(s, 0, []) == Some([])
  {
    if Strict(s, 0, 0, 0) {
      var p := Parse(s, 0);
      assert p.Last? && p.start == |s|;
      if s[0] / 16 != 15 {
        ShortLiterals(s, 0);
        assert s[0] == 0;
      }
      assert s == [s[0]];
    }
    if s == [0] {
      ShortLiterals(s, 0);
      assert Parse(s, 0) == Last(1, 0);
      assert [] + s[1..] == [];
    }
  }
}
