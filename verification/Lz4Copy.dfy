/** The copy primitives of lz4.c: fixed-size and wild copies, and the tables for offsets below 8.
    Wild copies write past the end they are given; every one of these methods keeps the bytes below
    its start, and its bounds are part of its precondition. */
module Lz4Copy {
  import opened Basics
  import opened Lz4Format

  const WILDCOPYLENGTH := 8

  const inc32table: seq<nat> := [0, 1, 2, 1, 0, 4, 4, 4]
  const dec64table: seq<int> := [0, 0, 0, -1, -4, 1, 2, 3]

  /** The bytes [from, to) of `a` repeat what stands `offset` bytes before them. */
  ghost predicate Repeats(a: array<Byte>, from: nat, to: nat, offset: nat)
    requires offset <= from <= to <= a.Length
    reads a
  {
    forall i :: from <= i < to ==> a[i] == if offset == 0 then 0 else a[i - offset]
  }

  twostate predicate KeptBelow(a: array<Byte>, d: nat)
    requires d <= a.Length
    reads a
  {
    forall i :: 0 <= i < d ==> a[i] == old(a[i])
  }

  /** The bytes [d, e) of `dst` are those of `src` from `s` on. */
  ghost predicate Copied(src: array<Byte>, s: nat, dst: array<Byte>, d: nat, e: nat)
    requires d <= e <= dst.Length && s + (e - d) <= src.Length
    reads src, dst
  {
    forall j :: d <= j < e ==> dst[j] == src[s + (j - d)]
  }

  /** Copies `n` bytes between two buffers. */
  method CopyBytes(src: array<Byte>, s: nat, dst: array<Byte>, d: nat, n: nat)
    requires src != dst && s + n <= src.Length && d + n <= dst.Length
    modifies dst
    ensures KeptBelow(dst, d) && Copied(src, s, dst, d, d + n)
    ensures forall j :: d + n <= j < dst.Length ==> dst[j] == old(dst[j])
  {
    forall j | d <= j < d + n {
      dst[j] := src[s + (j - d)];
    }
  }

  /** Copies `n` bytes forward inside one buffer, from `distance` bytes back; the two ranges do not overlap. */
  method MoveBytes(a: array<Byte>, d: nat, distance: nat, n: nat)
    requires n <= distance <= d && d + n <= a.Length
    modifies a
    ensures forall j :: d <= j < d + n ==> a[j] == a[j - distance]
    ensures forall j :: 0 <= j < d || d + n <= j < a.Length ==> a[j] == old(a[j])
  {
    forall j | d <= j < d + n {
      a[j] := a[j - distance];
    }
  }

  /** Copies the literals src[s..] to dst[d..e), eight bytes at a time. */
  method WildCopy8(src: array<Byte>, s: nat, dst: array<Byte>, d: nat, e: nat)
    requires src != dst && d <= e
    requires d + 8 <= dst.Length && e + 7 <= dst.Length
    requires s + 8 <= src.Length && s + (e - d) + 7 <= src.Length
    modifies dst
    ensures KeptBelow(dst, d) && Copied(src, s, dst, d, e)
  {
    CopyBytes(src, s, dst, d, 8);
    var n := 8;
    while d + n < e
      invariant 8 <= n && d + n <= dst.Length && s + n <= src.Length && (n == 8 || d + n < e + 8)
      invariant KeptBelow(dst, d) && Copied(src, s, dst, d, d + n)
    {
      CopyBytes(src, s + n, dst, d + n, 8);
      n := n + 8;
    }
  }

  /** Copies the literals src[s..] to dst[d..e), twice sixteen bytes at a time. */
  method WildCopy32(src: array<Byte>, s: nat, dst: array<Byte>, d: nat, e: nat)
    requires src != dst && d < e
    requires e + 31 <= dst.Length && s + (e - d) + 31 <= src.Length
    modifies dst
    ensures KeptBelow(dst, d) && Copied(src, s, dst, d, e)
  {
    var n := 0;
    while d + n < e
      invariant d + n <= dst.Length && s + n <= src.Length && n <= e - d + 31
      invariant KeptBelow(dst, d) && Copied(src, s, dst, d, d + n)
    {
      CopyBytes(src, s + n, dst, d + n, 16);
      CopyBytes(src, s + n + 16, dst, d + n + 16, 16);
      n := n + 32;
    }
  }

  // ---------------------------------------------------------------------------
  // Matches
  // ---------------------------------------------------------------------------

  /** Looking back any multiple of the period finds the same byte. */
  lemma {:induction false} JumpBack(a: seq<Byte>, from: nat, to: nat, offset: nat, i: nat, k: nat)
    requires offset <= from <= to <= |a| && Periodic(a, from, to, offset)
    requires 1 <= k && i < to && from - offset <= i - k * offset
    ensures a[i] == if offset == 0 && from <= i then 0 else a[i - k * offset]
    decreases k
  {
    if offset != 0 {
      if k == 1 {
      } else {
        assert k * offset == (k - 1) * offset + offset;
        assert (k - 1) * offset >= offset by { MulPositive(k - 1, offset); }
        JumpBack(a, from, to, offset, i - offset, k - 1);
      }
    }
  }

  lemma MulPositive(k: nat, n: nat)
    requires 1 <= k
    ensures k * n >= n
  {
  }

  /** Copying up to `distance` bytes from a multiple of the period back extends the repetition. */
  lemma CopyExtendsPeriod(a: seq<Byte>, b: seq<Byte>, from: nat, d: nat, n: nat, offset: nat, distance: nat, k: nat)
    requires offset <= from <= d && d + n <= |b| && |a| == |b|
    requires Periodic(a, from, d, offset) && a[..d] == b[..d]
    requires 1 <= k && distance == k * offset && n <= distance && from - offset <= d - distance
    requires forall i :: d <= i < d + n ==> b[i] == b[i - distance]
    requires 1 <= offset
    ensures Periodic(b, from, d + n, offset)
  {
    forall i | from <= i < d + n
      ensures b[i] == b[i - offset]
    {
      if i < d {
        assert a[i] == a[i - offset];
        assert a[..d][i] == b[..d][i] && a[..d][i - offset] == b[..d][i - offset];
      } else if i < d + offset {
        if k > 1 {
          assert k * offset == (k - 1) * offset + offset;
          JumpBack(a, from, d, offset, i - offset, k - 1);
        }
        assert a[..d][i - offset] == b[..d][i - offset] && a[..d][i - distance] == b[..d][i - distance];
      } else {
        assert b[i - offset] == b[i - offset - distance];
        assert a[i - distance] == a[i - distance - offset];
        assert a[..d][i - distance] == b[..d][i - distance];
        assert a[..d][i - distance - offset] == b[..d][i - distance - offset];
      }
    }
  }

  /** Extends a repetition up to `e`, eight bytes at a time, from a distance of at least 8 that is a
      multiple of the offset. */
  method WildCopy8Match(a: array<Byte>, s: nat, d: nat, e: nat, offset: nat, ghost from: nat, ghost k: nat)
    requires offset <= from <= d && d + 8 <= a.Length && e + 7 <= a.Length
    requires s + 8 <= d && from - offset <= s && (offset == 0 ==> from <= s)
    requires 1 <= k && (offset != 0 ==> d - s == k * offset)
    requires Repeats(a, from, d, offset)
    modifies a
    ensures KeptBelow(a, d) && Repeats(a, from, if e < d + 8 then d + 8 else e, offset)
  {
    CopyRepeating(a, d, d - s, 8, offset, from, k);
    var n := 8;
    while d + n < e
      invariant 8 <= n && d + n <= a.Length && (n == 8 || d + n < e + 8)
      invariant KeptBelow(a, d) && Repeats(a, from, d + n, offset)
    {
      CopyRepeating(a, d + n, d - s, 8, offset, from, k);
      n := n + 8;
    }
  }

  /** One fixed-size copy from a multiple of the offset back extends a repetition. */
  method CopyRepeating(a: array<Byte>, d: nat, distance: nat, n: nat, offset: nat, ghost from: nat, ghost k: nat)
    requires offset <= from <= d && d + n <= a.Length
    requires n <= distance <= d && from - offset <= d - distance && (offset == 0 ==> from <= d - distance)
    requires 1 <= k && (offset != 0 ==> distance == k * offset)
    requires Repeats(a, from, d, offset)
    modifies a
    ensures KeptBelow(a, d) && Repeats(a, from, d + n, offset)
    ensures forall j :: d + n <= j < a.Length ==> a[j] == old(a[j])
  {
    ghost var before := a[..];
    MoveBytes(a, d, distance, n);
    if offset == 0 {
      forall i | d <= i < d + n
        ensures a[i] == 0
      {
        assert a[i] == a[i - distance] == before[i - distance];
      }
    } else {
      CopyExtendsPeriod(before, a[..], from, d, n, offset, distance, k);
    }
  }

  /** Extends a match whose offset is at least 16, twice sixteen bytes at a time. */
  method WildCopy32Match(a: array<Byte>, d: nat, e: nat, offset: nat)
    requires 16 <= offset <= d < e && e + 31 <= a.Length
    modifies a
    ensures KeptBelow(a, d) && Repeats(a, d, e, offset)
  {
    var n := 0;
    while d + n < e
      invariant d + n <= a.Length && n <= e - d + 31
      invariant KeptBelow(a, d) && Repeats(a, d, d + n, offset)
    {
      MoveBytes(a, d + n, offset, 16);
      MoveBytes(a, d + n + 16, offset, 16);
      n := n + 32;
    }
  }

  /** The distance that stands between source and destination after the first eight bytes of a match. */
  function DistanceAfterEight(offset: nat): (r: nat)
    ensures 8 <= r
    ensures offset < 8 ==> r == 8 + offset - inc32table[offset] + dec64table[offset]
    ensures offset >= 8 ==> r == offset
  {
    if offset >= 8 then offset else [8, 8, 8, 9, 8, 10, 12, 14][offset]
  }

  /** How many offsets make up the distance of the copy of bytes 4..7, and of the copies after byte 8. */
  function PeriodsAfterFour(offset: nat): (k: nat)
    requires offset < 8
    ensures 1 <= k && (1 <= offset ==> k * offset == 4 + offset - inc32table[offset])
  {
    [1, 4, 2, 2, 2, 1, 1, 1][offset]
  }

  function PeriodsAfterEight(offset: nat): (k: nat)
    ensures 1 <= k && (1 <= offset ==> k * offset == DistanceAfterEight(offset))
  {
    if offset >= 8 then 1 else [1, 8, 4, 3, 2, 2, 2, 2][offset]
  }

  /** Four single bytes, each after the one before it; with offset 0 the zeros just written are read back. */
  method FirstFour(a: array<Byte>, op: nat, offset: nat)
    requires offset <= op && op + 4 <= a.Length
    modifies a
    ensures KeptBelow(a, op) && (forall i :: op + 4 <= i < a.Length ==> a[i] == old(a[i]))
    ensures Repeats(a, op, op + 4, offset)
  {
    var m := op - offset;
    a[op], a[op + 1], a[op + 2], a[op + 3] := 0, 0, 0, 0;
    a[op] := a[m];
    a[op + 1] := a[m + 1];
    a[op + 2] := a[m + 2];
    a[op + 3] := a[m + 3];
  }

  /** The first eight bytes of a match. An offset below 8 takes four single bytes and a shifted copy of
      four, after which the source stands a multiple of the offset, at least 8, behind. */
  method FirstEight(a: array<Byte>, op: nat, offset: nat) returns (match': nat)
    requires offset <= op && op + 8 <= a.Length
    modifies a
    ensures KeptBelow(a, op) && (forall i :: op + 8 <= i < a.Length ==> a[i] == old(a[i]))
    ensures Repeats(a, op, op + 8, offset)
    ensures match' == op + 8 - DistanceAfterEight(offset) && op - offset <= match'
  {
    var m := op - offset;
    if offset < 8 {
      FirstFour(a, op, offset);
      m := m + inc32table[offset];
      CopyRepeating(a, op + 4, op + 4 - m, 4, offset, op, PeriodsAfterFour(offset));
      match' := m - dec64table[offset];
    } else {
      MoveBytes(a, op, offset, 8);
      match' := m + 8;
    }
  }

  method MemcpyUsingOffsetBase(a: array<Byte>, op: nat, cpy: nat, offset: nat)
    requires offset <= op && op + 16 <= a.Length && op <= cpy && cpy + 7 <= a.Length
    modifies a
    ensures KeptBelow(a, op) && Repeats(a, op, cpy, offset)
  {
    var m := FirstEight(a, op, offset);
    WildCopy8Match(a, m, op + 8, cpy, offset, op, PeriodsAfterEight(offset));
  }

  /** Fills [op, cpy) with a pattern of eight bytes, a whole number `k` of repetitions. */
  method FillPattern(a: array<Byte>, op: nat, cpy: nat, offset: nat, v: seq<Byte>, ghost k: nat)
    requires 1 <= offset <= op && op + 8 <= a.Length && op <= cpy && cpy + 7 <= a.Length
    requires |v| == 8 && k * offset == 8
    requires forall j :: 0 <= j < 8 ==> v[j] == if j < offset then a[op - offset + j] else v[j - offset]
    modifies a
    ensures KeptBelow(a, op) && Repeats(a, op, cpy, offset)
  {
    PutEight(a, op, v);
    var d := op + 8;
    while d < cpy
      invariant op + 8 <= d <= a.Length && (d == op + 8 || d < cpy + 8)
      invariant KeptBelow(a, op) && Repeats(a, op, d, offset)
      invariant forall j :: d - 8 <= j < d ==> a[j] == v[j - (d - 8)]
    {
      PutEightAgain(a, op, d, offset, v, k);
      d := d + 8;
    }
  }

  method PutEightAgain(a: array<Byte>, op: nat, d: nat, offset: nat, v: seq<Byte>, ghost k: nat)
    requires 1 <= offset <= op && op + 8 <= d && d + 8 <= a.Length && |v| == 8 && k * offset == 8
    requires Repeats(a, op, d, offset) && forall j :: d - 8 <= j < d ==> a[j] == v[j - (d - 8)]
    modifies a
    ensures KeptBelow(a, d) && Repeats(a, op, d + 8, offset)
    ensures forall j :: d <= j < d + 8 ==> a[j] == v[j - d]
  {
    ghost var before := a[..];
    PutEight(a, d, v);
    CopyExtendsPeriod(before, a[..], op, d, 8, offset, 8, k);
  }

  method PutEight(a: array<Byte>, d: nat, v: seq<Byte>)
    requires |v| == 8 && d + 8 <= a.Length
    modifies a
    ensures forall j :: d <= j < d + 8 ==> a[j] == v[j - d]
    ensures forall j :: 0 <= j < d || d + 8 <= j < a.Length ==> a[j] == old(a[j])
  {
    forall j | d <= j < d + 8 {
      a[j] := v[j - d];
    }
  }

  /** Copies a match whose offset is below 16. */
  method MemcpyUsingOffset(a: array<Byte>, op: nat, cpy: nat, offset: nat)
    requires offset <= op && op + 16 <= a.Length && op <= cpy && cpy + 7 <= a.Length
    modifies a
    ensures KeptBelow(a, op) && Repeats(a, op, cpy, offset)
  {
    var m := op - offset;
    match offset
    case 1 =>
      FillPattern(a, op, cpy, offset, [a[m], a[m], a[m], a[m], a[m], a[m], a[m], a[m]], 8);
    case 2 =>
      FillPattern(a, op, cpy, offset, [a[m], a[m + 1], a[m], a[m + 1], a[m], a[m + 1], a[m], a[m + 1]], 4);
    case 4 =>
      FillPattern(a, op, cpy, offset, [a[m], a[m + 1], a[m + 2], a[m + 3], a[m], a[m + 1], a[m + 2], a[m + 3]], 2);
    case _ =>
      MemcpyUsingOffsetBase(a, op, cpy, offset);
  }
}
