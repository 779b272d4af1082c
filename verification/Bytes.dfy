/** Little-endian numbers in bytes, and parts of a sequence. */
module Bytes {
  import opened Basics

  function Pow256(k: nat): (p: nat)
    ensures 1 <= p
  {
    if k == 0 then 1 else 256 * Pow256(k - 1)
  }

  function LE(n: nat, k: nat): (r: seq<Byte>)
    ensures |r| == k
  {
    if k == 0 then [] else [n % 256] + LE(n / 256, k - 1)
  }

  function ReadLE(s: seq<Byte>, i: nat, k: nat): nat
    requires i + k <= |s|
    decreases k
  {
    if k == 0 then 0 else s[i] as nat + 256 * ReadLE(s, i + 1, k - 1)
  }

  /** Four bytes, the lowest first. */
  lemma ReadLE4(s: seq<Byte>, i: nat)
    requires i + 4 <= |s|
    ensures ReadLE(s, i, 4) == s[i] as nat + 256 * s[i + 1] as nat + 65536 * s[i + 2] as nat
      + 16777216 * s[i + 3] as nat
  {
    assert ReadLE(s, i + 3, 1) == s[i + 3] as nat + 256 * ReadLE(s, i + 4, 0);
    assert ReadLE(s, i + 2, 2) == s[i + 2] as nat + 256 * ReadLE(s, i + 3, 1);
    assert ReadLE(s, i + 1, 3) == s[i + 1] as nat + 256 * ReadLE(s, i + 2, 2);
  }

  lemma LE4(n: nat)
    ensures LE(n, 4) == [n % 256, n / 256 % 256, n / 256 / 256 % 256, n / 256 / 256 / 256 % 256]
  {
    var a, b, c := n / 256, n / 256 / 256, n / 256 / 256 / 256;
    assert LE(c, 1) == [c % 256] + LE(c / 256, 0);
    assert LE(b, 2) == [b % 256] + LE(c, 1);
    assert LE(a, 3) == [a % 256] + LE(b, 2);
  }

  /** `part` stands at `i`. */
  ghost predicate At(s: seq<Byte>, i: nat, part: seq<Byte>) {
    i + |part| <= |s| && s[i..i + |part|] == part
  }

  lemma AtAppend(s: seq<Byte>, i: nat, a: seq<Byte>, b: seq<Byte>)
    ensures At(s, i, a + b) <==> At(s, i, a) && At(s, i + |a|, b)
  {
    if i + |a| + |b| <= |s| {
      assert s[i..i + |a + b|] == s[i..i + |a|] + s[i + |a|..i + |a| + |b|];
      assert (a + b)[..|a|] == a && (a + b)[|a|..] == b;
    }
  }

  lemma {:induction false} ReadsBack(s: seq<Byte>, i: nat, n: nat, k: nat)
    requires At(s, i, LE(n, k)) && n < Pow256(k)
    ensures ReadLE(s, i, k) == n
    decreases k
  {
    if k != 0 {
      AtAppend(s, i, [n % 256], LE(n / 256, k - 1));
      assert s[i] == s[i..i + 1][0];
      ReadsBack(s, i + 1, n / 256, k - 1);
    }
  }

  /** A number inside a part is read where the part stands. */
  lemma {:induction false} ReadInside(s: seq<Byte>, i: nat, part: seq<Byte>, j: nat, k: nat)
    requires At(s, i, part) && j + k <= |part|
    ensures ReadLE(s, i + j, k) == ReadLE(part, j, k)
    decreases k
  {
    if k != 0 {
      assert s[i + j] == s[i..i + |part|][j];
      ReadInside(s, i, part, j + 1, k - 1);
    }
  }

  /** memcpy: `part` over what stands at `offset`. */
  function Overlay(raw: seq<Byte>, offset: nat, part: seq<Byte>): (r: seq<Byte>)
    requires offset + |part| <= |raw|
    ensures |r| == |raw| && At(r, offset, part)
    ensures forall i :: 0 <= i < |raw| && (i < offset || offset + |part| <= i) ==> r[i] == raw[i]
  {
    raw[..offset] + part + raw[offset + |part|..]
  }
}
