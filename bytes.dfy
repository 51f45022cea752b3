/** Bytes, unsigned 32-bit words and the byte-level helpers the section reader uses:
    the big-endian word read (`Buffer.readUInt32BE`), `Buffer.slice` with its clamping,
    and the removal of trailing NUL bytes (`replace(/\0+$/, "")`). Text is kept as bytes;
    no UTF-8 decoding is modelled. */
module Bytes {

  type uint8 = x: int | 0 <= x < 0x100
  type uint32 = x: int | 0 <= x < 0x1_0000_0000

  /** The big-endian value of the four bytes starting at `p`. */
  function U32At(buf: seq<uint8>, p: nat): uint32
    requires p + 4 <= |buf|
  {
    (buf[p] as int) * 0x100_0000 + (buf[p + 1] as int) * 0x1_0000 + (buf[p + 2] as int) * 0x100 + buf[p + 3]
  }

  /** The four bytes are the base-256 digits of the word, most significant first. */
  lemma U32AtDigits(buf: seq<uint8>, p: nat)
    requires p + 4 <= |buf|
    ensures U32At(buf, p) / 0x100_0000 == buf[p]
    ensures U32At(buf, p) / 0x1_0000 % 0x100 == buf[p + 1]
    ensures U32At(buf, p) / 0x100 % 0x100 == buf[p + 2]
    ensures U32At(buf, p) % 0x100 == buf[p + 3]
  {
    var w := U32At(buf, p);
    var b0: int, b1: int, b2: int, b3: int := buf[p], buf[p + 1], buf[p + 2], buf[p + 3];
    var hi, lo := w / 0x1_0000, w % 0x1_0000;
    assert hi == b0 * 0x100 + b1 && lo == b2 * 0x100 + b3;
    assert w / 0x100 == hi * 0x100 + b2;
  }

  /** Two big-endian reads give the same word only when they read the same four bytes. */
  lemma U32AtInjective(a: seq<uint8>, p: nat, b: seq<uint8>, q: nat)
    requires p + 4 <= |a| && q + 4 <= |b|
    requires U32At(a, p) == U32At(b, q)
    ensures a[p..p + 4] == b[q..q + 4]
  {
    U32AtDigits(a, p);
    U32AtDigits(b, q);
  }

  /** `n` consecutive big-endian words starting at `q`. */
  function Words(buf: seq<uint8>, q: nat, n: nat): (r: seq<uint32>)
    requires q + 4 * n <= |buf|
    ensures |r| == n
    ensures forall i :: 0 <= i < n ==> r[i] == U32At(buf, q + 4 * i)
  {
    seq(n, i requires 0 <= i < n => U32At(buf, q + 4 * i))
  }

  /** Reading `n + m` words is reading `n` words and then `m` more where they end. */
  lemma WordsSplit(buf: seq<uint8>, q: nat, n: nat, m: nat)
    requires q + 4 * (n + m) <= |buf|
    ensures Words(buf, q, n + m) == Words(buf, q, n) + Words(buf, q + 4 * n, m)
  {
    var a, b, c := Words(buf, q, n + m), Words(buf, q, n), Words(buf, q + 4 * n, m);
    forall i | n <= i < n + m
      ensures a[i] == c[i - n]
    {
      assert q + 4 * i == (q + 4 * n) + 4 * (i - n);
    }
  }

  /** `Buffer.slice(from, to)`: both ends are clamped to the buffer, and an end at or
      before the start gives an empty span. */
  function Slice(buf: seq<uint8>, from: nat, to: nat): seq<uint8>
  {
    var lo := if from < |buf| then from else |buf|;
    var hi := if to < |buf| then to else |buf|;
    if lo < hi then buf[lo..hi] else []
  }

  /** The bytes before the run of NUL bytes that ends `s` (all of `s` when it does not end
      in NUL). */
  function StripTrailingNul(s: seq<uint8>): (r: seq<uint8>)
    ensures |r| <= |s| && r == s[..|r|]
    ensures r == [] || r[|r| - 1] != 0
    ensures forall i :: |r| <= i < |s| ==> s[i] == 0
  {
    if |s| > 0 && s[|s| - 1] == 0 then StripTrailingNul(s[..|s| - 1]) else s
  }

  /** Stripping is idempotent, and it leaves a sequence alone exactly when that sequence
      does not end in NUL. */
  lemma StripTrailingNulIdempotent(s: seq<uint8>)
    ensures StripTrailingNul(StripTrailingNul(s)) == StripTrailingNul(s)
    ensures StripTrailingNul(s) == s <==> (s == [] || s[|s| - 1] != 0)
  {
  }
}
