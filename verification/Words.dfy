/** Machine words: bytes, 32-bit words, 64-bit values held as two words, and the
    two bit operations whose operands may overlap. */
module Words {
  type byte = b: int | 0 <= b < 0x100
  type word = w: int | 0 <= w < 0x1_0000_0000
  type word64 = w: int | 0 <= w < 0x1_0000_0000_0000_0000

  /** `struct longlong`: a 64-bit value as two 32-bit halves. */
  datatype Longlong = Longlong(low: word, hi: word)

  function Join(v: Longlong): word64 {
    v.low + v.hi * 0x1_0000_0000
  }

  function Split(n: word64): Longlong {
    Longlong(n % 0x1_0000_0000, n / 0x1_0000_0000)
  }

  lemma SplitJoin(n: word64, v: Longlong)
    ensures Join(Split(n)) == n
    ensures Split(Join(v)) == v
  {
  }

  /** The `int` a 32-bit pattern denotes in two's complement. */
  function ToInt32(w: word): (n: int)
    ensures -0x8000_0000 <= n < 0x8000_0000
    ensures (n - w) % 0x1_0000_0000 == 0
  {
    if w < 0x8000_0000 then w else w - 0x1_0000_0000
  }

  /** The 32-bit pattern of an `int` (or of any integer, modulo 2^32). */
  function FromInt(n: int): word {
    n % 0x1_0000_0000
  }

  /** `v ^ m` where m is 0 or all ones, the only masks the zigzag code uses. */
  function Flip32(v: word, ones: bool): word {
    if ones then 0xFFFF_FFFF - v else v
  }

  /** Four bytes, least significant first. */
  function Le32(w: word): (bs: seq<byte>)
    ensures |bs| == 4
  {
    [w % 0x100, w / 0x100 % 0x100, w / 0x100 / 0x100 % 0x100, w / 0x100 / 0x100 / 0x100]
  }

  function OfLe32(bs: seq<byte>): word
    requires |bs| >= 4
  {
    bs[0] as int + bs[1] as int * 0x100 + bs[2] as int * 0x1_0000 + bs[3] as int * 0x100_0000
  }

  lemma Le32RoundTrip(w: word, rest: seq<byte>)
    ensures OfLe32(Le32(w) + rest) == w
  {
    var bs := Le32(w) + rest;
    var q := w / 0x100;
    var r := q / 0x100;
    assert bs[0] == w % 0x100 && bs[1] == q % 0x100 && bs[2] == r % 0x100 && bs[3] == r / 0x100;
  }

  /** Bitwise or, written out bit by bit. */
  function Or(a: nat, b: nat): nat
    decreases a + b
  {
    if a == 0 then b
    else if b == 0 then a
    else (if a % 2 == 1 || b % 2 == 1 then 1 else 0) + 2 * Or(a / 2, b / 2)
  }

  /** Bitwise exclusive or. */
  function Xor(a: nat, b: nat): nat
    decreases a + b
  {
    if a == 0 then b
    else if b == 0 then a
    else (a + b) % 2 + 2 * Xor(a / 2, b / 2)
  }

  lemma OrEight(a: nat)
    ensures Or(a, 8) == if a / 8 % 2 == 1 then a else a + 8
  {
    assert Or(a / 8, 1) == if a / 8 % 2 == 1 then a / 8 else a / 8 + 1;
    assert Or(a / 4, 2) == if a < 4 then 2 else a / 4 % 2 + 2 * Or(a / 8, 1);
    assert Or(a / 2, 4) == if a < 2 then 4 else a / 2 % 2 + 2 * Or(a / 4, 2);
  }

  /** s with bs written over it from position at. */
  function Patched(s: seq<byte>, at: nat, bs: seq<byte>): (t: seq<byte>)
    requires at + |bs| <= |s|
    ensures |t| == |s|
  {
    s[..at] + bs + s[at + |bs|..]
  }

  /** Two writes in a row are one. */
  lemma PatchedTwice(s: seq<byte>, at: nat, a: seq<byte>, b: seq<byte>)
    requires at + |a| + |b| <= |s|
    ensures Patched(Patched(s, at, a), at + |a|, b) == Patched(s, at, a + b)
  {
  }

  lemma IsPatched(s: seq<byte>, t: seq<byte>, at: nat, bs: seq<byte>)
    requires |t| == |s| && at + |bs| <= |s|
    requires forall k | 0 <= k < |bs| :: t[at + k] == bs[k]
    requires forall k | 0 <= k < at || at + |bs| <= k < |s| :: t[k] == s[k]
    ensures t == Patched(s, at, bs)
  {
  }

  /** Bitwise and. */
  function And(a: nat, b: nat): nat
    decreases a + b
  {
    if a == 0 || b == 0 then 0
    else (if a % 2 == 1 && b % 2 == 1 then 1 else 0) + 2 * And(a / 2, b / 2)
  }

  predicate PowerOfTwo(n: nat) {
    n == 1 || (n > 1 && n % 2 == 0 && PowerOfTwo(n / 2))
  }

  /** Masking with a power of two less one is the remainder. */
  lemma {:induction false} AndMask(a: nat, n: nat)
    requires PowerOfTwo(n)
    ensures And(a, n - 1) == a % n < n
  {
    if n > 1 {
      var d := n / 2;
      AndMask(a / 2, d);
      DoubleRemainder(a, d);
      assert (n - 1) / 2 == d - 1 && (n - 1) % 2 == 1;
    }
  }

  lemma DoubleRemainder(a: nat, d: nat)
    requires d > 0
    ensures a % (2 * d) == 2 * (a / 2 % d) + a % 2
  {
    var q, r := a / 2 / d, a / 2 % d;
    assert a / 2 == q * d + r;
    assert q * (2 * d) == 2 * (q * d);
    RemainderIs(a, 2 * d, q, 2 * r + a % 2);
  }

  lemma RemainderIs(a: int, n: nat, q: int, r: nat)
    requires r < n && a == q * n + r
    ensures a % n == r
  {
    assert a - a % n == a / n * n;
    assert (q - a / n) * n == a % n - r;
    AtLeastOnce(q - a / n, n);
  }

  lemma AtLeastOnce(k: int, n: int)
    requires n >= 0
    ensures k >= 1 ==> k * n >= n
    ensures k <= -1 ==> k * n <= -n
  {
  }

  /** A C string: the bytes up to the first terminator, or all if there is none. */
  function CString(bs: seq<byte>): (r: seq<byte>)
    ensures |r| <= |bs| && r == bs[..|r|] && (|r| < |bs| ==> bs[|r|] == 0)
    ensures forall i | 0 <= i < |r| :: bs[i] != 0
  {
    if bs == [] || bs[0] == 0 then [] else [bs[0]] + CString(bs[1..])
  }

  /** The next index of a circle of n. */
  lemma Wraps(i: nat, n: nat)
    requires i < n
    ensures (i + 1) % n == if i + 1 == n then 0 else i + 1
  {
    if i + 1 == n { RemainderIs(n, n, 1, 0); } else { RemainderIs(i + 1, n, 0, i + 1); }
  }
}
