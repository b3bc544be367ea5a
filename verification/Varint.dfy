/** Base-128 varints and the zigzag mapping (ext/pbc/src/varint.c). */
module Varint {
  import opened Words
  import opened Wrappers

  // ---- the record grammar's number: minimal base-128, least significant group first

  /** The minimal base-128 form of n. */
  function Bytes(n: nat): (bs: seq<byte>)
    ensures |bs| >= 1
  {
    if n < 0x80 then [n] else [n % 0x80 + 0x80] + Bytes(n / 0x80)
  }

  /** Every byte but the last carries the continuation bit. */
  predicate WellFormed(bs: seq<byte>) {
    |bs| > 0 && bs[|bs| - 1] < 0x80 && forall i | 0 <= i < |bs| - 1 :: bs[i] >= 0x80
  }

  /** The number a group sequence denotes, without any width limit. */
  function Number(bs: seq<byte>): nat {
    if bs == [] then 0 else bs[0] % 0x80 + 0x80 * Number(bs[1..])
  }

  lemma {:induction false} BytesDenote(n: nat)
    ensures WellFormed(Bytes(n)) && Number(Bytes(n)) == n
    ensures |Bytes(n)| > 1 ==> Bytes(n)[|Bytes(n)| - 1] != 0
  {
    if n >= 0x80 {
      BytesDenote(n / 0x80);
      assert Bytes(n)[1..] == Bytes(n / 0x80);
    }
  }

  /** Minimality and uniqueness: a well-formed group sequence without a redundant
      final zero group is exactly `Bytes` of the number it denotes, and any
      well-formed sequence for n is at least as long as `Bytes(n)`. */
  lemma {:induction false} BytesUnique(bs: seq<byte>)
    requires WellFormed(bs)
    ensures |bs| >= |Bytes(Number(bs))|
    ensures |bs| == 1 || bs[|bs| - 1] != 0 <==> bs == Bytes(Number(bs))
  {
    if |bs| > 1 {
      BytesUnique(bs[1..]);
      var n := Number(bs);
      assert n / 0x80 == Number(bs[1..]) && n % 0x80 == bs[0] % 0x80;
      if bs[|bs| - 1] != 0 {
        NonZero(bs[1..]);
        assert bs == [bs[0]] + bs[1..];
      } else if n >= 0x80 {
        assert Bytes(n)[1..] == Bytes(n / 0x80);
      }
    }
  }

  lemma {:induction false} NonZero(bs: seq<byte>)
    requires WellFormed(bs) && bs[|bs| - 1] != 0
    ensures Number(bs) > 0
  {
    if |bs| > 1 {
      NonZero(bs[1..]);
    }
  }

  lemma BytesLength(n: nat)
    ensures n < 0x80 ==> |Bytes(n)| == 1
    ensures 0x80 <= n < 0x4000 ==> |Bytes(n)| == 2
    ensures 0x4000 <= n < 0x20_0000 ==> |Bytes(n)| == 3
    ensures 0x20_0000 <= n < 0x1000_0000 ==> |Bytes(n)| == 4
    ensures 0x1000_0000 <= n < 0x8_0000_0000 ==> |Bytes(n)| == 5
  {
    if n >= 0x80 { BytesLength(n / 0x80); }
  }

  lemma {:induction false} BytesMonotone(m: nat, n: nat)
    requires m <= n
    ensures |Bytes(m)| <= |Bytes(n)|
  {
    if m >= 0x80 { BytesMonotone(m / 0x80, n / 0x80); }
  }

  lemma BytesAtMost(n: nat)
    ensures n < 0x1_0000_0000 ==> |Bytes(n)| <= 5
    ensures n < 0x1_0000_0000_0000_0000 ==> |Bytes(n)| <= 10
  {
    BytesLength(n);
    if n >= 0x8_0000_0000 { BytesLength(n / 0x8_0000_0000); SkipFive(n); }
  }

  lemma SkipFive(n: nat)
    requires n >= 0x8_0000_0000
    ensures |Bytes(n)| == 5 + |Bytes(n / 0x8_0000_0000)|
  {
    var a := n / 0x80;
    var b := a / 0x80;
    var c := b / 0x80;
    var d := c / 0x80;
    assert d / 0x80 == n / 0x8_0000_0000;
    assert |Bytes(d)| == 1 + |Bytes(d / 0x80)|;
    assert |Bytes(c)| == 1 + |Bytes(d)|;
    assert |Bytes(b)| == 1 + |Bytes(c)|;
    assert |Bytes(a)| == 1 + |Bytes(b)|;
  }

  /** n without its i lowest groups. */
  function Shifted(n: nat, i: nat): nat {
    if i == 0 then n else Shifted(n, i - 1) / 0x80
  }

  lemma {:induction false} ShiftedFirst(n: nat, i: nat)
    requires i > 0
    ensures Shifted(n, i) == Shifted(n / 0x80, i - 1)
  {
    if i > 1 { ShiftedFirst(n, i - 1); }
  }

  lemma ShiftedAre(n: nat)
    ensures Shifted(n, 0) == n && Shifted(n, 1) == n / 0x80 && Shifted(n, 2) == n / 0x4000
    ensures Shifted(n, 3) == n / 0x20_0000 && Shifted(n, 4) == n / 0x1000_0000
  {
  }

  /** Byte i of the minimal form. */
  lemma {:induction false} ByteAt(n: nat, i: nat)
    requires i < |Bytes(n)|
    ensures i + 1 == |Bytes(n)| <==> Shifted(n, i) < 0x80
    ensures Bytes(n)[i] == if Shifted(n, i) < 0x80 then Shifted(n, i) else Shifted(n, i) % 0x80 + 0x80
    ensures Shifted(n, i + 1) == Shifted(n, i) / 0x80
  {
    if n >= 0x80 && i > 0 {
      ShiftedFirst(n, i);
      ByteAt(n / 0x80, i - 1);
      assert Bytes(n)[i] == Bytes(n / 0x80)[i - 1];
    }
  }

  // ---- encoders

  /** `_pbcV_encode32`: the unrolled form. */
  method Encode32(number: word, buffer: array<byte>, at: nat) returns (len: nat)
    requires at + 10 <= buffer.Length
    modifies buffer
    ensures len == |Bytes(number)| <= 5
    ensures at + len <= buffer.Length && buffer[..] == Patched(old(buffer[..]), at, Bytes(number))
  {
    BytesLength(number);
    ShiftedAre(number);
    ghost var was, all := buffer[..], Bytes(number);
    forall k | 0 <= k < |all| { ByteAt(number, k); }
    hide Bytes, Shifted;
    if number < 0x80 {
      buffer[at] := number;
      IsPatched(was, buffer[..], at, all);
      return 1;
    }
    buffer[at] := number % 0x80 + 0x80;
    if number < 0x4000 {
      buffer[at + 1] := number / 0x80;
      IsPatched(was, buffer[..], at, all);
      return 2;
    }
    buffer[at + 1] := number / 0x80 % 0x80 + 0x80;
    if number < 0x20_0000 {
      buffer[at + 2] := number / 0x4000;
      IsPatched(was, buffer[..], at, all);
      return 3;
    }
    buffer[at + 2] := number / 0x4000 % 0x80 + 0x80;
    if number < 0x1000_0000 {
      buffer[at + 3] := number / 0x20_0000;
      IsPatched(was, buffer[..], at, all);
      return 4;
    }
    buffer[at + 3] := number / 0x20_0000 % 0x80 + 0x80;
    buffer[at + 4] := number / 0x1000_0000;
    IsPatched(was, buffer[..], at, all);
    return 5;
  }

  /** `_pbcV_encode`: a loop once the value needs more than 32 bits. */
  method Encode(number: word64, buffer: array<byte>, at: nat) returns (len: nat)
    requires at + 10 <= buffer.Length
    modifies buffer
    ensures len == |Bytes(number)| <= 10
    ensures at + len <= buffer.Length && buffer[..] == Patched(old(buffer[..]), at, Bytes(number))
  {
    BytesAtMost(number);
    hide Bytes, Shifted;
    if number % 0x1_0000_0000 == number {
      len := Encode32(number, buffer, at);
      return;
    }
    ghost var all, was := Bytes(number), buffer[..];
    var n: nat := number;
    var i := 0;
    ShiftedAre(number);
    while true
      invariant n >= 0x80 && i < |all| && n == Shifted(number, i)
      invariant forall k | 0 <= k < i :: buffer[at + k] == all[k]
      invariant forall k | 0 <= k < at || at + i <= k < buffer.Length :: buffer[k] == was[k]
      decreases n
    {
      ByteAt(number, i);
      buffer[at + i] := n % 0x80 + 0x80;
      n := n / 0x80;
      i := i + 1;
      ByteAt(number, i);
      if n < 0x80 { break; }
    }
    buffer[at + i] := n;
    IsPatched(was, buffer[..], at, all);
    return i + 1;
  }

  // ---- decoder

  /** What one varint read yields. */
  datatype Varint = Varint(len: nat, value: Longlong)

  /** The first groups, at most four; they fill disjoint bits, so `|` is `+`. */
  function LowGroups(bs: seq<byte>, n: nat): (r: int)
    requires n <= 4 && n <= |bs|
    ensures 0 <= r < (if n == 0 then 1 else Weight(n - 1) * 0x80)
  {
    if n == 0 then 0 else LowGroups(bs, n - 1) + (bs[n - 1] % 0x80) as int * Weight(n - 1)
  }

  /** 2^(7 * i) */
  function Weight(i: nat): nat
    requires i < 4
  {
    if i == 0 then 1 else if i == 1 then 0x80 else if i == 2 then 0x4000 else 0x20_0000
  }

  /** `(g << count)` for a 7-bit g, computed in a 32-bit `int` whose shifter takes the
      count modulo 32, then widened to `uint64_t` with its sign. */
  function ShiftInt(g: nat, count: nat): (r: word64)
    requires g < 0x80 && count <= 35 && count % 7 == 0
  {
    var w := (if count == 0 then g
              else if count == 7 then g * 0x80
              else if count == 14 then g * 0x4000
              else if count == 21 then g * 0x20_0000
              else if count == 28 then g % 0x10 * 0x1000_0000
              else g * 8);
    if w < 0x8000_0000 then w else w + 0xFFFF_FFFF_0000_0000
  }

  /** One step of the second loop: group i joins the accumulator `lr`. Up to group 8
      the groups fill disjoint bits. */
  function AddHigh(lr: nat, b: byte, i: nat): nat
    requires 4 <= i < 10
  {
    var g := ShiftInt(b % 0x80, 7 * (i - 4));
    if i < 9 then lr + g else Or(lr, g)
  }

  /** Groups five to ten as the code accumulates them. */
  function HighGroups(bs: seq<byte>, n: nat): nat
    requires 4 <= n <= 10 && n <= |bs|
  {
    if n == 4 then 0 else AddHigh(HighGroups(bs, n - 1), bs[n - 1], n - 1)
  }

  /** The number of leading continuation bytes, at most ten. */
  function Continued(bs: seq<byte>, from: nat): (n: nat)
    requires from <= |bs| && from <= 10
    ensures from <= n <= |bs| && n <= 10
    ensures forall i | from <= i < n :: bs[i] >= 0x80
    ensures n < |bs| && n < 10 ==> bs[n] < 0x80
    decreases 10 - from
  {
    if from == 10 || from == |bs| || bs[from] < 0x80 then from else Continued(bs, from + 1)
  }

  function Assemble(bs: seq<byte>, n: nat): Longlong
    requires 1 <= n <= 10 && n <= |bs|
  {
    if n <= 4 then Longlong(LowGroups(bs, n), 0)
    else
      var lr := HighGroups(bs, n);
      Longlong(LowGroups(bs, 4) + lr % 0x10 * 0x1000_0000, lr / 0x10 % 0x1_0000_0000)
  }

  /** What `_pbcV_decode` computes from a byte sequence: nothing when the sequence ends
      inside a varint of fewer than ten bytes, zero when ten continuation bytes run. */
  function Read(bs: seq<byte>): (v: Option<Varint>)
    ensures v.Some? ==> 1 <= v.value.len <= 10 && v.value.len <= |bs|
  {
    var n := Continued(bs, 0);
    if n == 10 then Some(Varint(10, Longlong(0, 0)))
    else if n < |bs| then Some(Varint(n + 1, Assemble(bs, n + 1)))
    else None
  }

  /** `_pbcV_decode`, which may look at ten bytes. */
  method Decode(buffer: seq<byte>) returns (len: nat, value: Longlong)
    requires |buffer| >= 10
    ensures Read(buffer) == Some(Varint(len, value))
  {
    hide LowGroups, HighGroups, AddHigh, Continued, Read;
    ReadSteps(buffer, 0);
    ReadEnds(buffer);
    if buffer[0] < 0x80 {
      return 1, Longlong(buffer[0], 0);
    }
    var r: nat := buffer[0] % 0x80;
    var i := 1;
    while i < 4
      invariant 1 <= i <= 4
      invariant Continued(buffer, 0) == Continued(buffer, i)
      invariant r == LowGroups(buffer, i)
    {
      ReadSteps(buffer, i);
      r := r + (buffer[i] % 0x80) as int * Weight(i);
      if buffer[i] < 0x80 {
        return i + 1, Longlong(r, 0);
      }
      i := i + 1;
    }
    var lr: nat := 0;
    while i < 10
      invariant 4 <= i <= 10
      invariant Continued(buffer, 0) == Continued(buffer, i)
      invariant lr == HighGroups(buffer, i)
    {
      ReadSteps(buffer, i);
      lr := AddHigh(lr, buffer[i], i);
      if buffer[i] < 0x80 {
        return i + 1, Longlong(r + lr % 0x10 * 0x1000_0000, lr / 0x10 % 0x1_0000_0000);
      }
      i := i + 1;
    }
    return 10, Longlong(0, 0);
  }

  /** One group more. */
  lemma {:induction false} ReadSteps(bs: seq<byte>, i: nat)
    requires i < 10 <= |bs|
    ensures Continued(bs, i) == if bs[i] < 0x80 then i else Continued(bs, i + 1)
    ensures i < 4 ==> LowGroups(bs, i + 1) == LowGroups(bs, i) + (bs[i] % 0x80) as int * Weight(i)
    ensures i >= 4 ==> HighGroups(bs, i + 1) == AddHigh(HighGroups(bs, i), bs[i], i)
    ensures LowGroups(bs, 0) == 0 && HighGroups(bs, 4) == 0 && Continued(bs, 10) == 10
  {
    hide AddHigh;
  }

  /** Where the groups end is what is read. */
  lemma {:induction false} ReadEnds(bs: seq<byte>)
    requires |bs| >= 10
    ensures var k := Continued(bs, 0);
            Read(bs) == Some(
              if k == 10 then Varint(10, Longlong(0, 0))
              else if k < 4 then Varint(k + 1, Longlong(LowGroups(bs, k + 1), 0))
              else
                var lr := HighGroups(bs, k + 1);
                Varint(k + 1, Longlong(LowGroups(bs, 4) + lr % 0x10 * 0x1000_0000, lr / 0x10 % 0x1_0000_0000)))
  {
    hide LowGroups, HighGroups, Continued;
  }

  /** Only the bytes up to the last one consumed matter. */
  lemma ReadPrefix(bs: seq<byte>, cs: seq<byte>)
    requires Read(bs).Some?
    requires Read(bs).value.len <= |cs| && bs[..Read(bs).value.len] == cs[..Read(bs).value.len]
    ensures Read(cs) == Read(bs)
  {
    var len := Read(bs).value.len;
    forall i | 0 <= i < len ensures bs[i] == cs[i] {
      assert bs[i] == bs[..len][i] && cs[i] == cs[..len][i];
    }
    ContinuedPrefix(bs, cs, 0, len);
    LowPrefix(bs, cs, if len < 4 then len else 4);
    if len > 4 { HighPrefix(bs, cs, len); }
  }

  lemma {:induction false} ContinuedPrefix(bs: seq<byte>, cs: seq<byte>, from: nat, len: nat)
    requires from <= len <= 10 && len <= |bs| && len <= |cs|
    requires forall i | 0 <= i < len :: bs[i] == cs[i]
    requires Continued(bs, from) == 10 == len || Continued(bs, from) + 1 == len
    ensures Continued(cs, from) == Continued(bs, from)
    decreases len - from
  {
    if from < len && bs[from] >= 0x80 { ContinuedPrefix(bs, cs, from + 1, len); }
  }

  lemma {:induction false} LowPrefix(bs: seq<byte>, cs: seq<byte>, n: nat)
    requires n <= 4 && n <= |bs| && n <= |cs|
    requires forall i | 0 <= i < n :: bs[i] == cs[i]
    ensures LowGroups(bs, n) == LowGroups(cs, n)
  {
    if n > 0 { LowPrefix(bs, cs, n - 1); }
  }

  lemma {:induction false} HighPrefix(bs: seq<byte>, cs: seq<byte>, n: nat)
    requires 4 <= n <= 10 && n <= |bs| && n <= |cs|
    requires forall i | 0 <= i < n :: bs[i] == cs[i]
    ensures HighGroups(bs, n) == HighGroups(cs, n)
  {
    if n > 4 { HighPrefix(bs, cs, n - 1); }
  }

  // ---- encoder and decoder together

  /** What the decoder makes of the encoding of n. */
  function Seen(n: word64): Longlong {
    BytesAtMost(n);
    Assemble(Bytes(n), |Bytes(n)|)
  }

  /** The values the decoder gets back. The first disjunct is where every shift in the
      second loop stays inside an `int`. In the second, groups nine and ten do not, but
      the sign the ninth group leaves behind and the bit the tenth one lands on happen
      to be those of n: these are the negative numbers above -2^59 with bit 31 set,
      among them every negative 32-bit integer. */
  predicate Exact(n: word64) {
    n < 0x800_0000_0000_0000 || (n >= 0xF800_0000_0000_0000 && n / 0x8000_0000 % 2 == 1)
  }

  /** Reading the encoding of n, whatever follows it, consumes exactly that encoding. */
  lemma ReadEncoded(n: word64, rest: seq<byte>)
    ensures |Bytes(n)| <= 10
    ensures Read(Bytes(n) + rest) == Some(Varint(|Bytes(n)|, Seen(n)))
  {
    var bs := Bytes(n);
    BytesDenote(n);
    BytesAtMost(n);
    ContinuedWellFormed(bs, 0);
    assert Read(bs) == Some(Varint(|bs|, Seen(n)));
    assert (bs + rest)[..|bs|] == bs == bs[..|bs|];
    ReadPrefix(bs, bs + rest);
  }

  lemma {:induction false} ContinuedWellFormed(bs: seq<byte>, from: nat)
    requires WellFormed(bs) && from < |bs| <= 10
    ensures Continued(bs, from) == |bs| - 1
    decreases |bs| - from
  {
    if from < |bs| - 1 { ContinuedWellFormed(bs, from + 1); }
  }

  lemma {:induction false} GroupAt(n: nat, i: nat)
    requires i < |Bytes(n)|
    ensures Bytes(n)[i] % 0x80 == Shifted(n, i) % 0x80
    ensures i + 1 == |Bytes(n)| ==> Shifted(n, i) < 0x80
    ensures i > 0 ==> Shifted(n, i) > 0
  {
    if n >= 0x80 && i > 0 {
      ShiftedFirst(n, i);
      GroupAt(n / 0x80, i - 1);
      assert Bytes(n)[i] == Bytes(n / 0x80)[i - 1];
    }
  }

  lemma {:induction false} LowIs(n: nat, k: nat)
    requires k <= 4 && k <= |Bytes(n)|
    ensures n == LowGroups(Bytes(n), k) + Shifted(n, k) * Span(k)
  {
    if k > 0 {
      LowIs(n, k - 1);
      GroupAt(n, k - 1);
      TakeGroup(Shifted(n, k - 1), k);
    }
  }

  /** 2^(7 * k) */
  function Span(k: nat): nat
    requires k <= 4
  {
    if k == 0 then 1 else Weight(k - 1) * 0x80
  }

  lemma TakeGroup(s: nat, k: nat)
    requires 1 <= k <= 4
    ensures s * Span(k - 1) == s % 0x80 * Weight(k - 1) + s / 0x80 * Span(k)
  {
    assert s == s % 0x80 + s / 0x80 * 0x80;
    if k == 1 {} else if k == 2 {} else if k == 3 {} else {}
  }

  lemma {:induction false} HighIs(n: nat, k: nat)
    requires 4 <= k <= 8 && k <= |Bytes(n)|
    ensures Shifted(n, 4) == HighGroups(Bytes(n), k) + Shifted(n, k) * Span(k - 4)
    ensures HighGroups(Bytes(n), k) < Span(k - 4)
  {
    if k > 4 {
      HighIs(n, k - 1);
      GroupAt(n, k - 1);
      TakeGroup(Shifted(n, k - 1), k - 4);
      ShiftWeight(Bytes(n)[k - 1] % 0x80, k - 5);
      hide ShiftInt, Bytes, Shifted;
    }
  }

  lemma {:induction false} ShiftWeight(g: nat, i: nat)
    requires g < 0x80 && i <= 3
    ensures ShiftInt(g, 7 * i) == g * Weight(i)
  {
  }

  lemma SeenSmall(n: word64)
    requires |Bytes(n)| <= 8
    ensures Seen(n) == Split(n)
    ensures n < 0x100_0000_0000_0000
  {
    BytesAtMost(n);
    hide Seen, Bytes, LowGroups, HighGroups;
    var k := |Bytes(n)|;
    GroupAt(n, k - 1);
    assert Shifted(n, k) == Shifted(n, k - 1) / 0x80 == 0;
    if k <= 4 {
      LowIs(n, k);
      SeenLow(n);
    } else {
      LowIs(n, 4);
      HighIs(n, k);
      SeenHalves(n);
    }
    BytesBelow(n, k);
  }

  lemma SeenLow(n: word64)
    requires |Bytes(n)| <= 4 && LowGroups(Bytes(n), |Bytes(n)|) == n
    ensures Seen(n) == Split(n)
  {
  }

  lemma {:induction false} BytesBelow(n: nat, k: nat)
    requires |Bytes(n)| <= k <= 8
    ensures n < 0x100_0000_0000_0000
    ensures k <= 4 ==> n < 0x1000_0000
    ensures k <= 1 ==> n < 0x80
    ensures k <= 2 ==> n < 0x4000
    ensures k <= 3 ==> n < 0x20_0000
    ensures k <= 5 ==> n < 0x8_0000_0000
    ensures k <= 6 ==> n < 0x400_0000_0000
    ensures k <= 7 ==> n < 0x2_0000_0000_0000
  {
    if k > 1 && n >= 0x80 { BytesBelow(n / 0x80, k - 1); }
  }

  lemma SeenParts(n: word64)
    requires |Bytes(n)| > 4
    ensures |Bytes(n)| <= 10
    ensures Seen(n).low == LowGroups(Bytes(n), 4) + HighGroups(Bytes(n), |Bytes(n)|) % 0x10 * 0x1000_0000
    ensures Seen(n).hi == HighGroups(Bytes(n), |Bytes(n)|) / 0x10 % 0x1_0000_0000
  {
    BytesAtMost(n);
  }

  lemma SeenHalves(n: word64)
    requires 4 < |Bytes(n)| <= 10
    requires n == LowGroups(Bytes(n), 4) + HighGroups(Bytes(n), |Bytes(n)|) * 0x1000_0000
    ensures Seen(n) == Split(n)
  {
    SeenParts(n);
    hide Seen, Bytes, LowGroups, HighGroups;
    var low, m := LowGroups(Bytes(n), 4), HighGroups(Bytes(n), |Bytes(n)|);
    HalvesOf(n, low, m);
    Small(m / 0x10, n);
  }

  lemma Small(k: nat, n: word64)
    requires k == n / 0x1_0000_0000
    ensures k % 0x1_0000_0000 == k
  {
  }

  lemma HalvesOf(n: nat, low: nat, m: nat)
    requires n == low + m * 0x1000_0000 && low < 0x1000_0000
    ensures n % 0x1_0000_0000 == low + m % 0x10 * 0x1000_0000
    ensures n / 0x1_0000_0000 == m / 0x10
  {
  }

  /** The pieces of a value of nine or ten groups: 28 low bits, 28 middle bits, the
      ninth group and, if there is one, the tenth. */
  lemma Pieces(n: word64) returns (low: nat, h: nat, g: nat, top: nat)
    requires |Bytes(n)| >= 9
    ensures |Bytes(n)| <= 10
    ensures low == LowGroups(Bytes(n), 4) < 0x1000_0000
    ensures h < 0x1000_0000 && g == Bytes(n)[8] % 0x80
    ensures HighGroups(Bytes(n), 9) == h + ShiftInt(g, 28)
    ensures n == low + (h + (g + top * 0x80) * 0x1000_0000) * 0x1000_0000
    ensures |Bytes(n)| == 9 ==> top == 0 < g
    ensures |Bytes(n)| == 10 ==> top == 1 == Bytes(n)[9] % 0x80
  {
    BytesAtMost(n);
    var bs := Bytes(n);
    LowIs(n, 4);
    HighIs(n, 8);
    GroupAt(n, 8);
    low, h, g, top := LowGroups(bs, 4), HighGroups(bs, 8), bs[8] % 0x80, Shifted(n, 8) / 0x80;
    assert HighGroups(bs, 9) == AddHigh(h, bs[8], 8);
    assert Shifted(n, 8) == g + top * 0x80;
    if |bs| == 10 {
      GroupAt(n, 9);
      assert Shifted(n, 9) == top;
    }
  }

  /** The upper word the decoder assembles from the middle bits and the ninth group. */
  function HighWord(h: nat, g: nat): nat {
    h / 0x10 + g % 0x10 * 0x100_0000 + (if g % 0x10 < 8 then 0 else 0xF000_0000)
  }

  lemma SeenNine(n: word64)
    requires |Bytes(n)| == 9
    ensures Seen(n) == Split(n) <==> n < 0x800_0000_0000_0000
    ensures n < 0x8000_0000_0000_0000
  {
    var low, h, g, top := Pieces(n);
    SeenParts(n);
    NinthGroup(h, g);
    NineWords(n, low, h, g);
  }

  lemma NineWords(n: nat, low: nat, h: nat, g: nat)
    requires low < 0x1000_0000 && h < 0x1000_0000 && g < 0x80
    requires n == low + (h + g * 0x1000_0000) * 0x1000_0000
    ensures n < 0x8000_0000_0000_0000
    ensures n % 0x1_0000_0000 == low + h % 0x10 * 0x1000_0000
    ensures n / 0x1_0000_0000 == HighWord(h, g) <==> n < 0x800_0000_0000_0000
  {
    var j, k := h % 0x10, h / 0x10 + g * 0x100_0000;
    assert n == low + j * 0x1000_0000 + k * 0x1_0000_0000;
    assert n / 0x1_0000_0000 == k && n % 0x1_0000_0000 == low + j * 0x1000_0000;
  }

  lemma NinthGroup(h: nat, g: nat)
    requires h < 0x1000_0000 && g < 0x80
    ensures (h + ShiftInt(g, 28)) % 0x10 == h % 0x10
    ensures (h + ShiftInt(g, 28)) / 0x10 % 0x1_0000_0000 == HighWord(h, g)
  {
    var s := g % 0x10 * 0x1000_0000;
    if g % 0x10 < 8 {
      assert ShiftInt(g, 28) == s;
      assert (h + s) / 0x10 == h / 0x10 + g % 0x10 * 0x100_0000;
    } else {
      assert ShiftInt(g, 28) == s + 0xFFFF_FFFF_0000_0000;
      var q := h / 0x10 + g % 0x10 * 0x100_0000;
      assert (h + ShiftInt(g, 28)) / 0x10 == q + 0xFFF_FFFF_F000_0000;
      assert q + 0xF000_0000 < 0x1_0000_0000;
      assert q + 0xFFF_FFFF_F000_0000 == q + 0xF000_0000 + 0xFFF_FFFF * 0x1_0000_0000;
    }
  }

  /** The tenth group, always 1, lands on bit 31 instead of bit 63. */
  lemma SeenTen(n: word64)
    requires |Bytes(n)| == 10
    ensures Seen(n) == Split(n) <==> n >= 0xF800_0000_0000_0000 && n / 0x8000_0000 % 2 == 1
    ensures n >= 0x8000_0000_0000_0000
  {
    var low, h, g, top := Pieces(n);
    SeenParts(n);
    NinthGroup(h, g);
    var lr := h + ShiftInt(g, 28);
    assert HighGroups(Bytes(n), 10) == AddHigh(lr, Bytes(n)[9], 9) == Or(lr, 8);
    OrEight(lr);
    BitThree(lr);
    TenWords(n, low, h, g);
  }

  lemma BitThree(lr: nat)
    ensures Or(lr, 8) / 0x10 == lr / 0x10
    ensures Or(lr, 8) % 0x10 == if lr % 0x10 < 8 then lr % 0x10 + 8 else lr % 0x10
  {
    OrEight(lr);
    assert lr / 8 % 2 == 1 <==> lr % 0x10 >= 8;
  }

  lemma TenWords(n: nat, low: nat, h: nat, g: nat)
    requires low < 0x1000_0000 && h < 0x1000_0000 && g < 0x80
    requires n == low + (h + (g + 0x80) * 0x1000_0000) * 0x1000_0000
    ensures n >= 0x8000_0000_0000_0000
    ensures n % 0x1_0000_0000 == low + (if h % 0x10 < 8 then h % 0x10 + 8 else h % 0x10) * 0x1000_0000
        <==> n / 0x8000_0000 % 2 == 1
    ensures n / 0x1_0000_0000 == HighWord(h, g) <==> n >= 0xF800_0000_0000_0000
  {
    var j, k := h % 0x10, h / 0x10 + (g + 0x80) * 0x100_0000;
    assert n == low + j * 0x1000_0000 + k * 0x1_0000_0000;
    assert n / 0x1_0000_0000 == k && n % 0x1_0000_0000 == low + j * 0x1000_0000;
    assert n / 0x8000_0000 == 2 * k + (if j >= 8 then 1 else 0);
    assert n >= 0xF800_0000_0000_0000 <==> g >= 0x78;
  }

  /** The decoder undoes the encoder on exactly the `Exact` values. */
  lemma SeenExact(n: word64)
    ensures Seen(n) == Split(n) <==> Exact(n)
  {
    BytesAtMost(n);
    if |Bytes(n)| <= 8 { SeenSmall(n); }
    else if |Bytes(n)| == 9 { SeenNine(n); }
    else { SeenTen(n); }
  }

  lemma ExactSmall(n: word64)
    ensures n < 0x800_0000_0000_0000 ==> Exact(n)
  {
  }

  /** A value the decoder gets wrong: 2^59 comes back as a negative number. */
  lemma SeenCounterexample()
    ensures Seen(0x800_0000_0000_0000) == Longlong(0, 0xF800_0000)
    ensures Seen(0x800_0000_0000_0000) != Split(0x800_0000_0000_0000)
  {
    hide Seen, Bytes, LowGroups, HighGroups;
    var n := 0x800_0000_0000_0000;
    BytesAtMost(n);
    if |Bytes(n)| <= 8 { BytesBelow(n, 8); }
    if |Bytes(n)| == 10 { SeenTen(n); }
    var low, h, g, top := Pieces(n);
    SeenParts(n);
    assert low == 0 && h == 0 && g == 8;
    NinthGroup(h, g);
  }

  // ---- zigzag

  /** `(n << 1) ^ (n >> 31)` on the 32-bit pattern of a signed n. */
  function ZigZag32(n: word): word {
    Flip32(2 * n % 0x1_0000_0000, n >= 0x8000_0000)
  }

  /** `(n << 1) ^ (n >> 63)` on the 64-bit pattern of a signed n. */
  function ZigZag64(n: word64): word64 {
    var d := 2 * n % 0x1_0000_0000_0000_0000;
    if n >= 0x8000_0000_0000_0000 then 0xFFFF_FFFF_FFFF_FFFF - d else d
  }

  /** `_pbcV_dezigzag64` */
  function DeZigZag64(v: Longlong): Longlong {
    var odd := v.low % 2 == 1;
    Longlong(Flip32(v.low / 2 + v.hi % 2 * 0x8000_0000, odd), Flip32(v.hi / 2, odd))
  }

  /** `_pbcV_dezigzag32`: the upper half is taken from the sign of the encoded word. */
  function DeZigZag32(v: Longlong): Longlong {
    Longlong(Flip32(v.low / 2, v.low % 2 == 1), if v.low >= 0x8000_0000 then 0xFFFF_FFFF else 0)
  }

  method PutZigZag32(n: word, buffer: array<byte>, at: nat) returns (len: nat)
    requires at + 10 <= buffer.Length
    modifies buffer
    ensures len == |Bytes(ZigZag32(n))| <= 5
    ensures at + len <= buffer.Length && buffer[..] == Patched(old(buffer[..]), at, Bytes(ZigZag32(n)))
  {
    len := Encode32(ZigZag32(n), buffer, at);
  }

  method PutZigZag64(n: word64, buffer: array<byte>, at: nat) returns (len: nat)
    requires at + 10 <= buffer.Length
    modifies buffer
    ensures len == |Bytes(ZigZag64(n))| <= 10
    ensures at + len <= buffer.Length && buffer[..] == Patched(old(buffer[..]), at, Bytes(ZigZag64(n)))
  {
    len := Encode(ZigZag64(n), buffer, at);
  }

  lemma DeZigZag64Inverse(n: word64)
    ensures DeZigZag64(Split(ZigZag64(n))) == Split(n)
  {
    ZigZag64Magnitude(n);
    if n < 0x8000_0000_0000_0000 {
      Doubled(n, 0);
    } else {
      Doubled(0xFFFF_FFFF_FFFF_FFFF - n, 1);
      SplitComplement(n);
    }
  }

  lemma SplitComplement(n: word64)
    ensures Split(0xFFFF_FFFF_FFFF_FFFF - n) == Longlong(0xFFFF_FFFF - Split(n).low, 0xFFFF_FFFF - Split(n).hi)
  {
    var a, b := Split(n).low, Split(n).hi;
    SplitIs(0xFFFF_FFFF_FFFF_FFFF - n, 0xFFFF_FFFF - a, 0xFFFF_FFFF - b);
  }

  lemma Doubled(m: word64, sign: nat)
    requires m < 0x8000_0000_0000_0000 && sign < 2
    ensures var v := Split(2 * m + sign);
            v.low / 2 + v.hi % 2 * 0x8000_0000 == Split(m).low && v.hi / 2 == Split(m).hi && v.low % 2 == sign
  {
    var a, b: nat := Split(m).low, Split(m).hi;
    assert m == a + b * 0x1_0000_0000;
    if a < 0x8000_0000 {
      SplitIs(2 * m + sign, 2 * a + sign, 2 * b);
    } else {
      SplitIs(2 * m + sign, 2 * a + sign - 0x1_0000_0000, 2 * b + 1);
    }
  }

  lemma SplitIs(n: word64, low: word, hi: word)
    requires n == low + hi as int * 0x1_0000_0000
    ensures Split(n) == Longlong(low, hi)
  {
  }

  /** Small magnitudes get small codes: the point of the mapping. */
  lemma ZigZag64Magnitude(n: word64)
    ensures n < 0x8000_0000_0000_0000 ==> ZigZag64(n) == 2 * n
    ensures n >= 0x8000_0000_0000_0000 ==> ZigZag64(n) == 2 * (0x1_0000_0000_0000_0000 - n) - 1
  {
  }

  /** The low word always comes back. The high word is the sign of n only when the
      encoded word's top bit is: 0 for 0 <= n < 2^30, all ones for n < -2^30. */
  lemma DeZigZag32Inverse(n: word, hi: word)
    ensures DeZigZag32(Longlong(ZigZag32(n), hi)).low == n
    ensures DeZigZag32(Longlong(ZigZag32(n), hi)).hi == (if n >= 0x8000_0000 then 0xFFFF_FFFF else 0)
        <==> n < 0x4000_0000 || 0x8000_0000 <= n < 0xC000_0000
  {
    var z := ZigZag32(n);
    if n < 0x8000_0000 {
      assert z == 2 * n;
    } else {
      assert z == 0x1_FFFF_FFFF - 2 * n;
    }
  }

  /** 2^30 comes back with the upper word of a negative number. */
  lemma DeZigZag32Counterexample()
    ensures ZigZag32(0x4000_0000) == 0x8000_0000
    ensures DeZigZag32(Longlong(0x8000_0000, 0)) == Longlong(0x4000_0000, 0xFFFF_FFFF)
  {
    DeZigZag32Inverse(0x4000_0000, 0);
  }

  /** Zigzag, varint encoding, decoding and unzigzag together. */
  lemma ZigZag64Through(n: word64)
    ensures DeZigZag64(Seen(ZigZag64(n))) == Split(n) <==> Exact(ZigZag64(n))
  {
    SeenExact(ZigZag64(n));
    DeZigZag64Inverse(n);
    if DeZigZag64(Seen(ZigZag64(n))) == Split(n) {
      DeZigZag64Injective(Seen(ZigZag64(n)), Split(ZigZag64(n)));
    }
  }

  lemma DeZigZag64Injective(a: Longlong, b: Longlong)
    requires DeZigZag64(a) == DeZigZag64(b)
    ensures a == b
  {
    assert DeZigZag64(a).hi >= 0x8000_0000 <==> a.low % 2 == 1;
    assert DeZigZag64(b).hi >= 0x8000_0000 <==> b.low % 2 == 1;
  }
}
