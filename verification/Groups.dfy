/** Reading arbitrary varints, minimal or not: the number their groups denote, and what the
    32-bit shifts of ext/pbc/src/varint.c make of it. */
module Groups {
  import opened Words
  import opened Wrappers
  import opened Varint

  /** The first n groups, and the rest of the number. */
  lemma {:induction false} LowNumber(bs: seq<byte>, n: nat)
    requires n <= 4 && n <= |bs|
    ensures Number(bs) == LowGroups(bs, n) + Span(n) * Number(bs[n..])
  {
    if n == 0 {
      assert bs[0..] == bs;
    } else {
      LowNumber(bs, n - 1);
      assert bs[n - 1..][1..] == bs[n..];
      var b, m := bs[n - 1] as int % 0x80, Number(bs[n..]);
      assert Number(bs[n - 1..]) == b + 0x80 * m;
      Distribute(Span(n - 1), b, m);
      SpanStep(n);
      hide Number;
    }
  }

  lemma {:induction false} SpanStep(n: nat)
    requires 1 <= n <= 4
    ensures Span(n) == Span(n - 1) * 0x80 && Span(n - 1) == Weight(n - 1)
  {
  }

  lemma {:induction false} Distribute(w: nat, b: nat, m: nat)
    ensures w * (b + 0x80 * m) == b * w + w * 0x80 * m
  {
  }

  lemma {:induction false} NoGroups(bs: seq<byte>)
    ensures bs == [] ==> Number(bs) == 0
    ensures |bs| == 1 ==> Number(bs) == bs[0] % 0x80
  {
    if |bs| == 1 { assert bs[1..] == []; }
  }

  /** Groups five to eight, and the rest of the number. */
  lemma {:induction false} HighNumber(bs: seq<byte>, n: nat)
    requires 4 <= n <= 8 && n <= |bs|
    ensures Number(bs[4..]) == HighGroups(bs, n) + Span(n - 4) * Number(bs[n..])
    ensures HighGroups(bs, n) < Span(n - 4)
  {
    if n > 4 {
      HighNumber(bs, n - 1);
      assert bs[n - 1..][1..] == bs[n..];
      var b, m := bs[n - 1] as int % 0x80, Number(bs[n..]);
      assert Number(bs[n - 1..]) == b + 0x80 * m;
      Distribute(Span(n - 5), b, m);
      SpanStep(n - 4);
      assert HighGroups(bs, n) == HighGroups(bs, n - 1) + ShiftInt(bs[n - 1] % 0x80, 7 * (n - 5));
      ShiftSmall(bs[n - 1] % 0x80, n - 5);
      Below(HighGroups(bs, n - 1), b, n - 4);
      hide Number, HighGroups;
    }
  }

  lemma {:induction false} ShiftSmall(g: nat, i: nat)
    requires g < 0x80 && i < 4
    ensures ShiftInt(g, 7 * i) == g * Span(i)
  {
  }

  lemma {:induction false} Below(h: nat, b: nat, i: nat)
    requires 1 <= i <= 4 && h < Span(i - 1) && b < 0x80
    ensures h + b * Span(i - 1) < Span(i)
  {
    if i == 1 {} else if i == 2 {} else if i == 3 {} else {}
  }

  /** A well-formed varint is read to its end, whatever follows it. */
  lemma {:induction false} ReadToEnd(bs: seq<byte>, rest: seq<byte>)
    requires WellFormed(bs) && |bs| <= 10
    ensures Read(bs + rest) == Some(Varint(|bs|, Assemble(bs, |bs|)))
  {
    hide Assemble;
    ContinuedWellFormed(bs, 0);
    assert (bs + rest)[..|bs|] == bs == bs[..|bs|];
    assert Read(bs) == Some(Varint(|bs|, Assemble(bs, |bs|)));
    ReadPrefix(bs, bs + rest);
  }

  /** Up to eight bytes the value is the number. */
  lemma {:induction false} ReadNumber(bs: seq<byte>, rest: seq<byte>)
    requires WellFormed(bs) && |bs| <= 8
    ensures var n := Number(bs);
            n < 0x100_0000_0000_0000
            && Read(bs + rest) == Some(Varint(|bs|, Longlong(n % 0x1_0000_0000, n / 0x1_0000_0000)))
  {
    hide Number, LowGroups, HighGroups;
    var k := |bs|;
    ReadToEnd(bs, rest);
    NoGroups(bs[k..]);
    if k <= 4 {
      LowNumber(bs, k);
      LowBound(LowGroups(bs, k), k);
    } else {
      LowNumber(bs, 4);
      HighNumber(bs, k);
      LowBound(HighGroups(bs, k), k - 4);
      HalvesOf(Number(bs), LowGroups(bs, 4), HighGroups(bs, k));
      SmallHalf(HighGroups(bs, k));
    }
  }

  lemma {:induction false} LowBound(n: nat, k: nat)
    requires k <= 4 && n < Span(k)
    ensures n < 0x1000_0000
  {
  }

  lemma {:induction false} SmallHalf(m: nat)
    requires m < 0x1000_0000
    ensures m / 0x10 % 0x1_0000_0000 == m / 0x10
  {
  }

  /** Of nine bytes the ninth counts with its four lower bits, the highest of them as a sign. */
  lemma {:induction false} ReadNine(bs: seq<byte>, rest: seq<byte>)
    requires WellFormed(bs) && |bs| == 9
    ensures var n, g := Number(bs), bs[8] as nat;
            var sign := if g % 0x10 < 8 then 0 else 0xF000_0000;
            Read(bs + rest) == Some(Varint(9, Longlong(n % 0x1_0000_0000,
                                                       n / 0x1_0000_0000 % 0x100_0000 + g % 0x10 * 0x100_0000 + sign)))
  {
    hide Number, LowGroups, HighGroups;
    ReadToEnd(bs, rest);
    var low, h, g := NinePieces(bs);
    NineValue(Number(bs), low, h, g);
    NinthGroup(h, g);
    assert HighGroups(bs, 9) == h + ShiftInt(g, 28);
  }

  lemma {:induction false} NineValue(n: nat, low: nat, h: nat, g: nat)
    requires low < 0x1000_0000 && h < 0x1000_0000 && n == low + 0x1000_0000 * (h + 0x1000_0000 * g)
    ensures n % 0x1_0000_0000 == low + h % 0x10 * 0x1000_0000
    ensures n / 0x1_0000_0000 % 0x100_0000 == h / 0x10
  {
    var j, k := h % 0x10, h / 0x10;
    assert n == low + j * 0x1000_0000 + (k + 0x100_0000 * g) * 0x1_0000_0000;
    RemainderIs(n, 0x1_0000_0000, k + 0x100_0000 * g, low + j * 0x1000_0000);
    assert n / 0x1_0000_0000 == k + 0x100_0000 * g;
    RemainderIs(k + 0x100_0000 * g, 0x100_0000, g, k);
  }

  /** 28 low bits, 28 middle bits and the rest of a number of at least nine groups. */
  lemma {:induction false} NinePieces(bs: seq<byte>) returns (low: nat, h: nat, g: nat)
    requires WellFormed(bs) && 9 <= |bs| <= 10
    ensures low == LowGroups(bs, 4) < 0x1000_0000 && h < 0x1000_0000 && g == bs[8] as nat % 0x80
    ensures HighGroups(bs, 9) == h + ShiftInt(g, 28)
    ensures |bs| == 9 ==> g == bs[8] as nat
    ensures Number(bs) == low + 0x1000_0000 * (h + 0x1000_0000 * (if |bs| == 9 then g else g + 0x80 * (bs[9] as nat)))
  {
    hide LowGroups, HighGroups, Number, ShiftInt, Span, Weight;
    low, h, g := LowGroups(bs, 4), HighGroups(bs, 8), bs[8] as nat % 0x80;
    NinthStep(bs);
    FirstEight(bs);
    LastTwo(bs);
  }

  lemma {:induction false} FirstEight(bs: seq<byte>)
    requires |bs| >= 8
    ensures LowGroups(bs, 4) < 0x1000_0000 && HighGroups(bs, 8) < 0x1000_0000
    ensures Number(bs) == LowGroups(bs, 4) + 0x1000_0000 * (HighGroups(bs, 8) + 0x1000_0000 * Number(bs[8..]))
  {
    assert Span(4) == 0x1000_0000;
    hide LowGroups, HighGroups, Number, Span, Weight;
    LowNumber(bs, 4);
    HighNumber(bs, 8);
  }

  lemma {:induction false} LastTwo(bs: seq<byte>)
    requires WellFormed(bs) && 9 <= |bs| <= 10
    ensures var g := bs[8] as nat % 0x80; Number(bs[8..]) == if |bs| == 9 then g else g + 0x80 * (bs[9] as nat)
  {
    hide Number;
    var tail := bs[8..];
    assert tail[0] == bs[8] && (|bs| == 10 ==> tail[1] == bs[9]);
    TwoGroups(tail);
  }

  lemma {:induction false} NinthStep(bs: seq<byte>)
    requires |bs| >= 9
    ensures HighGroups(bs, 9) == HighGroups(bs, 8) + ShiftInt(bs[8] as nat % 0x80, 28)
  {
    hide ShiftInt;
  }

  lemma {:induction false} TwoGroups(bs: seq<byte>)
    requires 1 <= |bs| <= 2
    ensures Number(bs) == bs[0] as nat % 0x80 + 0x80 * (if |bs| == 1 then 0 else bs[1] as nat % 0x80)
  {
    NoGroups(bs[1..]);
  }

  /** Of ten bytes the tenth is put on the bits 31 to 37. */
  lemma {:induction false} ReadTen(bs: seq<byte>, rest: seq<byte>)
    requires WellFormed(bs) && |bs| == 10
    ensures var n, g := Number(bs), bs[8] as nat % 0x80;
            var lr := n / 0x1000_0000 % 0x1000_0000 + ShiftInt(g, 28);
            var all := Or(lr, 8 * (bs[9] as nat));
            Read(bs + rest)
              == Some(Varint(10, Longlong(n % 0x1000_0000 + all % 0x10 * 0x1000_0000, all / 0x10 % 0x1_0000_0000)))
  {
    hide Number, LowGroups, HighGroups, Or;
    ReadToEnd(bs, rest);
    var low, h, g := NinePieces(bs);
    var n := Number(bs);
    RemainderIs(n, 0x1000_0000, h + 0x1000_0000 * (g + 0x80 * (bs[9] as nat)), low);
    assert n / 0x1000_0000 == h + 0x1000_0000 * (g + 0x80 * (bs[9] as nat));
    RemainderIs(n / 0x1000_0000, 0x1000_0000, g + 0x80 * (bs[9] as nat), h);
    TenHigh(bs);
  }

  lemma {:induction false} TenHigh(bs: seq<byte>)
    requires |bs| == 10 && bs[9] < 0x80
    ensures HighGroups(bs, 10) == Or(HighGroups(bs, 9), 8 * (bs[9] as nat))
  {
    hide Or;
    assert ShiftInt(bs[9], 35) == bs[9] as nat * 8;
  }

  /** Ten bytes that all continue are read as zero, and fewer are no varint. */
  lemma {:induction false} ReadEndless(bs: seq<byte>)
    requires forall i | 0 <= i < |bs| && i < 10 :: bs[i] >= 0x80
    ensures Read(bs) == if |bs| >= 10 then Some(Varint(10, Longlong(0, 0))) else None
  {
    ContinuesOn(bs, 0);
  }

  lemma {:induction false} ContinuesOn(bs: seq<byte>, i: nat)
    requires i <= |bs| && i <= 10 && forall k | 0 <= k < |bs| && k < 10 :: bs[k] >= 0x80
    ensures Continued(bs, i) == if |bs| < 10 then |bs| else 10
    decreases 10 - i
  {
    if i < 10 && i < |bs| { ContinuesOn(bs, i + 1); }
  }

  /** Every sequence begins with a varint, or continues to its end or for ten bytes. */
  lemma {:induction false} ThreeCases(bs: seq<byte>) returns (k: nat)
    ensures k <= |bs| && k <= 10
    ensures k > 0 ==> WellFormed(bs[..k])
    ensures k == 0 ==> forall i | 0 <= i < |bs| && i < 10 :: bs[i] >= 0x80
  {
    var n := Continued(bs, 0);
    if n < |bs| && n < 10 {
      k := n + 1;
    } else {
      k := 0;
    }
  }
}
