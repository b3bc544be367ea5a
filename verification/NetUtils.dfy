/** Byte order, raw varints and the socket loops (src/net_utils.c). */
module NetUtils {
  import opened Words
  import opened Wrappers
  import Groups
  import Varint

  // ---- byte order

  /** `int_endian_swap` on the bits of an int. */
  function Swap(w: word): word {
    w % 0x100 * 0x100_0000 + w / 0x100 % 0x100 * 0x1_0000 + w / 0x1_0000 % 0x100 * 0x100 + w / 0x100_0000
  }

  /** Four bytes, most significant first. */
  function Be32(w: word): (bs: seq<byte>)
    ensures |bs| == 4
  {
    [w / 0x100_0000, w / 0x1_0000 % 0x100, w / 0x100 % 0x100, w % 0x100]
  }

  /** Storing the swapped word least significant byte first puts the word on the wire most
      significant byte first, and swapping what was read back restores it. */
  lemma SwapOrder(w: word, rest: seq<byte>)
    ensures Le32(Swap(w)) == Be32(w)
    ensures Swap(OfLe32(Be32(w) + rest)) == w
  {
    var d, c, b, a := w % 0x100, w / 0x100 % 0x100, w / 0x1_0000 % 0x100, w / 0x100_0000;
    Digits(w, a, b, c, d);
    Digits(Swap(w), d, c, b, a);
    var bs := Be32(w) + rest;
    assert bs[0] == a && bs[1] == b && bs[2] == c && bs[3] == d;
  }

  /** A word is its four bytes. */
  lemma Digits(w: word, a: nat, b: nat, c: nat, d: nat)
    requires a < 0x100 && b < 0x100 && c < 0x100 && d < 0x100
    ensures w == ((a * 0x100 + b) * 0x100 + c) * 0x100 + d <==>
              d == w % 0x100 && c == w / 0x100 % 0x100 && b == w / 0x1_0000 % 0x100 && a == w / 0x100_0000
    ensures w == ((a * 0x100 + b) * 0x100 + c) * 0x100 + d ==> Le32(w) == [d, c, b, a]
  {
    var q := w / 0x100;
    var r := q / 0x100;
    assert r == w / 0x1_0000 && r / 0x100 == w / 0x100_0000;
  }

  // ---- a byte stream

  /** Only a part of bs was sent. */
  predicate CutOff(was: seq<byte>, now: seq<byte>, bs: seq<byte>) {
    was <= now < was + bs
  }

  /** A connected socket: what will arrive and what was sent. On a reliable one no read or
      write fails. */
  class Socket {
    const reliable: bool
    var incoming: seq<byte>
    var outgoing: seq<byte>

    constructor (incoming: seq<byte>, reliable: bool)
      ensures this.incoming == incoming && outgoing == [] && this.reliable == reliable
    {
      this.incoming, outgoing, this.reliable := incoming, [], reliable;
    }

    /** `read`: at least one and at most n bytes, however many the network has ready, or a
        failure, as when the stream ends too soon. */
    method Receive(n: nat) returns (rc: int, bs: seq<byte>)
      requires n >= 1 && (reliable ==> n <= |incoming|)
      modifies this`incoming
      ensures (rc == -1 && bs == []) || 1 <= rc == |bs| <= n
      ensures bs + incoming == old(incoming) && (reliable ==> rc >= 0)
    {
      rc, bs := -1, [];
      if incoming != [] {
        rc :| 1 <= rc <= n && rc <= |incoming|;
        var fails :| reliable ==> !fails;
        if fails { return -1, []; }
        bs := incoming[..rc];
        incoming := incoming[rc..];
      }
    }

    /** `write`: likewise. */
    method Send(bs: seq<byte>) returns (rc: int)
      requires bs != []
      modifies this`outgoing
      ensures rc == -1 || 1 <= rc <= |bs|
      ensures outgoing == (if rc < 0 then old(outgoing) else old(outgoing) + bs[..rc]) && (reliable ==> rc >= 0)
    {
      rc :| 1 <= rc <= |bs|;
      var fails :| reliable ==> !fails;
      if fails { return -1; }
      outgoing := outgoing + bs[..rc];
    }

    /** `read_all`: however the bytes are split on the way, the next `size` of them; or -1,
        and fewer than `size` are gone. */
    method ReadAll(buffer: array<byte>, size: int) returns (rc: int)
      requires size <= buffer.Length && (reliable ==> size <= |incoming|)
      modifies this`incoming, buffer
      ensures size < 0 ==> rc == -1 && incoming == old(incoming)
      ensures size >= 0 && reliable ==> rc == 0
      ensures size >= 0 && rc == 0 ==> buffer[..size] + incoming == old(incoming)
      ensures size >= 0 && rc != 0 ==>
                rc == -1 && exists n: nat | n < size && n <= |old(incoming)| :: old(incoming)[n..] == incoming
    {
      if size < 0 {
        return -1;
      }
      var bytesRead := 0;
      while bytesRead < size
        invariant 0 <= bytesRead <= size
        invariant buffer[..bytesRead] + incoming == old(incoming)
        invariant old(incoming)[bytesRead..] == incoming
      {
        ghost var was, left := buffer[..bytesRead], incoming;
        var retval, bs := Receive(size - bytesRead);
        if retval < 0 { return -1; }
        forall k | 0 <= k < |bs| { buffer[bytesRead + k] := bs[k]; }
        assert buffer[..bytesRead + |bs|] == was + bs;
        assert was + (bs + incoming) == was + bs + incoming;
        bytesRead := bytesRead + |bs|;
      }
      return 0;
    }

    /** `write_all`: all bytes, or -1, and fewer than all were sent. */
    method WriteAll(bs: seq<byte>) returns (rc: int)
      modifies this`outgoing
      ensures reliable ==> rc == 0
      ensures rc == 0 ==> outgoing == old(outgoing) + bs
      ensures rc != 0 ==> rc == -1 && CutOff(old(outgoing), outgoing, bs)
    {
      var bytesWritten := 0;
      while bytesWritten < |bs|
        invariant 0 <= bytesWritten <= |bs|
        invariant outgoing == old(outgoing) + bs[..bytesWritten]
      {
        var k := Send(bs[bytesWritten..]);
        if k < 0 { return -1; }
        assert bs[..bytesWritten] + bs[bytesWritten..][..k] == bs[..bytesWritten + k];
        bytesWritten := bytesWritten + k;
      }
      assert bs[..bytesWritten] == bs;
      return 0;
    }

    /** One byte; the code does not look at what `read` returns. */
    method ReadByte(ghost was: seq<byte>, ghost i: nat) returns (b: byte)
      requires reliable && i < |was| && incoming == was[i..]
      modifies this`incoming
      ensures b == was[i] && incoming == was[i + 1..]
    {
      var _, bs := Receive(1);
      b := bs[0];
      assert incoming == (bs + incoming)[1..] == was[i..][1..] == was[i + 1..];
    }
  }

  // ---- raw varints

  /** `write_raw_varint32`; for a negative value its shifts would never end. */
  method WriteRawVarint32(buffer: array<byte>, v: nat) returns (len: nat)
    requires buffer.Length >= 5 && v < 0x8000_0000
    modifies buffer
    ensures len == |Varint.Bytes(v)| <= 5 && buffer[..len] == Varint.Bytes(v)
  {
    ghost var all := Varint.Bytes(v);
    Varint.BytesLength(v);
    var n, i := v, 0;
    while true
      invariant i < |all| && n == Varint.Shifted(v, i)
      invariant forall k | 0 <= k < i :: buffer[k] == all[k]
      decreases n
    {
      Varint.ByteAt(v, i);
      if n < 0x80 {
        buffer[i] := n;
        i := i + 1;
        return i;
      }
      buffer[i] := n % 0x80 + 0x80;
      i := i + 1;
      n := n / 0x80;
    }
  }

  /** What `read_raw_varint32` reports: its result, the bytes it read and the value it
      stores, if it stores one. */
  datatype RawRead = RawRead(rc: int, len: nat, value: Option<int>)

  /** A byte sequence as `read_raw_varint32` reads it; None if it ends too soon. Behind the
      fifth byte the two results are the wrong way round: a varint of six to ten bytes is
      an error, one that has not ended after ten is a success without a value. */
  function Raw(bs: seq<byte>): (r: Option<RawRead>)
    ensures r.Some? ==> 1 <= r.value.len <= |bs|
  {
    var n := Varint.Continued(bs, 0);
    if n == 10 then Some(RawRead(0, 10, None))
    else if n == |bs| then None
    else if n < 4 then Some(RawRead(0, n + 1, Some(Varint.LowGroups(bs, n + 1))))
    else Some(RawRead(if n == 4 then 0 else -1, n + 1, Some(RawValue(bs))))
  }

  function RawValue(bs: seq<byte>): int
    requires |bs| >= 5
  {
    ToInt32((Varint.LowGroups(bs, 4) + bs[4] as int % 0x10 * 0x1000_0000) % 0x1_0000_0000)
  }

  /** `read_raw_varint32` */
  method ReadRawVarint32(socket: Socket) returns (rc: int, readlen: nat, value: Option<int>)
    requires socket.reliable && Raw(socket.incoming).Some?
    modifies socket`incoming
    ensures var r := Raw(old(socket.incoming)).value;
            rc == r.rc && readlen == r.len && value == r.value && socket.incoming == old(socket.incoming)[r.len..]
  {
    hide Varint.LowGroups, Varint.Continued;
    ghost var was := socket.incoming;
    FirstGroups(was);
    var tmp := socket.ReadByte(was, 0);
    if tmp < 0x80 {
      return 0, 1, Some(tmp);
    }
    var result := tmp as int % 0x80;
    tmp := socket.ReadByte(was, 1);
    if tmp < 0x80 {
      return 0, 2, Some(result + tmp as int * 0x80);
    }
    result := result + tmp as int % 0x80 * 0x80;
    tmp := socket.ReadByte(was, 2);
    if tmp < 0x80 {
      return 0, 3, Some(result + tmp as int * 0x4000);
    }
    result := result + tmp as int % 0x80 * 0x4000;
    tmp := socket.ReadByte(was, 3);
    if tmp < 0x80 {
      return 0, 4, Some(result + tmp as int * 0x20_0000);
    }
    result := result + tmp as int % 0x80 * 0x20_0000;
    tmp := socket.ReadByte(was, 4);
    result := ToInt32((result + tmp as int % 0x10 * 0x1000_0000) % 0x1_0000_0000);
    if tmp < 0x80 {
      return 0, 5, Some(result);
    }
    rc, readlen := ReadTooLong(socket, was);
    value := if rc == 0 then None else Some(result);
  }

  /** The loop behind the fifth byte. */
  method ReadTooLong(socket: Socket, ghost was: seq<byte>) returns (rc: int, readlen: nat)
    requires socket.reliable && |was| >= 5 && socket.incoming == was[5..] && Raw(was).Some?
    requires Varint.Continued(was, 0) == Varint.Continued(was, 5)
    modifies socket`incoming
    ensures rc == Raw(was).value.rc && readlen == Raw(was).value.len && socket.incoming == was[readlen..]
  {
    hide Varint.LowGroups, Varint.Continued;
    readlen := 5;
    while readlen < 10
      invariant 5 <= readlen <= 10 && readlen <= |was| && socket.incoming == was[readlen..]
      invariant Varint.Continued(was, 0) == Varint.Continued(was, readlen)
    {
      ContinuedStep(was, readlen);
      var tmp := socket.ReadByte(was, readlen);
      readlen := readlen + 1;
      if tmp < 0x80 {
        return -1, readlen;
      }
    }
    ContinuedStep(was, 10);
    return 0, 10;
  }

  /** The groups of the first four bytes, as far as they continue. */
  lemma FirstGroups(bs: seq<byte>)
    ensures |bs| >= 1 && bs[0] < 0x80 ==> Varint.Continued(bs, 0) == 0
    ensures |bs| >= 1 ==> Varint.LowGroups(bs, 1) == bs[0] as int % 0x80
    ensures |bs| >= 2 ==> Varint.LowGroups(bs, 2) == Varint.LowGroups(bs, 1) + bs[1] as int % 0x80 * 0x80
    ensures |bs| >= 3 ==> Varint.LowGroups(bs, 3) == Varint.LowGroups(bs, 2) + bs[2] as int % 0x80 * 0x4000
    ensures |bs| >= 4 ==> Varint.LowGroups(bs, 4) == Varint.LowGroups(bs, 3) + bs[3] as int % 0x80 * 0x20_0000
    ensures if Leading(bs) == 5 then Varint.Continued(bs, 0) == Varint.Continued(bs, 5)
            else Varint.Continued(bs, 0) == Leading(bs)
  {
    hide Varint.Continued;
    assert Varint.LowGroups(bs, 0) == 0;
    ContinuedStep(bs, 0);
    if |bs| > 0 && bs[0] >= 0x80 {
      ContinuedStep(bs, 1);
      if |bs| > 1 && bs[1] >= 0x80 {
        ContinuedStep(bs, 2);
        if |bs| > 2 && bs[2] >= 0x80 {
          ContinuedStep(bs, 3);
          if |bs| > 3 && bs[3] >= 0x80 { ContinuedStep(bs, 4); }
        }
      }
    }
  }

  /** How many of the first five bytes continue, from the start. */
  function Leading(bs: seq<byte>): nat {
    if |bs| < 1 || bs[0] < 0x80 then 0
    else if |bs| < 2 || bs[1] < 0x80 then 1
    else if |bs| < 3 || bs[2] < 0x80 then 2
    else if |bs| < 4 || bs[3] < 0x80 then 3
    else if |bs| < 5 || bs[4] < 0x80 then 4
    else 5
  }

  lemma ContinuedStep(bs: seq<byte>, i: nat)
    requires i <= 10 && i <= |bs|
    ensures if i == 10 || i == |bs| || bs[i] < 0x80 then Varint.Continued(bs, i) == i
            else Varint.Continued(bs, i) == Varint.Continued(bs, i + 1)
  {
  }

  /** Reading what was written gives every non-negative int back, consuming exactly its
      minimal varint form. */
  lemma RawOfBytes(v: nat, rest: seq<byte>)
    requires v < 0x8000_0000
    ensures Raw(Varint.Bytes(v) + rest) == Some(RawRead(0, |Varint.Bytes(v)|, Some(v)))
  {
    hide Varint.Bytes, Varint.LowGroups, Varint.Continued;
    var all := Varint.Bytes(v);
    var k, bs := |all|, all + rest;
    Varint.BytesDenote(v);
    Varint.BytesLength(v);
    Varint.ContinuedWellFormed(all, 0);
    Varint.ContinuedPrefix(all, bs, 0, k);
    if k <= 4 {
      Varint.LowPrefix(all, bs, k);
      LowAll(v);
      RawShort(v, bs, k);
    } else {
      Varint.LowPrefix(all, bs, 4);
      Varint.LowIs(v, 4);
      Varint.GroupAt(v, 4);
      Varint.ShiftedAre(v);
      RawFive(v, bs);
    }
  }

  /** Up to four groups are the whole value. */
  lemma LowAll(v: nat)
    requires |Varint.Bytes(v)| <= 4
    ensures Varint.LowGroups(Varint.Bytes(v), |Varint.Bytes(v)|) == v
  {
    hide Varint.Bytes, Varint.LowGroups;
    var k := |Varint.Bytes(v)|;
    Varint.LowIs(v, k);
    Varint.GroupAt(v, k - 1);
    assert Varint.Shifted(v, k) == Varint.Shifted(v, k - 1) / 0x80 == 0;
  }

  lemma RawShort(v: nat, bs: seq<byte>, k: nat)
    requires 1 <= k <= 4 && k <= |bs| && Varint.Continued(bs, 0) == k - 1 && Varint.LowGroups(bs, k) == v
    ensures Raw(bs) == Some(RawRead(0, k, Some(v)))
  {
    hide Varint.LowGroups, Varint.Continued;
  }

  lemma RawFive(v: nat, bs: seq<byte>)
    requires |bs| >= 5 && Varint.Continued(bs, 0) == 4 && v < 0x8000_0000
    requires v == Varint.LowGroups(bs, 4) + v / 0x1000_0000 * 0x1000_0000 && bs[4] % 0x80 == v / 0x1000_0000 % 0x80
    ensures Raw(bs) == Some(RawRead(0, 5, Some(v)))
  {
    hide Varint.LowGroups, Varint.Continued;
    assert bs[4] as int % 0x10 == v / 0x1000_0000;
  }

  // ---- which varints are read

  /** A varint of at most ten bytes is read to its end, whatever follows it. The result is 0
      if and only if it has at most five; the value is the number as an int in any case. */
  lemma RawExactly(bs: seq<byte>, rest: seq<byte>)
    requires Varint.WellFormed(bs) && |bs| <= 10
    ensures Raw(bs + rest).Some?
    ensures var r := Raw(bs + rest).value;
            && r.len == |bs| && (r.rc == 0 <==> |bs| <= 5)
            && r.value == Some(ToInt32(Varint.Number(bs) % 0x1_0000_0000))
  {
    hide Raw, Varint.LowGroups, Varint.Continued, Varint.Number, RawValue;
    var k, all := |bs|, bs + rest;
    Varint.ContinuedWellFormed(bs, 0);
    Varint.ContinuedPrefix(bs, all, 0, k);
    if k <= 4 {
      Varint.LowPrefix(bs, all, k);
      Groups.LowNumber(bs, k);
      Groups.NoGroups(bs[k..]);
      RawShort(Varint.Number(bs), all, k);
      SmallInt(Varint.Number(bs));
    } else {
      RawLong(all, k);
      FiveGroups(bs, all);
    }
  }

  lemma RawLong(bs: seq<byte>, k: nat)
    requires 5 <= k <= 10 && k <= |bs| && Varint.Continued(bs, 0) == k - 1
    ensures Raw(bs) == Some(RawRead(if k == 5 then 0 else -1, k, Some(RawValue(bs))))
  {
    hide Varint.LowGroups, Varint.Continued, RawValue;
  }

  lemma SmallInt(n: nat)
    requires n < 0x8000_0000
    ensures ToInt32(n % 0x1_0000_0000) == n
  {
  }

  /** The fifth byte keeps its four lower bits, and the bytes behind it none. */
  lemma FiveGroups(bs: seq<byte>, all: seq<byte>)
    requires 5 <= |bs| && Varint.WellFormed(bs) && bs <= all
    ensures RawValue(all) == ToInt32(Varint.Number(bs) % 0x1_0000_0000)
  {
    hide Varint.LowGroups, Varint.Number;
    Varint.LowPrefix(bs, all, 4);
    Groups.LowNumber(bs, 4);
    FirstOf(bs[4..]);
    assert bs[4..][0] == bs[4];
    FourBits(Varint.LowGroups(bs, 4), Varint.Number(bs[4..]), bs[4] as int);
  }

  lemma FirstOf(bs: seq<byte>)
    requires bs != []
    ensures Varint.Number(bs) % 0x10 == bs[0] % 0x10
  {
  }

  lemma FourBits(low: nat, m: nat, b: nat)
    requires low < 0x1000_0000 && m % 0x10 == b % 0x10
    ensures (low + 0x1000_0000 * m) % 0x1_0000_0000 == (low + b % 0x10 * 0x1000_0000) % 0x1_0000_0000
  {
    var q, r := m / 0x10, m % 0x10;
    RemainderIs(low + 0x1000_0000 * m, 0x1_0000_0000, q, low + r * 0x1000_0000);
  }

  /** Six bytes that denote zero are refused. */
  lemma SixBytesRefused()
    ensures var bs := [0x80, 0x80, 0x80, 0x80, 0x80, 0x00];
            Varint.Number(bs) == 0 && Raw(bs).Some? && Raw(bs).value.rc == -1
  {
    var bs: seq<byte> := [0x80, 0x80, 0x80, 0x80, 0x80, 0x00];
    RawExactly(bs, []);
    assert bs + [] == bs;
    hide Raw;
    var one: seq<byte> := [0x80, 0x00];
    assert Varint.Number([0x00]) == 0 && one[1..] == [0x00];
    assert Varint.Number(one) == 0;
    assert bs[1..][1..][1..][1..] == one;
  }

  /** Ten bytes that all continue are a success without a value. */
  lemma EndlessAccepted(bs: seq<byte>)
    requires |bs| >= 10 && forall i | 0 <= i < 10 :: bs[i] >= 0x80
    ensures Raw(bs) == Some(RawRead(0, 10, None))
  {
    hide Varint.Continued;
    AllContinue(bs, 0);
  }

  lemma {:induction false} AllContinue(bs: seq<byte>, i: nat)
    requires |bs| >= 10 && i <= 10 && forall k | 0 <= k < 10 :: bs[k] >= 0x80
    ensures Varint.Continued(bs, i) == 10
    decreases 10 - i
  {
    if i < 10 { AllContinue(bs, i + 1); }
  }
}
