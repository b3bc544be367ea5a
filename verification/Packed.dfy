/** Packed payloads: `_pbcP_unpack_packed` (ext/pbc/src/pattern.c), shared by the message
    reader and the pattern decoder. */
module Packed {
  import opened Words
  import opened Wrappers
  import opened Proto
  import Context
  import Varint

  datatype Width = Fixed8 | Fixed4 | Varying | Unpackable

  function WidthOf(t: Type): Width {
    match t
    case DOUBLE | FIXED64 | SFIXED64 => Fixed8
    case FLOAT | FIXED32 | SFIXED32 => Fixed4
    case INT64 | UINT64 | INT32 | UINT32 | ENUM | BOOL | SINT32 | SINT64 => Varying
    case STRING | BYTES | MESSAGE | GROUP => Unpackable
  }

  /** What a decoded number becomes: the zigzag types are mapped back. */
  function Undo(t: Type, v: Longlong): Longlong {
    match t
    case SINT32 => Varint.DeZigZag32(v)
    case SINT64 => Varint.DeZigZag64(v)
    case _ => v
  }

  /** A number of type t after it went to the wire and came back. */
  function Wire(t: Type, v: Longlong): Longlong {
    match t
    case INT64 | UINT64 | INT32 => Varint.Seen(Join(v))
    case UINT32 | BOOL | ENUM | FIXED32 | SFIXED32 | FLOAT => Longlong(v.low, 0)
    case FIXED64 | SFIXED64 | DOUBLE => v
    case SINT32 => Varint.DeZigZag32(Longlong(Varint.ZigZag32(v.low), 0))
    case SINT64 => Varint.DeZigZag64(Varint.Seen(Varint.ZigZag64(Join(v))))
    case STRING | BYTES | MESSAGE | GROUP => v
  }

  /** Exactly the numbers that come back as they were: the 64-bit varint types lose the
      values the decoder's shifts spoil; the 32-bit types drop the upper word; a zigzag
      32-bit value keeps its low word and gets as upper word the top bit of its code,
      which is its sign only below 2^30 and under -2^30. */
  predicate Kept(t: Type, v: Longlong) {
    match t
    case INT64 | UINT64 | INT32 => Varint.Exact(Join(v))
    case UINT32 | BOOL | ENUM | FIXED32 | SFIXED32 | FLOAT => v.hi == 0
    case SINT32 => v.hi == if 0x4000_0000 <= v.low < 0xC000_0000 then 0xFFFF_FFFF else 0
    case SINT64 => Varint.Exact(Varint.ZigZag64(Join(v)))
    case FIXED64 | SFIXED64 | DOUBLE | STRING | BYTES | MESSAGE | GROUP => true
  }

  lemma WireKeeps(t: Type, v: Longlong)
    ensures Wire(t, v) == v <==> Kept(t, v)
    ensures !t.SINT64? && v.hi == 0 ==> Wire(t, v).low == v.low
    ensures t.SINT32? ==> Wire(t, v).low == v.low
  {
    hide Varint.Seen, Varint.DeZigZag64, Varint.ZigZag64, Varint.DeZigZag32, Varint.ZigZag32, Varint.Exact;
    SplitJoin(Join(v), v);
    Varint.SeenExact(Join(v));
    Varint.ZigZag64Through(Join(v));
    ZigZag32Through(v.low);
    if v.hi == 0 { Varint.ExactSmall(Join(v)); }
  }

  lemma ZigZag32Through(n: word)
    ensures Varint.DeZigZag32(Longlong(Varint.ZigZag32(n), 0))
         == Longlong(n, if 0x4000_0000 <= n < 0xC000_0000 then 0xFFFF_FFFF else 0)
  {
    Varint.DeZigZag32Inverse(n, 0);
  }

  /** The count returned (-1 for an error) and the values pushed before returning. */
  datatype Unpacked = Unpacked(n: int, vs: seq<Longlong>)

  function Fixed(width: nat, bs: seq<byte>): seq<Longlong>
    requires width == 4 || width == 8
    decreases |bs|
  {
    if |bs| < width then []
    else [Longlong(OfLe32(bs), if width == 8 then OfLe32(bs[4..]) else 0)] + Fixed(width, bs[width..])
  }

  function Varints(t: Type, bs: seq<byte>): Unpacked
    decreases |bs|
  {
    if bs == [] then Unpacked(0, [])
    else
      var v := Varint.Read(bs);
      if v.None? then Unpacked(-1, [])
      else
        var rest := Varints(t, bs[v.value.len..]);
        Unpacked(if rest.n < 0 then -1 else rest.n + 1, [Undo(t, v.value.value)] + rest.vs)
  }

  function Unpack(t: Type, bs: seq<byte>): Unpacked {
    match WidthOf(t)
    case Fixed8 => if |bs| % 8 != 0 then Unpacked(-1, []) else Unpacked(|bs| / 8, Fixed(8, bs))
    case Fixed4 => if |bs| % 4 != 0 then Unpacked(-1, []) else Unpacked(|bs| / 4, Fixed(4, bs))
    case Varying => Varints(t, bs)
    case Unpackable => Unpacked(-1, [])
  }

  /** The size the unpacker is given for a record: the difference of its slice words, as an
      int. A record that is not delimited has its number read as a slice. */
  function SizeOf(a: Context.Atom): int {
    ToInt32(FromInt(a.second - a.first))
  }

  /** A size that is not positive reads nothing. */
  function NoBytes(t: Type, size: int): Unpacked {
    match WidthOf(t)
    case Fixed8 => Unpacked(if size % 8 != 0 then -1 else size / 8, [])
    case Fixed4 => Unpacked(if size % 4 != 0 then -1 else size / 4, [])
    case Varying => Unpacked(0, [])
    case Unpackable => Unpacked(-1, [])
  }

  /** What a record gives as a packed payload. One whose bytes do not lie in the buffer counts
      as malformed. */
  function UnpackAtom(t: Type, buffer: seq<byte>, a: Context.Atom): Unpacked {
    if a.first <= a.second <= |buffer| then Unpack(t, buffer[a.first..a.second])
    else if SizeOf(a) <= 0 then NoBytes(t, SizeOf(a))
    else Unpacked(-1, [])
  }

  lemma AtomCount(t: Type, buffer: seq<byte>, a: Context.Atom)
    ensures var u := UnpackAtom(t, buffer, a); u.n < 0 || u.n == |u.vs|
  {
    hide Unpack;
    if a.first <= a.second <= |buffer| { CountIsPushed(t, buffer[a.first..a.second]); }
  }

  /** A successful count is the number of values pushed. */
  lemma {:induction false} CountIsPushed(t: Type, bs: seq<byte>)
    ensures Unpack(t, bs).n == -1 || Unpack(t, bs).n == |Unpack(t, bs).vs|
  {
    match WidthOf(t)
    case Fixed8 => FixedLength(8, bs);
    case Fixed4 => FixedLength(4, bs);
    case Varying => VarintsLength(t, bs);
    case Unpackable =>
  }

  lemma {:induction false} FixedLength(width: nat, bs: seq<byte>)
    requires width == 4 || width == 8
    ensures |Fixed(width, bs)| == |bs| / width
    decreases |bs|
  {
    hide OfLe32;
    if |bs| >= width { FixedLength(width, bs[width..]); }
  }

  lemma {:induction false} VarintsLength(t: Type, bs: seq<byte>)
    ensures Varints(t, bs).n == -1 || Varints(t, bs).n == |Varints(t, bs).vs|
    decreases |bs|
  {
    hide Undo, Varint.Read;
    if bs != [] && Varint.Read(bs).Some? { VarintsLength(t, bs[Varint.Read(bs).value.len..]); }
  }

  /** `_pbcP_unpack_packed`, appending to the caller's array. */
  method UnpackPacked(buffer: seq<byte>, t: Type, arr: seq<Longlong>) returns (n: int, arr': seq<Longlong>)
    ensures n == Unpack(t, buffer).n && arr' == arr + Unpack(t, buffer).vs
  {
    hide OfLe32, Undo, Varint.Read;
    match WidthOf(t)
    case Fixed8 =>
      if |buffer| % 8 != 0 { return -1, arr; }
      arr' := UnpackFixed(buffer, 8, arr);
      return |buffer| / 8, arr';
    case Fixed4 =>
      if |buffer| % 4 != 0 { return -1, arr; }
      arr' := UnpackFixed(buffer, 4, arr);
      return |buffer| / 4, arr';
    case Varying =>
      n, arr' := UnpackVarints(buffer, t, arr);
    case Unpackable =>
      return -1, arr;
  }

  lemma WidthLeft(n: nat, width: nat)
    requires (width == 4 || width == 8) && n % width == 0 && n > 0
    ensures n >= width && (n - width) % width == 0
  {
  }

  lemma FirstFixed(width: nat, bs: seq<byte>)
    requires width == 4 || width == 8
    ensures |bs| < width ==> Fixed(width, bs) == []
    ensures |bs| >= width ==>
              Fixed(width, bs)
                == [Longlong(OfLe32(bs), if width == 8 then OfLe32(bs[4..]) else 0)] + Fixed(width, bs[width..])
  {
    hide OfLe32;
  }

  method UnpackFixed(buffer: seq<byte>, width: nat, arr: seq<Longlong>) returns (arr': seq<Longlong>)
    requires (width == 4 || width == 8) && |buffer| % width == 0
    ensures arr' == arr + Fixed(width, buffer)
  {
    hide OfLe32, Fixed;
    arr' := arr;
    var i := 0;
    assert buffer[0..] == buffer;
    while i < |buffer|
      invariant 0 <= i <= |buffer| && (|buffer| - i) % width == 0
      invariant arr + Fixed(width, buffer) == arr' + Fixed(width, buffer[i..])
    {
      assert buffer[i..][width..] == buffer[i + width..];
      WidthLeft(|buffer| - i, width);
      FirstFixed(width, buffer[i..]);
      arr' := arr' + [Longlong(OfLe32(buffer[i..]), if width == 8 then OfLe32(buffer[i..][4..]) else 0)];
      i := i + width;
    }
    FirstFixed(width, buffer[i..]);
  }

  method UnpackVarints(buffer: seq<byte>, t: Type, arr: seq<Longlong>) returns (n: int, arr': seq<Longlong>)
    ensures n == Varints(t, buffer).n && arr' == arr + Varints(t, buffer).vs
  {
    hide Undo, Varint.Read;
    var rest := buffer;
    arr', n := arr, 0;
    while rest != []
      invariant n >= 0 && |rest| <= |buffer|
      invariant arr + Varints(t, buffer).vs == arr' + Varints(t, rest).vs
      invariant Varints(t, buffer).n == if Varints(t, rest).n < 0 then -1 else n + Varints(t, rest).n
      decreases |rest|
    {
      var len, v := Context.ReadTail(rest);
      if len > |rest| {
        return -1, arr';
      }
      arr' := arr' + [Undo(t, v)];
      rest := rest[len..];
      n := n + 1;
    }
  }

  /** The call of the unpacker on the bytes of a record. */
  method UnpackSlice(buffer: seq<byte>, a: Context.Atom, t: Type) returns (n: int, vs: seq<Longlong>)
    ensures Unpacked(n, vs) == UnpackAtom(t, buffer, a)
  {
    hide Unpack;
    if a.first <= a.second <= |buffer| {
      n, vs := UnpackPacked(buffer[a.first..a.second], t, []);
    } else {
      n, vs := if SizeOf(a) <= 0 then NoBytes(t, SizeOf(a)).n else -1, [];
    }
  }
}
