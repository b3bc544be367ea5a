/** The pattern encoder: it writes a C struct into a bounded slice (ext/pbc/src/pattern.c). */
module PatternPack {
  import opened Words
  import opened Proto
  import opened Pattern
  import Context
  import Packed
  import Varint

  /** `struct pbc_slice` over a caller's memory: the next byte to write and how many are
      left. */
  class Slice {
    const buffer: array<byte>
    var at: nat
    var len: nat

    ghost predicate Valid()
      reads this
    {
      at + len <= buffer.Length
    }

    constructor (buffer: array<byte>, at: nat, len: nat)
      requires at + len <= buffer.Length
      ensures Valid() && this.buffer == buffer && this.at == at && this.len == len
    {
      this.buffer, this.at, this.len := buffer, at, len;
    }

    /** A slice that was `room` bytes at `from` of memory `was` now holds bs there, stands
        behind it, and nothing else was written. */
    ghost predicate Stands(was: seq<byte>, from: nat, room: nat, bs: seq<byte>)
      reads this, buffer
    {
      && |bs| <= room && from + room <= |was| == buffer.Length
      && at == from + |bs| && len == room - |bs|
      && buffer[..] == Patched(was, from, bs)
    }

    /** Its end is where it was, and nothing outside it was written. */
    ghost predicate Strayed(was: seq<byte>, from: nat, room: nat)
      reads this, buffer
    {
      && from + room <= |was| == buffer.Length
      && from <= at && at + len == from + room
      && buffer[..from] == was[..from] && buffer[from + room..] == was[from + room..]
    }

    /** How a step ends: with bs written if `need` bytes were left, with a negative result
        if not. */
    twostate predicate Ends(bs: seq<byte>, need: nat, r: int)
      reads this, buffer
    {
      if need <= old(len) then r == |bs| && Stands(old(buffer[..]), old(at), old(len), bs)
      else r < 0 && Strayed(old(buffer[..]), old(at), old(len))
    }

    /** Two steps in a row. */
    lemma Then(was: seq<byte>, from: nat, room: nat, a: seq<byte>, b: seq<byte>)
      requires |a| <= room && from + room <= |was|
      requires Stands(Patched(was, from, a), from + |a|, room - |a|, b)
      ensures Stands(was, from, room, a + b)
    {
      PatchedTwice(was, from, a, b);
    }

    lemma ThenStrayed(was: seq<byte>, from: nat, room: nat, a: seq<byte>)
      requires |a| <= room && from + room <= |was|
      requires Strayed(Patched(was, from, a), from + |a|, room - |a|)
      ensures Strayed(was, from, room)
    {
      assert Patched(was, from, a)[..from + |a|][..from] == was[..from];
      assert buffer[..from + |a|][..from] == buffer[..from];
    }

    lemma StandsIs(was: seq<byte>, from: nat, room: nat, bs: seq<byte>)
      requires Stands(was, from, room, bs)
      ensures Valid() && at == from + |bs| && len == room - |bs| && |bs| <= room
      ensures from + room <= |was| == buffer.Length
      ensures buffer[..] == Patched(was, from, bs)
      ensures Strayed(was, from, room)
    {
    }

    lemma StandsStart()
      requires Valid()
      ensures Stands(buffer[..], at, len, [])
    {
    }

    /** The ten-byte scratch copy the packing functions use when fewer than ten bytes are
        left: `memcpy` if it fits. */
    method CopyIn(temp: array<byte>, n: nat) returns (r: int)
      requires Valid() && n <= temp.Length && temp != buffer
      modifies this, buffer
      ensures Valid() && Ends(old(temp[..n]), n, r)
    {
      if n > len {
        return -1;
      }
      ghost var was := buffer[..];
      forall k | 0 <= k < n { buffer[at + k] := temp[k]; }
      IsPatched(was, buffer[..], at, old(temp[..n]));
      at, len := at + n, len - n;
      return n;
    }

    /** `_pack_wiretype` */
    method PackWiretype(n: word) returns (r: int)
      requires Valid()
      modifies this, buffer
      ensures Valid() && Ends(Varint.Bytes(n), |Varint.Bytes(n)|, r)
    {
      hide Varint.Bytes;
      if len < 10 {
        var temp := new byte[10];
        var l := Varint.Encode32(n, temp, 0);
        assert temp[..l] == Varint.Bytes(n);
        r := CopyIn(temp, l);
      } else {
        var l := Varint.Encode32(n, buffer, at);
        at, len := at + l, len - l;
        r := l;
      }
    }

    /** `_pack_varint64`, and `_pack_sint64` after the zigzag mapping. */
    method PackVarint64(n: word64) returns (r: int)
      requires Valid()
      modifies this, buffer
      ensures Valid() && Ends(Varint.Bytes(n), |Varint.Bytes(n)|, r)
    {
      hide Varint.Bytes;
      if len < 10 {
        var temp := new byte[10];
        var l := Varint.Encode(n, temp, 0);
        assert temp[..l] == Varint.Bytes(n);
        r := CopyIn(temp, l);
      } else {
        var l := Varint.Encode(n, buffer, at);
        at, len := at + l, len - l;
        r := l;
      }
    }

    /** A checked `memcpy`; `_fix32_encode` and `_fix64_encode` after the space check. */
    method PackBytes(bs: seq<byte>) returns (r: int)
      requires Valid()
      modifies this, buffer
      ensures Valid() && Ends(bs, |bs|, r)
    {
      if len < |bs| {
        return -1;
      }
      ghost var was := buffer[..];
      forall k | 0 <= k < |bs| { buffer[at + k] := bs[k]; }
      IsPatched(was, buffer[..], at, bs);
      at, len := at + |bs|, len - |bs|;
      return |bs|;
    }

    /** The second switch of `_pack_number`. */
    method PackNumber(t: Type, v: Longlong) returns (r: int)
      requires Valid() && IsNumber(t)
      modifies this, buffer
      ensures Valid() && Ends(NumberBytes(t, v), |NumberBytes(t, v)|, r)
    {
      hide Varint.Bytes, Le32, Varint.ZigZag32, Varint.ZigZag64, Ends;
      match t
      case FIXED64 | SFIXED64 | DOUBLE => r := PackBytes(Le32(v.low) + Le32(v.hi));
      case FIXED32 | SFIXED32 | FLOAT => r := PackBytes(Le32(v.low));
      case INT64 | UINT64 | INT32 => r := PackVarint64(Join(v));
      case UINT32 | BOOL | ENUM => r := PackWiretype(v.low);
      case SINT32 => r := PackWiretype(Varint.ZigZag32(v.low));
      case SINT64 => r := PackVarint64(Varint.ZigZag64(Join(v)));
    }
  }

  // ---- packed fields

  /** `_pack_packed_varint`: the length prefix is guessed as one byte per element, the
      payload is written behind it, and the prefix is then overwritten, or the payload
      moved right to make room for a longer one. On success the slice holds the canonical
      form and not a byte more was touched; it fails exactly when that form does not fit,
      leaving the slice where it was. */
  method PackPackedVarint(slice: Slice, t: Type, vs: seq<Longlong>) returns (r: int)
    requires slice.Valid() && Packed.WidthOf(t).Varying? && |vs| < 0x800_0000
    modifies slice, slice.buffer
    ensures slice.Valid() && slice.Ends(Canonical(t, vs), |Canonical(t, vs)|, r)
    ensures r < 0 ==> slice.at == old(slice.at) && slice.len == old(slice.len)
  {
    hide Varint.Bytes, NumberBytes, PayloadBytes, Slice.Stands, Slice.Strayed, Patched;
    ghost var was, from, room := slice.buffer[..], slice.at, slice.len;
    var s := new Slice(slice.buffer, slice.at, slice.len);
    var estimate := |vs|;
    PayloadLength(t, vs, |vs|);
    Varint.BytesMonotone(|vs|, |PayloadBytes(t, vs)|);
    ghost var head := Varint.Bytes(estimate);
    var estimateLen := s.PackWiretype(estimate);
    if estimateLen < 0 {
      StrayedBack(slice, s, was, from, room);
      return -1;
    }
    var i, packedLen := 0, 0;
    PayloadStart(t, vs);
    assert head + PayloadBytes(t, vs[..0]) == head;
    while i < |vs|
      invariant 0 <= i <= |vs| && packedLen == |PayloadBytes(t, vs[..i])|
      invariant s.buffer == slice.buffer && slice.at == from && slice.len == room
      invariant s.Valid() && s.Stands(was, from, room, head + PayloadBytes(t, vs[..i]))
    {
      ghost var done := head + PayloadBytes(t, vs[..i]);
      s.StandsIs(was, from, room, done);
      var len := s.PackNumber(t, vs[i]);
      PayloadStep(t, vs, i);
      PayloadLength(t, vs, i + 1);
      if len < 0 {
        s.ThenStrayed(was, from, room, done);
        StrayedBack(slice, s, was, from, room);
        return -1;
      }
      s.Then(was, from, room, done, NumberBytes(t, vs[i]));
      assert done + NumberBytes(t, vs[i]) == head + PayloadBytes(t, vs[..i + 1]);
      packedLen := packedLen + len;
      i := i + 1;
    }
    assert vs[..i] == vs;
    r := FixPrefix(slice, s, t, vs, estimateLen, packedLen, was);
  }

  /** Writes through the copy of a slice count as writes through the slice. */
  lemma StrayedBack(slice: Slice, s: Slice, was: seq<byte>, from: nat, room: nat)
    requires s.buffer == slice.buffer && s.Strayed(was, from, room) && slice.at == from && slice.len == room
    ensures slice.Strayed(was, from, room)
  {
  }

  /** The end of `_pack_packed_varint`, with the payload written behind the guess. */
  method FixPrefix(slice: Slice, s: Slice, t: Type, vs: seq<Longlong>, estimateLen: nat, packedLen: nat,
                   ghost was: seq<byte>)
    returns (r: int)
    requires slice.Valid() && s.Valid() && s.buffer == slice.buffer && s != slice && |vs| < 0x800_0000
    requires packedLen == |PayloadBytes(t, vs)| < 0x8000_0000
    requires estimateLen == |Varint.Bytes(|vs|)| <= |Varint.Bytes(packedLen)|
    requires s.Stands(was, slice.at, slice.len, Varint.Bytes(|vs|) + PayloadBytes(t, vs))
    modifies slice, slice.buffer
    ensures slice.Valid()
    ensures var c := Canonical(t, vs);
            if |c| <= old(slice.len) then r == |c| && slice.Stands(was, old(slice.at), old(slice.len), c)
            else
              && r < 0 && slice.at == old(slice.at) && slice.len == old(slice.len)
              && slice.Strayed(was, old(slice.at), old(slice.len))
  {
    hide Varint.Bytes, PayloadBytes, Patched, Slice.Strayed;
    var from := slice.at;
    ghost var room := slice.len;
    s.StandsIs(was, from, room, Varint.Bytes(|vs|) + PayloadBytes(t, vs));
    if packedLen == |vs| {
      slice.at, slice.len := s.at, s.len;
      return packedLen + estimateLen;
    }
    var temp := new byte[10];
    var headerLen := Header(temp, packedLen);
    if headerLen == estimateLen {
      Overwrite(slice, temp, headerLen, from);
      slice.at, slice.len := s.at, s.len;
      PrefixSwapped(was, from, Varint.Bytes(packedLen), Varint.Bytes(|vs|), PayloadBytes(t, vs));
      return packedLen + estimateLen;
    }
    if headerLen + packedLen > slice.len {
      StrayedBack(slice, s, was, from, room);
      return -1;
    }
    MoveRight(slice.buffer, from, estimateLen, headerLen, packedLen);
    Overwrite(slice, temp, headerLen, from);
    MovedIs(was, from, Varint.Bytes(|vs|), PayloadBytes(t, vs), Varint.Bytes(packedLen));
    slice.at := slice.at + packedLen + headerLen;
    slice.len := slice.len - (packedLen + headerLen);
    return packedLen + headerLen;
  }

  /** The true prefix, in a scratch array. */
  method Header(temp: array<byte>, packedLen: nat) returns (headerLen: nat)
    requires temp.Length == 10 && packedLen < 0x8000_0000
    modifies temp
    ensures headerLen == |Varint.Bytes(packedLen)| <= 10 && temp[..headerLen] == Varint.Bytes(packedLen)
  {
    hide Varint.Bytes;
    var headerSlice := new Slice(temp, 0, 10);
    Varint.BytesAtMost(packedLen);
    headerLen := headerSlice.PackWiretype(packedLen);
  }

  method Overwrite(slice: Slice, temp: array<byte>, n: nat, from: nat)
    requires n <= temp.Length && temp != slice.buffer && from + n <= slice.buffer.Length
    modifies slice.buffer
    ensures slice.buffer[..] == Patched(old(slice.buffer[..]), from, old(temp[..n]))
  {
    forall k | 0 <= k < n { slice.buffer[from + k] := temp[k]; }
    IsPatched(old(slice.buffer[..]), slice.buffer[..], from, old(temp[..n]));
  }

  /** `memmove` of n bytes from `from + a` to `from + b`. */
  method MoveRight(buffer: array<byte>, from: nat, a: nat, b: nat, n: nat)
    requires a <= b && from + b + n <= buffer.Length
    modifies buffer
    ensures buffer[..] == Patched(old(buffer[..]), from + b, old(buffer[from + a..from + a + n]))
  {
    forall k | 0 <= k < n { buffer[from + b + k] := buffer[from + a + k]; }
    IsPatched(old(buffer[..]), buffer[..], from + b, old(buffer[from + a..from + a + n]));
  }

  /** Overwriting a prefix by one of the same length. */
  lemma PrefixSwapped(was: seq<byte>, from: nat, a: seq<byte>, b: seq<byte>, payload: seq<byte>)
    requires |a| == |b| && from + |a| + |payload| <= |was|
    ensures Patched(Patched(was, from, b + payload), from, a) == Patched(was, from, a + payload)
  {
  }

  /** Moving the payload and writing a longer prefix before it. */
  lemma MovedIs(was: seq<byte>, from: nat, b: seq<byte>, payload: seq<byte>, a: seq<byte>)
    requires |b| <= |a| && from + |a| + |payload| <= |was|
    ensures var m := Patched(was, from, b + payload);
            m[from + |b|..from + |b| + |payload|] == payload
            && Patched(Patched(m, from + |a|, payload), from, a) == Patched(was, from, a + payload)
  {
  }

  /** `_pack_packed_fixed`. The check that the payload fits takes the length of the prefix
      off a second time, so the call needs that much more room than it uses. */
  method PackPackedFixed(s: Slice, t: Type, width: nat, vs: seq<Longlong>) returns (r: int)
    requires s.Valid() && |vs| < 0x800_0000
    requires (width == 8 && Packed.WidthOf(t).Fixed8?) || (width == 4 && Packed.WidthOf(t).Fixed4?)
    modifies s, s.buffer
    ensures s.Valid() && s.Ends(Canonical(t, vs), |Canonical(t, vs)| + |Varint.Bytes(width * |vs|)|, r)
  {
    hide Varint.Bytes, NumberBytes, PayloadBytes, Patched, Slice.Stands, Slice.Strayed;
    ghost var was, from, room := s.buffer[..], s.at, s.len;
    var n := |vs|;
    PayloadLength(t, vs, n);
    ghost var head := Varint.Bytes(n * width);
    var len := s.PackWiretype(n * width);
    if len < 0 {
      return len;
    }
    s.StandsIs(was, from, room, head);
    if s.len - len < n * width {
      return -1;
    }
    var i := 0;
    PayloadStart(t, vs);
    assert head + PayloadBytes(t, vs[..0]) == head;
    while i < n
      invariant 0 <= i <= n && s.Valid() && |PayloadBytes(t, vs[..i])| == width * i
      invariant s.Stands(was, from, room, head + PayloadBytes(t, vs[..i]))
    {
      ghost var done := head + PayloadBytes(t, vs[..i]);
      s.StandsIs(was, from, room, done);
      NumberLength(t, vs[i]);
      var l := s.PackNumber(t, vs[i]);
      PayloadStep(t, vs, i);
      s.Then(was, from, room, done, NumberBytes(t, vs[i]));
      assert done + NumberBytes(t, vs[i]) == head + PayloadBytes(t, vs[..i + 1]);
      i := i + 1;
    }
    assert vs[..i] == vs;
    return len + n * width;
  }

  // ---- one field

  /** `_pack_field` */
  method PackField(s: Slice, f: PField, v: Var) returns (r: int)
    requires s.Valid() && FieldOk(f) && VarOk(f.ptype, v)
    modifies s, s.buffer
    ensures s.Valid() && s.Ends(VarRec(f, v).Bytes(), |VarRec(f, v).Bytes()|, r)
  {
    hide Varint.Bytes, NumberBody, Patched, Slice.Stands, Slice.Strayed, TextBytes, Tag;
    ghost var was, from, room := s.buffer[..], s.at, s.len;
    var tag := Tag(f.id, WireType(f.ptype));
    ghost var head, rec := Varint.Bytes(tag), VarRec(f, v);
    var ret := s.PackWiretype(tag);
    if ret < 0 {
      return ret;
    }
    s.StandsIs(was, from, room, head);
    if v.Num? {
      var len := s.PackNumber(f.ptype, v.v);
      NumberBytesOf(f, v);
      if len < 0 {
        s.ThenStrayed(was, from, room, head);
        return len;
      }
      s.Then(was, from, room, head, NumberBytes(f.ptype, v.v));
      return ret + len;
    }
    var bs := TextBytes(f.ptype, v.s);
    var len := PackText(s, bs);
    if len < 0 {
      s.ThenStrayed(was, from, room, head);
      return len;
    }
    s.Then(was, from, room, head, Varint.Bytes(|bs|) + bs);
    return ret + len;
  }

  lemma NumberBytesOf(f: PField, v: Var)
    requires v.Num?
    ensures VarRec(f, v).BodyBytes() == NumberBytes(f.ptype, v.v)
  {
    hide NumberBody, Le32;
  }

  /** A length and that many bytes. */
  method PackText(s: Slice, bs: seq<byte>) returns (r: int)
    requires s.Valid() && |bs| < 0x8000_0000
    modifies s, s.buffer
    ensures s.Valid() && s.Ends(Varint.Bytes(|bs|) + bs, |Varint.Bytes(|bs|) + bs|, r)
  {
    hide Varint.Bytes, Patched, Slice.Stands, Slice.Strayed;
    ghost var was, from, room := s.buffer[..], s.at, s.len;
    ghost var head := Varint.Bytes(|bs|);
    var ret := s.PackWiretype(|bs|);
    if ret < 0 {
      return ret;
    }
    s.StandsIs(was, from, room, head);
    var len := s.PackBytes(bs);
    if len < 0 {
      s.ThenStrayed(was, from, room, head);
      return -1;
    }
    s.Then(was, from, room, head, bs);
    return ret + len;
  }

  /** `_pack_repeated` */
  method PackRepeated(s: Slice, f: PField, vs: seq<Var>) returns (r: int)
    requires s.Valid() && FieldOk(f) && f.flabel.REPEATED? && CellOk(f, Elements(vs))
    modifies s, s.buffer
    ensures s.Valid()
    ensures s.Ends(Context.Serialise(FieldRecs(f, Elements(vs))), |Context.Serialise(FieldRecs(f, Elements(vs)))|, r)
  {
    hide Context.Serialise, Context.Rec.Bytes, VarRec, Patched, Slice.Stands, Slice.Strayed, TextBytes;
    ghost var was, from, room := s.buffer[..], s.at, s.len;
    ghost var recs := FieldRecs(f, Elements(vs));
    SerialiseNone();
    s.StandsStart();
    r := 0;
    var i := 0;
    while i < |vs|
      invariant 0 <= i <= |vs| && s.Valid() && r == |Context.Serialise(recs[..i])|
      invariant s.Stands(was, from, room, Context.Serialise(recs[..i]))
    {
      ghost var done := Context.Serialise(recs[..i]);
      s.StandsIs(was, from, room, done);
      SerialiseStep(recs, i);
      var len := PackField(s, f, vs[i]);
      if len < 0 {
        s.ThenStrayed(was, from, room, done);
        return len;
      }
      s.Then(was, from, room, done, recs[i].Bytes());
      r := r + len;
      i := i + 1;
    }
    assert recs[..i] == recs;
    s.StandsIs(was, from, room, Context.Serialise(recs));
  }

  lemma SerialiseNone()
    ensures Context.Serialise([]) == []
  {
  }

  lemma OneRecord(rec: Context.Rec)
    ensures Context.Serialise([rec]) == rec.Bytes()
  {
    hide Context.Rec.Bytes;
    SerialiseNone();
    assert [rec] == [rec][..1] && [rec][..0] == [];
    SerialiseStep([rec], 0);
  }

  lemma SerialiseStep(recs: seq<Context.Rec>, i: nat)
    requires i < |recs|
    ensures recs[..0] == []
    ensures Context.Serialise(recs[..i + 1]) == Context.Serialise(recs[..i]) + recs[i].Bytes()
    ensures |Context.Serialise(recs[..i + 1])| <= |Context.Serialise(recs)|
  {
    hide Context.Serialise, Context.Rec.Bytes;
    assert recs[..i + 1] == recs[..i] + [recs[i]];
    SerialiseAppend(recs[..i], recs[i]);
    assert recs == recs[..i + 1] + recs[i + 1..];
    Context.SerialiseAll(recs[..i + 1], recs[i + 1..]);
  }

  /** `_pack_packed` */
  method PackPacked(s: Slice, f: PField, vs: seq<Var>) returns (r: int)
    requires s.Valid() && FieldOk(f) && f.flabel.PACKED? && CellOk(f, Elements(vs))
    modifies s, s.buffer
    ensures s.Valid() && s.Ends(Context.Serialise(FieldRecs(f, Elements(vs))), Need(f, Elements(vs)), r)
  {
    hide Varint.Bytes, PayloadBytes, Patched, Slice.Stands, Slice.Strayed, Context.Serialise, Numbers, Tag;
    SerialiseNone();
    if vs == [] {
      s.StandsStart();
      return 0;
    }
    ghost var was, from, room := s.buffer[..], s.at, s.len;
    var tag := Tag(f.id, Context.WT_LEND);
    ghost var head, ns := Varint.Bytes(tag), Numbers(vs);
    OneRecord(PackedRec(f, vs));
    assert FieldRecs(f, Elements(vs)) == [PackedRec(f, vs)];
    assert PackedRec(f, vs).Bytes() == head + Canonical(f.ptype, ns);
    PayloadLength(f.ptype, ns, |ns|);
    var ret := s.PackWiretype(tag);
    if ret < 0 {
      return ret;
    }
    s.StandsIs(was, from, room, head);
    var len := PackPayload(s, f.ptype, Numbers(vs));
    if len < 0 {
      s.ThenStrayed(was, from, room, head);
      return len;
    }
    s.Then(was, from, room, head, Canonical(f.ptype, ns));
    return ret + len;
  }

  /** The switch of `_pack_packed`. */
  method PackPayload(s: Slice, t: Type, vs: seq<Longlong>) returns (r: int)
    requires s.Valid() && IsNumber(t) && |vs| < 0x800_0000
    modifies s, s.buffer
    ensures s.Valid()
    ensures var again := if Packed.WidthOf(t).Varying? then 0 else |Varint.Bytes(|PayloadBytes(t, vs)|)|;
            s.Ends(Canonical(t, vs), |Canonical(t, vs)| + again, r)
  {
    hide Varint.Bytes, PayloadBytes, Slice.Stands, Slice.Strayed, Canonical;
    PayloadLength(t, vs, |vs|);
    match t
    case FIXED64 | SFIXED64 | DOUBLE => r := PackPackedFixed(s, t, 8, vs);
    case FIXED32 | SFIXED32 | FLOAT => r := PackPackedFixed(s, t, 4, vs);
    case INT64 | UINT64 | INT32 | UINT32 | BOOL | ENUM | SINT32 | SINT64 => r := PackPackedVarint(s, t, vs);
  }

  // ---- a whole struct

  /** One round of `pbc_pattern_pack`'s loop. */
  method PackCell(s: Slice, f: PField, c: Cell) returns (r: int)
    requires s.Valid() && FieldOk(f) && CellOk(f, c)
    modifies s, s.buffer
    ensures s.Valid() && s.Ends(Context.Serialise(FieldRecs(f, c)), Need(f, c), r)
  {
    hide Context.Serialise, IsDefault, VarRec, PackedRec, Patched;
    hide Slice.Stands, Slice.Strayed, Bits, PayloadBytes, TextOk;
    SerialiseNone();
    if f.flabel.OPTIONAL? && IsDefault(f, c) {
      s.StandsStart();
      return 0;
    }
    if Single(f) {
      var v := if c.Plain? then Num(Bits(c.n)) else Str(c.s);
      OneRecord(VarRec(f, v));
      assert FieldRecs(f, c) == [VarRec(f, v)];
      r := PackField(s, f, v);
    } else if f.flabel.REPEATED? {
      r := PackRepeated(s, f, c.vs);
    } else {
      r := PackPacked(s, f, c.vs);
    }
  }

  /** `pbc_pattern_pack`: on success `s.len` becomes the number of bytes written and the
      number of bytes left over is returned. It succeeds exactly when every field in turn
      finds the room it asks for; if not, `s` is as it was and only memory inside it may
      have been written. */
  method Pack(pat: seq<PField>, input: seq<Cell>, s: Slice) returns (ret: int)
    requires s.Valid() && PatternOk(pat) && StructOk(pat, input)
    modifies s`len, s.buffer
    ensures var bs := Context.Serialise(RecsTo(pat, input, |pat|));
            if Room(pat, input, |pat|, old(s.len)) then
              && ret == old(s.len) - |bs| >= 0 && s.len == |bs|
              && s.buffer[..] == Patched(old(s.buffer[..]), s.at, bs)
            else
              && ret < 0 && s.len == old(s.len)
              && s.buffer[..s.at] == old(s.buffer[..s.at]) && s.buffer[s.at + s.len..] == old(s.buffer[s.at + s.len..])
  {
    hide Context.Serialise, Patched, RecsTo, Need, FieldRecs, CellOk, FieldOk;
    ghost var was, from, room := s.buffer[..], s.at, s.len;
    var slice := new Slice(s.buffer, s.at, s.len);
    NoFields(pat, input);
    slice.StandsStart();
    var i := 0;
    while i < |pat|
      invariant 0 <= i <= |pat| && slice.Valid() && slice.buffer == s.buffer && s.at == from && s.len == room
      invariant Room(pat, input, i, room)
      invariant slice.Stands(was, from, room, Context.Serialise(RecsTo(pat, input, i)))
    {
      ghost var done := Context.Serialise(RecsTo(pat, input, i));
      slice.StandsIs(was, from, room, done);
      NextField(pat, input, i);
      var len := PackCell(slice, pat[i], input[i]);
      if len < 0 {
        slice.ThenStrayed(was, from, room, done);
        NoRoom(pat, input, i + 1, |pat|, room);
        return len;
      }
      slice.Then(was, from, room, done, Context.Serialise(FieldRecs(pat[i], input[i])));
      i := i + 1;
    }
    var len := slice.at - s.at;
    ret := s.len - len;
    s.len := len;
  }

  lemma NoFields(pat: seq<PField>, cells: seq<Cell>)
    requires |cells| == |pat|
    ensures Context.Serialise(RecsTo(pat, cells, 0)) == []
  {
  }

  lemma NextField(pat: seq<PField>, cells: seq<Cell>, i: nat)
    requires i < |pat| == |cells|
    ensures Context.Serialise(RecsTo(pat, cells, i + 1))
         == Context.Serialise(RecsTo(pat, cells, i)) + Context.Serialise(FieldRecs(pat[i], cells[i]))
  {
    hide Context.Serialise, FieldRecs;
    Context.SerialiseAll(RecsTo(pat, cells, i), FieldRecs(pat[i], cells[i]));
  }

  lemma {:induction false} NoRoom(pat: seq<PField>, cells: seq<Cell>, i: nat, j: nat, room: nat)
    requires i <= j <= |pat| == |cells| && !Room(pat, cells, i, room)
    ensures !Room(pat, cells, j, room)
  {
    hide Context.Serialise, Need, RecsTo;
    if i < j { NoRoom(pat, cells, i, j - 1, room); }
  }

  /** The room a pattern asks for lies between the bytes it writes and those bytes plus
      five for the widest prefix; without a packed field of fixed width it is the bytes
      themselves. */
  lemma {:induction false} RoomIs(pat: seq<PField>, cells: seq<Cell>, i: nat, room: nat)
    requires i <= |pat| && PatternOk(pat) && StructOk(pat, cells)
    ensures Room(pat, cells, i, room) ==> |Context.Serialise(RecsTo(pat, cells, i))| <= room
    ensures |Context.Serialise(RecsTo(pat, cells, i))| + 5 <= room ==> Room(pat, cells, i, room)
    ensures (forall k | 0 <= k < i :: pat[k].flabel.PACKED? ==> Packed.WidthOf(pat[k].ptype).Varying?) ==>
              (Room(pat, cells, i, room) <==> |Context.Serialise(RecsTo(pat, cells, i))| <= room)
  {
    hide Context.Serialise, FieldRecs, RecsTo, TextOk, VarOk, Varint.Bytes, PayloadBytes, FieldOk;
    NoFields(pat, cells);
    if i > 0 {
      RoomIs(pat, cells, i - 1, room);
      NextField(pat, cells, i - 1);
      var c := cells[i - 1];
      assert CellOk(pat[i - 1], c);
      if c.Elements? {
        PayloadLength(pat[i - 1].ptype, Numbers(c.vs), |c.vs|);
        Varint.BytesAtMost(|PayloadBytes(pat[i - 1].ptype, Numbers(c.vs))|);
      }
    }
  }

  /** A struct whose last packed field of fixed width ends exactly where the slice does is
      refused, although its bytes would fit. */
  lemma ExactFitRefused(pat: seq<PField>, cells: seq<Cell>)
    requires PatternOk(pat) && StructOk(pat, cells) && pat != []
    requires var f, c := pat[|pat| - 1], cells[|pat| - 1];
             f.flabel.PACKED? && c.Elements? && c.vs != [] && !Packed.WidthOf(f.ptype).Varying?
    ensures !Room(pat, cells, |pat|, |Context.Serialise(RecsTo(pat, cells, |pat|))|)
  {
    hide Context.Serialise, FieldRecs, RecsTo, FieldOk, CellOk, PayloadBytes, Varint.Bytes;
    NextField(pat, cells, |pat| - 1);
  }
}
