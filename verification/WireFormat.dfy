/** The wire format written out: the bytes of every kind of record, and which bytes are read as
    a record ("Protocol Buffers Encoding", sections "Message Structure" and "Packed Repeated
    Fields"). */
module WireFormat {
  import opened Words
  import opened Wrappers
  import opened Proto
  import Context
  import Packed
  import Varint

  // ---- writing

  /** Four bytes, least significant first. */
  predicate Little(w: word, bs: seq<byte>) {
    |bs| == 4 && w == bs[0] as int + 0x100 * (bs[1] as int + 0x100 * (bs[2] as int + 0x100 * (bs[3] as int)))
  }

  lemma {:induction false} LittleIs(w: word)
    ensures Little(w, Le32(w))
  {
    var a, b, c := w / 0x100, w / 0x1_0000, w / 0x100_0000;
    assert b == a / 0x100 && c == b / 0x100;
  }

  lemma {:induction false} LittleRead(bs: seq<byte>)
    requires |bs| >= 4
    ensures Little(OfLe32(bs), bs[..4])
  {
  }

  /** The zigzag code of a number given by its pattern: 0, -1, 1, -2 get 0, 1, 2, 3. */
  predicate ZigZagged(n: nat, half: nat, code: nat) {
    if n < half then code == 2 * n else code == 2 * (2 * half - n) - 1
  }

  lemma {:induction false} ZigZag32Is(n: word)
    ensures ZigZagged(n, 0x8000_0000, Varint.ZigZag32(n))
  {
  }

  lemma {:induction false} ZigZag64Is(n: word64)
    ensures ZigZagged(n, 0x8000_0000_0000_0000, Varint.ZigZag64(n))
  {
    Varint.ZigZag64Magnitude(n);
  }

  /** The upper word of an undone zigzag 32-bit code is the top bit of the code. */
  lemma {:induction false} UnZigZag32Is(v: Longlong)
    ensures var r := Varint.DeZigZag32(v);
            && r.low == (if v.low % 2 == 0 then v.low / 2 else 0xFFFF_FFFF - v.low / 2)
            && r.hi == if v.low < 0x8000_0000 then 0 else 0xFFFF_FFFF
  {
  }

  /** The body of a number as it is written, type by type. */
  ghost predicate NumberWritten(t: Type, v: Longlong, body: seq<byte>) {
    var n := v.hi * 0x1_0000_0000 + v.low;
    match t
    case INT64 | UINT64 | INT32 => body == Varint.Bytes(n)
    case UINT32 | BOOL | ENUM => body == Varint.Bytes(v.low)
    case SINT32 => exists z: nat :: ZigZagged(v.low, 0x8000_0000, z) && body == Varint.Bytes(z)
    case SINT64 => exists z: nat :: ZigZagged(n, 0x8000_0000_0000_0000, z) && body == Varint.Bytes(z)
    case FIXED64 | SFIXED64 | DOUBLE => |body| == 8 && Little(v.low, body[..4]) && Little(v.hi, body[4..])
    case FIXED32 | SFIXED32 | FLOAT => Little(v.low, body)
    case STRING | BYTES | MESSAGE | GROUP => false
  }

  /** The wire types: 0 for varints, 1 for eight bytes, 2 for a length and that many bytes, 5 for
      four bytes. */
  predicate WireTypeOf(t: Type, w: nat) {
    match t
    case INT64 | UINT64 | INT32 | UINT32 | BOOL | ENUM | SINT32 | SINT64 => w == 0
    case FIXED64 | SFIXED64 | DOUBLE => w == 1
    case STRING | BYTES | MESSAGE | GROUP => w == 2
    case FIXED32 | SFIXED32 | FLOAT => w == 5
  }

  lemma {:induction false} WireTypeIs(t: Type)
    ensures WireTypeOf(t, WireType(t))
  {
  }

  lemma {:induction false} TagIs(id: int, w: nat)
    requires 0 <= id < 0x2000_0000 && w < 8
    ensures Tag(id, w) == 8 * id + w
  {
  }

  lemma {:induction false} BodyWritten(t: Type, v: Longlong)
    requires Numeric(t)
    ensures NumberWritten(t, v, Context.Rec(0, NumberBody(t, v)).BodyBytes())
  {
    hide Varint.Bytes, Le32, Varint.ZigZag32, Varint.ZigZag64;
    LittleIs(v.low);
    LittleIs(v.hi);
    ZigZag32Is(v.low);
    ZigZag64Is(Join(v));
    assert (Le32(v.low) + Le32(v.hi))[..4] == Le32(v.low) && (Le32(v.low) + Le32(v.hi))[4..] == Le32(v.hi);
  }

  /** A number is written as its tag, 8 times the field id plus the wire type, and its body. */
  lemma {:induction false} NumberRecord(f: Field, v: Longlong)
    requires Numeric(f.ftype) && 1 <= f.id < 0x1000_0000
    ensures Fits(f, Number(v))
    ensures exists w: nat, body ::
              && WireTypeOf(f.ftype, w) && NumberWritten(f.ftype, v, body)
              && RecOf(f, Number(v)).Bytes() == Varint.Bytes(8 * f.id + w) + body
  {
    hide Varint.Bytes, NumberBody, NumberWritten, Context.Rec.BodyBytes;
    var w := WireType(f.ftype);
    WireTypeIs(f.ftype);
    TagIs(f.id, w);
    BodyWritten(f.ftype, v);
    var r := RecOf(f, Number(v));
    SameBody(r, Context.Rec(0, NumberBody(f.ftype, v)));
    assert r.Bytes() == Varint.Bytes(8 * f.id + w) + r.BodyBytes();
  }

  lemma {:induction false} SameBody(r: Context.Rec, q: Context.Rec)
    requires r.body == q.body
    ensures r.BodyBytes() == q.BodyBytes()
  {
  }

  /** A text is written as its tag, its length and its bytes. */
  lemma {:induction false} TextRecord(f: Field, bs: seq<byte>)
    requires Fits(f, Chars(bs)) && 1 <= f.id < 0x1000_0000
    ensures RecOf(f, Chars(bs)).Bytes() == Varint.Bytes(8 * f.id + 2) + Varint.Bytes(|bs|) + bs
  {
    hide Varint.Bytes;
    WireTypeIs(f.ftype);
    TagIs(f.id, 2);
  }

  /** So is a sub-message. */
  lemma {:induction false} ChildRecord(t: Tree, e: Entry)
    requires e in t.entries && e.Child? && 1 <= e.field.id < 0x1000_0000
    ensures EntryRec(t, e).Bytes() == Varint.Bytes(8 * e.field.id + 2) + Varint.Bytes(|Encode(e.tree)|) + Encode(e.tree)
  {
    hide Varint.Bytes, Encode;
    ChildRecIs(t, e);
    TagIs(e.field.id, 2);
  }

  /** A message is its entries, one behind the other. */
  lemma {:induction false} EntriesInOrder(t: Tree)
    ensures t.entries == [] ==> Encode(t) == []
    ensures t.entries != [] ==>
              var n := |t.entries| - 1;
              Encode(t) == Prefix(t, n) + EntryRec(t, t.entries[n]).Bytes()
              && forall i | 0 <= i < n :: Prefix(t, i + 1) == Prefix(t, i) + EntryRec(t, t.entries[i]).Bytes()
    ensures Prefix(t, 0) == []
  {
    hide Encode, Prefix, EntryRec;
    PrefixAll(t);
    forall i | 0 <= i < |t.entries| ensures Prefix(t, i + 1) == Prefix(t, i) + EntryRec(t, t.entries[i]).Bytes() {
      PrefixStep(t, i);
    }
  }

  // ---- reading

  /** What the first bytes are as a record at an offset: the tag and the body, by wire type. */
  ghost predicate ReadAs(bs: seq<byte>, start: nat, r: Option<Context.Step>) {
    var tag := Varint.Read(bs);
    if tag.None? || tag.value.value.hi != 0 then r == None
    else
      var t, body, l := tag.value.value.low, bs[tag.value.len..], tag.value.len;
      var id := if t < 0x8000_0000 then t as int else t - 0x1_0000_0000;
      if t % 8 == 0 then
        var v := Varint.Read(body);
        if v.None? then r == None
        else r == Some(Context.Step(Context.Atom(id, v.value.value.low, v.value.value.hi), l + v.value.len, l
          + v.value.len))
      else if t % 8 == 1 then
        if |body| < 8 then r == None
        else
          && r.Some? && r.value.atom.wireId == id && r.value.len == r.value.move == l + 8
          && r.value.atom.first < 0x1_0000_0000 && r.value.atom.second < 0x1_0000_0000
          && Little(r.value.atom.first, body[..4]) && Little(r.value.atom.second, body[4..8])
      else if t % 8 == 2 then
        var v := Varint.Read(body);
        if v.None? || v.value.value.hi != 0 then r == None
        else
          var n := v.value.len + v.value.value.low;
          var sum := n % 0x1_0000_0000;
          if sum > |body| then r == None
          else
            var at := start + l;
            r == Some(Context.Step(Context.Atom(id, at + v.value.len, at + sum), l + sum, l + n))
      else if t % 8 == 5 then
        if |body| < 4 then r == None
        else
          && r.Some? && r.value.atom.wireId == id && r.value.len == r.value.move == l + 4
          && r.value.atom.first < 0x1_0000_0000 && r.value.atom.second == 0 && Little(r.value.atom.first, body[..4])
      else r == None
  }

  /** Every sequence of bytes is read as a record, or refused, exactly as the wire format says. */
  lemma {:induction false} RecordExactly(bs: seq<byte>, start: nat)
    ensures ReadAs(bs, start, Context.Record(bs, start))
  {
    hide Varint.Read, OfLe32;
    var tag := Varint.Read(bs);
    if tag.Some? {
      var body := bs[tag.value.len..];
      if |body| >= 4 { LittleRead(body); }
      if |body| >= 8 {
        LittleRead(body[4..]);
        assert body[4..][..4] == body[4..8];
      }
    }
  }

  // ---- packed payloads

  /** Numbers of fixed width: all of the payload, or nothing if its size does not fit. */
  lemma {:induction false} FixedExactly(t: Type, bs: seq<byte>)
    ensures t in {DOUBLE, FIXED64, SFIXED64} ==>
              var u := Packed.Unpack(t, bs);
              if |bs| % 8 != 0 then u == Packed.Unpacked(-1, [])
              else
                && u.n == |u.vs| == |bs| / 8
                && forall i | 0 <= i < |u.vs| :: 8 * i + 8 <= |bs| && Little(u.vs[i].low, bs[8 * i..8 * i + 4])
                                                 && Little(u.vs[i].hi, bs[8 * i + 4..8 * i + 8])
    ensures t in {FLOAT, FIXED32, SFIXED32} ==>
              var u := Packed.Unpack(t, bs);
              if |bs| % 4 != 0 then u == Packed.Unpacked(-1, [])
              else
                && u.n == |u.vs| == |bs| / 4
                && forall i | 0 <= i < |u.vs| ::
                     4 * i + 4 <= |bs| && u.vs[i].hi == 0 && Little(u.vs[i].low, bs[4 * i..4 * i + 4])
  {
    hide Packed.Fixed, Little;
    FixedAt(8, bs);
    FixedAt(4, bs);
  }

  lemma {:induction false} FixedAt(width: nat, bs: seq<byte>)
    requires width == 4 || width == 8
    ensures var vs := Packed.Fixed(width, bs);
            && |vs| == |bs| / width
            && forall i | 0 <= i < |vs| ::
                 && width * i + width <= |bs| && Little(vs[i].low, bs[width * i..width * i + 4])
                 && (width == 8 ==> Little(vs[i].hi, bs[8 * i + 4..8 * i + 8])) && (width == 4 ==> vs[i].hi == 0)
    decreases |bs|
  {
    hide OfLe32, Little;
    if |bs| >= width {
      var rest := bs[width..];
      FixedAt(width, rest);
      LittleRead(bs);
      if width == 8 { LittleRead(bs[4..]); assert bs[4..][..4] == bs[4..8]; }
      var vs, ws := Packed.Fixed(width, bs), Packed.Fixed(width, rest);
      forall i | 0 < i < |vs|
        ensures width * i + width <= |bs| && Little(vs[i].low, bs[width * i..width * i + 4])
        ensures (width == 8 ==> Little(vs[i].hi, bs[8 * i + 4..8 * i + 8])) && (width == 4 ==> vs[i].hi == 0)
      {
        assert vs[i] == ws[i - 1];
        Shifted(bs, width, i);
      }
    }
  }

  lemma {:induction false} Shifted(bs: seq<byte>, width: nat, i: nat)
    requires (width == 4 || width == 8) && 0 < i && |bs| >= width && width * (i - 1) + width <= |bs| - width
    ensures width * i + width <= |bs|
    ensures bs[width..][width * (i - 1)..width * (i - 1) + 4] == bs[width * i..width * i + 4]
    ensures width == 8 ==> bs[8..][8 * (i - 1) + 4..8 * (i - 1) + 8] == bs[8 * i + 4..8 * i + 8]
  {
  }

  /** Varints one behind the other, each with its zigzag undone: the count, or -1 behind the
      values before one that does not end. */
  lemma {:induction false} VarintsExactly(t: Type, bs: seq<byte>)
    requires Packed.WidthOf(t).Varying?
    ensures t in {INT64, UINT64, INT32, UINT32, ENUM, BOOL, SINT32, SINT64}
    ensures bs == [] ==> Packed.Unpack(t, bs) == Packed.Unpacked(0, [])
    ensures bs != [] && Varint.Read(bs).None? ==> Packed.Unpack(t, bs) == Packed.Unpacked(-1, [])
    ensures bs != [] && Varint.Read(bs).Some? ==>
              var v := Varint.Read(bs).value;
              var u, rest := Packed.Unpack(t, bs), Packed.Unpack(t, bs[v.len..]);
              && u.vs != [] && u.vs[1..] == rest.vs && u.n == (if rest.n < 0 then -1 else rest.n + 1)
              && u.vs[0] == if t.SINT32? then Varint.DeZigZag32(v.value)
                 else if t.SINT64? then Varint.DeZigZag64(v.value) else v.value
  {
    hide Varint.Read, Varint.DeZigZag32, Varint.DeZigZag64;
  }

  /** Other types have no packed form. */
  lemma {:induction false} NoneUnpackable(t: Type, bs: seq<byte>)
    requires t in {STRING, BYTES, MESSAGE, GROUP}
    ensures Packed.Unpack(t, bs) == Packed.Unpacked(-1, [])
  {
  }

  /** The bytes a record points at, as a payload: those of its slice; none if the size is not
      positive; and malformed if they are not in the buffer. */
  lemma {:induction false} SliceExactly(t: Type, buffer: seq<byte>, a: Context.Atom)
    ensures var u := Packed.UnpackAtom(t, buffer, a);
            var size := ToInt32((a.second - a.first) % 0x1_0000_0000);
            if a.first <= a.second <= |buffer| then u == Packed.Unpack(t, buffer[a.first..a.second])
            else if size > 0 || t in {STRING, BYTES, MESSAGE, GROUP} then u == Packed.Unpacked(-1, [])
            else if t in {DOUBLE, FIXED64, SFIXED64}
              then u == Packed.Unpacked(if size % 8 != 0 then -1 else size / 8, [])
            else if t in {FLOAT, FIXED32, SFIXED32}
              then u == Packed.Unpacked(if size % 4 != 0 then -1 else size / 4, [])
            else u == Packed.Unpacked(0, [])
  {
    hide Packed.Unpack;
  }
}
