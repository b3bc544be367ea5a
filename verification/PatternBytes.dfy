/** What the pattern encoder writes (ext/pbc/src/pattern.c), byte by byte: which variables are
    left out, the record of each, and the room asked for. */
module PatternBytes {
  import opened Words
  import opened Wrappers
  import opened Proto
  import opened Pattern
  import Context
  import Packed
  import PatternPack
  import Varint
  import WireFormat

  // ---- defaults left out

  /** `==` on two doubles given by their 64 bits: no NaN is equal to anything, and the two zeros
      are. */
  predicate SameDouble(x: nat, y: nat) {
    var m, n := x % 0x8000_0000_0000_0000, y % 0x8000_0000_0000_0000;
    && m <= 0x7FF0_0000_0000_0000 && n <= 0x7FF0_0000_0000_0000
    && (x == y || m == 0 == n)
  }

  predicate SameFloat(x: nat, y: nat) {
    var m, n := x % 0x8000_0000, y % 0x8000_0000;
    m <= 0x7F80_0000 && n <= 0x7F80_0000 && (x == y || m == 0 == n)
  }

  /** A plain variable equals the default of its field, per C type. */
  predicate EqualsDefault(f: PField, n: nat)
    requires f.defv.Num?
  {
    var low, hi := f.defv.v.low, f.defv.v.hi;
    match f.ctype
    case CINT64 => n == hi * 0x1_0000_0000 + low
    case CINT32 => n == low
    case CINT16 => n == low % 65536
    case CINT8 => n == low % 256
    case CBOOL => if low == 0 then n == 0 else n == 1
    case CDOUBLE => SameDouble(hi * 0x1_0000_0000 + low, n)
    case CFLOAT => SameFloat(low, n)
    case CARRAY | CVAR | CPACKED => false
  }

  /** A string equals the default: as C strings if it has no positive length or is null, and
      otherwise in length and bytes. */
  predicate EqualsText(d: seq<byte>, dlen: int, s: Text) {
    match s.mem
    case None => d != [] && d[0] == 0
    case Some(mem) =>
      if s.len <= 0 then SameString(d, mem)
      else s.len == dlen && s.len <= |d| && s.len <= |mem| && forall i | 0 <= i < s.len :: d[i] == mem[i]
  }

  /** Two C strings, as `strcmp` compares them. */
  predicate SameString(d: seq<byte>, mem: seq<byte>) {
    exists k :: 0 <= k <= |d| && k <= |mem| && d[..k] == mem[..k] && EndsAt(d, k) && EndsAt(mem, k)
  }

  predicate EndsAt(bs: seq<byte>, k: nat) {
    k <= |bs| && (k < |bs| ==> bs[k] == 0) && forall i | 0 <= i < k :: bs[i] != 0
  }

  lemma {:induction false} CStringEnds(bs: seq<byte>, k: nat)
    ensures EndsAt(bs, k) <==> k == |CString(bs)|
  {
    var r := CString(bs);
    assert forall i | 0 <= i < |r| :: bs[i] == r[i];
  }

  lemma {:induction false} SameStringIs(d: seq<byte>, mem: seq<byte>)
    ensures SameString(d, mem) <==> CString(d) == CString(mem)
  {
    var a, b := CString(d), CString(mem);
    CStringEnds(d, |a|);
    CStringEnds(mem, |b|);
    if k: nat :| k <= |d| && k <= |mem| && d[..k] == mem[..k] && EndsAt(d, k) && EndsAt(mem, k) {
      CStringEnds(d, k);
      CStringEnds(mem, k);
    }
  }

  lemma {:induction false} PlainDefault(f: PField, n: nat)
    requires FieldOk(f) && Single(f) && f.defv.Num? && CellShape(f, Plain(n))
    ensures IsDefault(f, Plain(n)) <==> EqualsDefault(f, n)
  {
    if f.ctype.CDOUBLE? { DoubleBits(f.defv.v, n); }
    if f.ctype.CFLOAT? { FloatBits(n); }
  }

  lemma {:induction false} FloatBits(n: nat)
    requires n < 0x1_0000_0000
    ensures Bits(n).low == n
  {
  }

  lemma {:induction false} DoubleBits(v: Longlong, n: nat)
    requires n < 0x1_0000_0000_0000_0000
    ensures DoubleEq(v, Bits(n)) <==> SameDouble(v.hi * 0x1_0000_0000 + v.low, n)
  {
    var w := Bits(n);
    assert n == w.hi * 0x1_0000_0000 + w.low;
    Halves(v);
    Halves(w);
  }

  lemma {:induction false} Halves(v: Longlong)
    ensures var x := v.hi * 0x1_0000_0000 + v.low;
            && x % 0x8000_0000_0000_0000 == v.hi % 0x8000_0000 * 0x1_0000_0000 + v.low
            && (DoubleNaN(v) <==> x % 0x8000_0000_0000_0000 > 0x7FF0_0000_0000_0000)
            && (DoubleZero(v) <==> x % 0x8000_0000_0000_0000 == 0)
  {
    var top, m := v.hi / 0x8000_0000, v.hi % 0x8000_0000;
    var x := v.hi * 0x1_0000_0000 + v.low;
    assert x == top * 0x8000_0000_0000_0000 + (m * 0x1_0000_0000 + v.low);
    RemainderIs(x, 0x8000_0000_0000_0000, top, m * 0x1_0000_0000 + v.low);
  }

  lemma {:induction false} TextDefault(f: PField, s: Text)
    requires FieldOk(f) && f.ctype.CVAR? && f.ptype.STRING? && CellOk(f, TextCell(s)) && Single(f)
    ensures f.defv.Str? && f.defv.s.mem.Some?
    ensures IsDefault(f, TextCell(s)) <==> EqualsText(f.defv.s.mem.value, f.defv.s.len, s)
  {
    hide TextOk;
    var d := f.defv.s.mem.value;
    CStringEnds(d, 0);
    if s.mem.Some? { SameStringIs(d, s.mem.value); }
  }

  /** What is left out: an optional variable that equals its default, and nothing else but empty
      arrays. Otherwise a single variable has one record, a repeated field one for each element,
      and a packed field one. */
  lemma {:induction false} LeftOutExactly(f: PField, c: Cell)
    requires FieldOk(f) && CellOk(f, c)
    ensures var n := |FieldRecs(f, c)|;
            match c
            case Plain(v) => n == if f.flabel.OPTIONAL? && EqualsDefault(f, v) then 0 else 1
            case TextCell(s) =>
              n == if f.flabel.OPTIONAL? && f.ptype.STRING? && EqualsText(f.defv.s.mem.value, f.defv.s.len, s) then 0
                else 1
            case Elements(vs) => n == if f.flabel.PACKED? then (if vs == [] then 0 else 1) else |vs|
  {
    hide VarRec, PackedRec, EqualsDefault, EqualsText, TextOk, DefaultText;
    match c {
      case Plain(v) => PlainDefault(f, v);
      case TextCell(s) => if f.ptype.STRING? { TextDefault(f, s); }
      case Elements(_) =>
    }
  }

  // ---- the bytes of a record

  /** The bytes a slice is packed as: as many as its length says, or for a string with a length
      of zero or below those up to the terminator and -length more. */
  predicate TextPacked(t: Type, s: Text, bs: seq<byte>) {
    match s.mem
    case None => bs == []
    case Some(mem) =>
      if t.STRING? && s.len <= 0 then exists z: nat :: EndsAt(mem, z) && z - s.len <= |mem| && bs == mem[..z - s.len]
      else 0 <= s.len <= |mem| && bs == mem[..s.len]
  }

  lemma {:induction false} TextIs(t: Type, s: Text)
    requires TextOk(t, s)
    ensures TextPacked(t, s, TextBytes(t, s))
  {
    if s.mem.Some? { CStringEnds(s.mem.value, |CString(s.mem.value)|); }
  }

  /** The record of one value: tag and number, or tag, length and bytes. */
  lemma {:induction false} ValueRecord(f: PField, v: Var)
    requires FieldOk(f) && VarOk(f.ptype, v)
    ensures v.Num? ==>
              exists w: nat, body ::
                && WireFormat.WireTypeOf(f.ptype, w) && WireFormat.NumberWritten(f.ptype, v.v, body)
                && VarRec(f, v).Bytes() == Varint.Bytes(8 * f.id + w) + body
    ensures v.Str? ==>
              exists bs ::
                && TextPacked(f.ptype, v.s, bs)
                && VarRec(f, v).Bytes() == Varint.Bytes(8 * f.id + 2) + Varint.Bytes(|bs|) + bs
  {
    hide Varint.Bytes, NumberBody, WireFormat.NumberWritten, Context.Rec.BodyBytes, TextBytes;
    var w, r := WireType(f.ptype), VarRec(f, v);
    WireFormat.WireTypeIs(f.ptype);
    WireFormat.TagIs(f.id, w);
    assert r.Bytes() == Varint.Bytes(8 * f.id + w) + r.BodyBytes();
    if v.Num? {
      WireFormat.BodyWritten(f.ptype, v.v);
      WireFormat.SameBody(r, Context.Rec(0, NumberBody(f.ptype, v.v)));
    } else {
      TextIs(f.ptype, v.s);
      var bs := TextBytes(f.ptype, v.s);
      DelimitedBody(r, bs);
      assert r.Bytes() == Varint.Bytes(8 * f.id + 2) + Varint.Bytes(|bs|) + bs;
    }
  }

  lemma {:induction false} DelimitedBody(r: Context.Rec, bs: seq<byte>)
    requires r.body == Context.LendBody(bs)
    ensures r.BodyBytes() == Varint.Bytes(|bs|) + bs
  {
  }

  /** The record of a packed field: tag, length, and the numbers one behind the other. */
  lemma {:induction false} PackedRecord(f: PField, vs: seq<Var>)
    requires FieldOk(f) && f.flabel.PACKED? && CellOk(f, Elements(vs))
    ensures var payload := PayloadBytes(f.ptype, Numbers(vs));
            PackedRec(f, vs).Bytes() == Varint.Bytes(8 * f.id + 2) + Varint.Bytes(|payload|) + payload
    ensures forall i | 0 <= i < |vs| :: vs[i].Num? && Numbers(vs)[i] == vs[i].v
  {
    hide Varint.Bytes, PayloadBytes, Context.Rec.BodyBytes;
    WireFormat.TagIs(f.id, 2);
    var r, payload := PackedRec(f, vs), PayloadBytes(f.ptype, Numbers(vs));
    DelimitedBody(r, payload);
    assert r.Bytes() == Varint.Bytes(8 * f.id + 2) + (Varint.Bytes(|payload|) + payload);
    forall i | 0 <= i < |vs| ensures vs[i].Num? && Numbers(vs)[i] == vs[i].v { assert VarOk(f.ptype, vs[i]); }
  }

  /** A payload with one more number. */
  lemma {:induction false} PayloadWritten(t: Type, vs: seq<Longlong>, v: Longlong)
    requires IsNumber(t)
    ensures PayloadBytes(t, []) == []
    ensures exists body ::
              WireFormat.NumberWritten(t, v, body) && PayloadBytes(t, vs + [v]) == PayloadBytes(t, vs) + body
  {
    hide NumberBytes, WireFormat.NumberWritten;
    assert (vs + [v])[..|vs|] == vs;
    WireFormat.BodyWritten(t, v);
    assert PayloadBytes(t, vs + [v]) == PayloadBytes(t, vs) + NumberBytes(t, v);
    assert NumberBytes(t, v) == Context.Rec(0, NumberBody(t, v)).BodyBytes() by { NumberBytesAre(t, v); }
  }

  lemma {:induction false} NumberBytesAre(t: Type, v: Longlong)
    ensures NumberBytes(t, v) == Context.Rec(0, NumberBody(t, v)).BodyBytes()
  {
  }

  // ---- room

  /** The room a field asks for is the bytes it writes; a packed field of fixed width asks for the
      length of its prefix once more. */
  lemma {:induction false} NeedExactly(f: PField, c: Cell)
    requires FieldOk(f) && CellOk(f, c)
    ensures var n := |Context.Serialise(FieldRecs(f, c))|;
            if f.flabel.PACKED? && c.Elements? && c.vs != []
               && f.ptype in {DOUBLE, FIXED64, SFIXED64, FLOAT, FIXED32, SFIXED32}
            then
              var width := if f.ptype in {DOUBLE, FIXED64, SFIXED64} then 8 else 4;
              Need(f, c) == n + |Varint.Bytes(width * |c.vs|)|
            else Need(f, c) == n
  {
    hide Varint.Bytes, PayloadBytes, Context.Serialise, FieldRecs;
    if c.Elements? { PayloadLength(f.ptype, Numbers(c.vs), 0); }
  }

  /** A struct finds room if and only if every field does. */
  lemma {:induction false} RoomExactly(pat: seq<PField>, cells: seq<Cell>, n: nat, room: nat)
    requires n <= |pat| == |cells|
    ensures Room(pat, cells, n, room) <==> forall i | 0 <= i < n :: FindsRoom(pat, cells, i, room)
  {
    hide Context.Serialise, RecsTo, Need;
    if n > 0 {
      RoomExactly(pat, cells, n - 1, room);
      assert FindsRoom(pat, cells, n - 1, room) <==>
        |Context.Serialise(RecsTo(pat, cells, n - 1))| + Need(pat[n - 1], cells[n - 1]) <= room;
      hide FindsRoom;
    }
  }

  /** Field i finds what it asks for behind the bytes of those before it. */
  predicate FindsRoom(pat: seq<PField>, cells: seq<Cell>, i: nat, room: nat)
    requires i < |pat| == |cells|
  {
    |Context.Serialise(RecsTo(pat, cells, i))| + Need(pat[i], cells[i]) <= room
  }

  /** The bytes of a struct are those of its fields, in the order of the pattern. */
  lemma {:induction false} FieldsInOrder(pat: seq<PField>, cells: seq<Cell>, i: nat)
    requires i < |pat| == |cells|
    ensures Context.Serialise(RecsTo(pat, cells, 0)) == []
    ensures Context.Serialise(RecsTo(pat, cells, i + 1))
         == Context.Serialise(RecsTo(pat, cells, i)) + Context.Serialise(FieldRecs(pat[i], cells[i]))
  {
    hide Context.Serialise, FieldRecs;
    PatternPack.NoFields(pat, cells);
    PatternPack.NextField(pat, cells, i);
  }
}
