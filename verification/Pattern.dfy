/** Patterns (ext/pbc/src/pattern.h, ext/pbc/src/pattern.c): a list of fields of a message
    type and the C variables they live in. */
module Pattern {
  import opened Words
  import opened Wrappers
  import opened Proto
  import Context
  import Packed
  import Varint

  /** The CTYPE constants a pattern can hold. */
  datatype CType = CINT32 | CINT64 | CDOUBLE | CFLOAT | CBOOL | CINT8 | CINT16 | CARRAY | CVAR | CPACKED

  /** `struct pbc_slice` as a value: the memory from the pointer on (None for NULL) and the
      length field. */
  datatype Text = Text(mem: Option<seq<byte>>, len: int)

  /** `union _pbc_var`. */
  datatype Var = Num(v: Longlong) | Str(s: Text)

  /** One C variable: an integer, boolean or float as its bits, a slice, or an array. */
  datatype Cell = Plain(n: nat) | TextCell(s: Text) | Elements(vs: seq<Var>)

  /** `struct _pattern_field`. */
  datatype PField = PField(id: int, ptype: Type, ctype: CType, flabel: Label, defv: Var)

  /** Types written as one number. */
  predicate IsNumber(t: Type) {
    !Packed.WidthOf(t).Unpackable?
  }

  /** What `pbc_pattern_new` lets through (`_check_ctype`), with floats kept in a float and
      doubles in a double, and the default its field carries. */
  predicate FieldOk(f: PField) {
    && 1 <= f.id < 0x1000_0000
    && !f.ptype.GROUP?
    && (f.flabel.REPEATED? <==> f.ctype.CARRAY?)
    && (f.flabel.PACKED? <==> f.ctype.CPACKED?)
    && (f.flabel.PACKED? ==> IsNumber(f.ptype))
    && (Single(f) ==>
          && (f.ctype.CVAR? <==> !IsNumber(f.ptype))
          && (f.ctype.CFLOAT? <==> f.ptype.FLOAT?)
          && (f.ctype.CDOUBLE? <==> f.ptype.DOUBLE?)
          && (if f.ctype.CVAR? then f.defv.Str? && (f.ptype.STRING? ==> DefaultText(f.defv.s)) else f.defv.Num?))
  }

  predicate Single(f: PField) {
    f.flabel.OPTIONAL? || f.flabel.REQUIRED?
  }

  /** A default string is terminated behind the length its length field says, or before if
      it holds a zero byte. Only strings have their default looked at: that of a sub-message,
      and of bytes that declare one, is a null pointer. */
  predicate DefaultText(s: Text) {
    s.mem.Some? && |CString(s.mem.value)| <= s.len < |s.mem.value|
  }

  /** Sorted by id, as `qsort` leaves it, with no field listed twice. */
  predicate PatternOk(pat: seq<PField>) {
    && (forall i | 0 <= i < |pat| :: FieldOk(pat[i]))
    && (forall i, j | 0 <= i < j < |pat| :: pat[i].id < pat[j].id)
  }

  /** The bytes a slice stands for when it is packed: for a string, a length of zero or
      below asks for the text up to its terminator and that many bytes more. */
  function TextBytes(t: Type, s: Text): seq<byte> {
    if s.mem.None? then []
    else
      var n := if t.STRING? && s.len <= 0 then |CString(s.mem.value)| - s.len else s.len;
      if 0 <= n <= |s.mem.value| then s.mem.value[..n] else []
  }

  /** A slice the packer may follow. A null pointer is one that no byte is read from. */
  predicate TextOk(t: Type, s: Text) {
    && (s.mem.None? ==> !t.STRING? && s.len == 0)
    && (s.mem.Some? ==> Readable(t, s.mem.value, s.len))
    && |TextBytes(t, s)| < 0x8000_0000
  }

  /** The bytes asked for lie in the memory. */
  predicate Readable(t: Type, mem: seq<byte>, len: int) {
    if t.STRING? && len <= 0 then |CString(mem)| < |mem| && |CString(mem)| - len <= |mem| else 0 <= len <= |mem|
  }

  predicate VarOk(t: Type, v: Var) {
    if IsNumber(t) then v.Num? else v.Str? && TextOk(t, v.s)
  }

  /** Values a C type can hold. */
  function Limit(c: CType): nat {
    match c
    case CBOOL => 2
    case CINT8 => 0x100
    case CINT16 => 0x1_0000
    case CINT32 | CFLOAT => 0x1_0000_0000
    case CINT64 | CDOUBLE => 0x1_0000_0000_0000_0000
    case CARRAY | CVAR | CPACKED => 1
  }

  /** A variable of the field's C type, whatever it holds. */
  predicate CellShape(f: PField, c: Cell) {
    match f.ctype
    case CARRAY | CPACKED => c.Elements?
    case CVAR => c.TextCell?
    case _ => c.Plain? && c.n < Limit(f.ctype)
  }

  /** A variable the packer may be given. A NULL string is only looked at by the default
      test. */
  predicate CellOk(f: PField, c: Cell) {
    && CellShape(f, c)
    && (c.TextCell? ==>
         TextOk(f.ptype, c.s) || (f.ptype.STRING? && c.s.mem.None? && f.flabel.OPTIONAL? && IsDefault(f, c)))
    && (c.Elements? ==> |c.vs| < 0x800_0000 && forall i | 0 <= i < |c.vs| :: VarOk(f.ptype, c.vs[i]))
  }

  // ---- comparing with the default

  /** `==` on doubles, by their bits: a NaN equals nothing and the two zeros are equal. */
  predicate DoubleEq(a: Longlong, b: Longlong) {
    !DoubleNaN(a) && !DoubleNaN(b) && (a == b || (DoubleZero(a) && DoubleZero(b)))
  }

  predicate DoubleNaN(a: Longlong) {
    a.hi % 0x8000_0000 > 0x7FF0_0000 || (a.hi % 0x8000_0000 == 0x7FF0_0000 && a.low != 0)
  }

  predicate DoubleZero(a: Longlong) {
    a.hi % 0x8000_0000 == 0 && a.low == 0
  }

  /** `==` on floats. */
  predicate FloatEq(a: word, b: word) {
    a % 0x8000_0000 <= 0x7F80_0000 && b % 0x8000_0000 <= 0x7F80_0000
    && (a == b || (a % 0x8000_0000 == 0 && b % 0x8000_0000 == 0))
  }

  /** `_is_default` */
  predicate IsDefault(f: PField, c: Cell) {
    if f.defv.Num? && c.Plain? then
      match f.ctype
      case CINT64 => c.n == Join(f.defv.v)
      case CDOUBLE => DoubleEq(f.defv.v, Bits(c.n))
      case CFLOAT => FloatEq(f.defv.v.low, Bits(c.n).low)
      case CINT32 => c.n == f.defv.v.low
      case CINT16 => c.n == f.defv.v.low % 0x1_0000
      case CINT8 => c.n == f.defv.v.low % 0x100
      case CBOOL => c.n == if f.defv.v.low != 0 then 1 else 0
      case CARRAY | CVAR | CPACKED => false
    else f.ptype.STRING? && f.defv.Str? && c.TextCell? && TextIsDefault(f.defv.s, c.s)
  }

  predicate TextIsDefault(d: Text, s: Text) {
    d.mem.Some? &&
    (if s.mem.None? then CString(d.mem.value) == []
     else if s.len <= 0 then CString(d.mem.value) == CString(s.mem.value)
     else
       && s.len == d.len && s.len <= |d.mem.value| && s.len <= |s.mem.value|
       && d.mem.value[..s.len] == s.mem.value[..s.len])
  }

  /** The number a plain variable holds, as the packer's `pbc_var`. */
  function Bits(n: nat): Longlong {
    if n < 0x1_0000_0000_0000_0000 then Split(n) else Longlong(0, 0)
  }

  // ---- records

  /** The records a variable is packed as. */
  function FieldRecs(f: PField, c: Cell): seq<Context.Rec> {
    if f.flabel.OPTIONAL? && IsDefault(f, c) then []
    else
      match c
      case Elements(vs) =>
        if f.flabel.PACKED? then (if vs == [] then [] else [PackedRec(f, vs)])
        else seq(|vs|, i requires 0 <= i < |vs| => VarRec(f, vs[i]))
      case Plain(n) => [VarRec(f, Num(Bits(n)))]
      case TextCell(s) => [VarRec(f, Str(s))]
  }

  function VarRec(f: PField, v: Var): Context.Rec {
    Context.Rec(Tag(f.id, WireType(f.ptype)),
                if v.Num? then NumberBody(f.ptype, v.v) else Context.LendBody(TextBytes(f.ptype, v.s)))
  }

  function PackedRec(f: PField, vs: seq<Var>): Context.Rec {
    Context.Rec(Tag(f.id, Context.WT_LEND), Context.LendBody(PayloadBytes(f.ptype, Numbers(vs))))
  }

  function Numbers(vs: seq<Var>): (ns: seq<Longlong>)
    ensures |ns| == |vs|
  {
    seq(|vs|, i requires 0 <= i < |vs| => if vs[i].Num? then vs[i].v else Longlong(0, 0))
  }

  /** The bytes of one number, without a tag. */
  function NumberBytes(t: Type, v: Longlong): seq<byte> {
    Context.Rec(0, NumberBody(t, v)).BodyBytes()
  }

  /** The bytes of a packed payload. */
  function PayloadBytes(t: Type, vs: seq<Longlong>): seq<byte> {
    if vs == [] then [] else PayloadBytes(t, vs[..|vs| - 1]) + NumberBytes(t, vs[|vs| - 1])
  }

  lemma {:induction false} PayloadLength(t: Type, vs: seq<Longlong>, i: nat)
    requires i <= |vs|
    ensures |PayloadBytes(t, vs[..i])| <= |PayloadBytes(t, vs)| <= 10 * |vs|
    ensures IsNumber(t) ==> |vs| <= |PayloadBytes(t, vs)|
    ensures Packed.WidthOf(t).Fixed8? ==> |PayloadBytes(t, vs)| == 8 * |vs|
    ensures Packed.WidthOf(t).Fixed4? ==> |PayloadBytes(t, vs)| == 4 * |vs|
  {
    hide NumberBytes;
    if |vs| > 0 {
      var n := |vs| - 1;
      NumberLength(t, vs[n]);
      if i <= n {
        PayloadLength(t, vs[..n], i);
        assert vs[..n][..i] == vs[..i];
      } else {
        PayloadLength(t, vs[..n], n);
        assert vs[..i] == vs;
      }
    }
  }

  lemma NumberLength(t: Type, v: Longlong)
    ensures |NumberBytes(t, v)| <= 10
    ensures IsNumber(t) ==> |NumberBytes(t, v)| >= 1
    ensures Packed.WidthOf(t).Fixed8? ==> |NumberBytes(t, v)| == 8
    ensures Packed.WidthOf(t).Fixed4? ==> |NumberBytes(t, v)| == 4
  {
    hide Varint.Bytes, Varint.ZigZag32, Varint.ZigZag64, Le32;
    Varint.BytesAtMost(Join(v));
    Varint.BytesAtMost(v.low);
    Varint.BytesAtMost(Varint.ZigZag32(v.low));
    Varint.BytesAtMost(Varint.ZigZag64(Join(v)));
    Varint.BytesAtMost(0);
  }

  lemma PayloadStart(t: Type, vs: seq<Longlong>)
    ensures PayloadBytes(t, vs[..0]) == []
  {
  }

  lemma PayloadStep(t: Type, vs: seq<Longlong>, i: nat)
    requires i < |vs|
    ensures PayloadBytes(t, vs[..i + 1]) == PayloadBytes(t, vs[..i]) + NumberBytes(t, vs[i])
  {
    assert vs[..i + 1][..i] == vs[..i];
  }

  /** A packed payload as it should be: behind its exact length. */
  function Canonical(t: Type, vs: seq<Longlong>): seq<byte> {
    Varint.Bytes(|PayloadBytes(t, vs)|) + PayloadBytes(t, vs)
  }

  /** The records of the first i fields. */
  function RecsTo(pat: seq<PField>, cells: seq<Cell>, i: nat): seq<Context.Rec>
    requires i <= |pat| == |cells|
  {
    if i == 0 then [] else RecsTo(pat, cells, i - 1) + FieldRecs(pat[i - 1], cells[i - 1])
  }

  /** The variables of a struct, in the order of the pattern. */
  predicate StructOk(pat: seq<PField>, cells: seq<Cell>) {
    |cells| == |pat| && forall i | 0 <= i < |pat| :: CellOk(pat[i], cells[i])
  }

  /** The room a field's pack step asks for: its bytes, and for a packed field of fixed
      width the length of the payload's prefix once more. */
  function Need(f: PField, c: Cell): (n: nat)
    ensures n >= |Context.Serialise(FieldRecs(f, c))|
  {
    |Context.Serialise(FieldRecs(f, c))| +
    (if f.flabel.PACKED? && c.Elements? && c.vs != [] && !Packed.WidthOf(f.ptype).Varying?
     then |Varint.Bytes(|PayloadBytes(f.ptype, Numbers(c.vs))|)| else 0)
  }

  /** Every one of the first i fields finds the room it asks for. */
  predicate Room(pat: seq<PField>, cells: seq<Cell>, i: nat, room: nat)
    requires i <= |pat| == |cells|
  {
    i == 0 || (Room(pat, cells, i - 1, room)
               && |Context.Serialise(RecsTo(pat, cells, i - 1))| + Need(pat[i - 1], cells[i - 1]) <= room)
  }
}
