/** The pattern decoder: it fills a C struct from a buffer (ext/pbc/src/pattern.c). */
module PatternUnpack {
  import opened Words
  import opened Wrappers
  import opened Proto
  import opened Pattern
  import Context
  import Packed
  import RMessage
  import Varint

  // ---- what a record does to the struct

  /** The number or slice a record holds for a field of type t. A zigzag 64-bit field asks
      for the length-delimited wire type and then reads the two slice words as a number. */
  function UnpackVar(t: Type, a: Context.Atom, buffer: seq<byte>): Option<Var> {
    match t
    case SINT64 => if a.Delimited() then Some(Num(Varint.DeZigZag64(a.Number()))) else None
    case SINT32 => Some(Num(Varint.DeZigZag32(a.Number())))
    case STRING | BYTES | MESSAGE =>
      if a.Delimited()
        && a.first <= a.second <= |buffer| then Some(Str(Text(Some(buffer[a.first..]), a.second - a.first))) else None
    case GROUP => None
    case _ => Some(Num(a.Number()))
  }

  /** `write_longlong` and `write_real`: the 16-bit variable only gets its lower byte. */
  function Store(c: CType, v: Longlong, was: nat): nat {
    match c
    case CINT32 | CFLOAT => v.low
    case CINT64 | CDOUBLE => Join(v)
    case CBOOL => if v.low != 0 then 1 else 0
    case CINT8 => v.low % 0x100
    case CINT16 => was / 0x100 * 0x100 + v.low % 0x100
    case CARRAY | CVAR | CPACKED => was
  }

  function Place(f: PField, v: Var, was: Cell): Cell {
    match v
    case Num(n) => Plain(Store(f.ctype, n, if was.Plain? then was.n else 0))
    case Str(s) => TextCell(s)
  }

  /** `unpack_field`; None is its negative result. */
  function UnpackField(f: PField, a: Context.Atom, buffer: seq<byte>, was: Cell): Option<Cell> {
    if f.ctype.CPACKED? then
      var u := Packed.UnpackAtom(f.ptype, buffer, a);
      if u.n < 0 then None else Some(Elements(Held(was) + AsVars(u.vs)))
    else
      var v := UnpackVar(f.ptype, a, buffer);
      if v.None? then None
      else if f.ctype.CARRAY? then Some(Elements(Held(was) + [v.value]))
      else Some(Place(f, v.value, was))
  }

  function Held(c: Cell): seq<Var> {
    if c.Elements? then c.vs else []
  }

  function AsVars(vs: seq<Longlong>): (ws: seq<Var>)
    ensures |ws| == |vs| && forall i | 0 <= i < |vs| :: ws[i] == Num(vs[i])
  {
    seq(|vs|, i requires 0 <= i < |vs| => Num(vs[i]))
  }

  predicate IsArray(f: PField) {
    f.ctype.CARRAY? || f.ctype.CPACKED?
  }

  /** `_pattern_set_default` */
  function Default(f: PField, was: Cell): Cell {
    match f.ctype
    case CARRAY | CPACKED => Elements([])
    case CVAR => if f.defv.Str? then TextCell(f.defv.s) else was
    case CINT16 => if f.defv.Num? then Plain(f.defv.v.low % 0x1_0000) else was
    case _ => if f.defv.Num? then Plain(Store(f.ctype, f.defv.v, 0)) else was
  }

  /** The variables and which of them have been seen. */
  datatype State = State(cells: seq<Cell>, seen: seq<bool>)

  /** The state after all records, or the position of the record that failed. */
  datatype Outcome = Done(st: State) | Failed(at: nat, st: State)

  function IndexOf(pat: seq<PField>, id: int): (i: nat)
    ensures i <= |pat| && (i < |pat| ==> pat[i].id == id)
    ensures forall k | 0 <= k < i :: pat[k].id != id
  {
    if pat == [] || pat[0].id == id then 0 else 1 + IndexOf(pat[1..], id)
  }

  /** One record: an array is opened, that is emptied, the first time its field is seen. */
  function Step(pat: seq<PField>, buffer: seq<byte>, a: Context.Atom, st: State): (r: Option<State>)
    requires |st.cells| == |st.seen| == |pat|
    ensures r.Some? ==> |r.value.cells| == |r.value.seen| == |pat|
  {
    var i := IndexOf(pat, a.FieldId());
    if i == |pat| then Some(st)
    else
      var was := if !st.seen[i] && IsArray(pat[i]) then Elements([]) else st.cells[i];
      var c := UnpackField(pat[i], a, buffer, was);
      if c.None? then None else Some(State(st.cells[i := c.value], st.seen[i := true]))
  }

  function Fold(pat: seq<PField>, buffer: seq<byte>, atoms: seq<Context.Atom>, st: State, at: nat): (r: Outcome)
    requires |st.cells| == |st.seen| == |pat|
    ensures |r.st.cells| == |r.st.seen| == |pat|
    decreases |atoms|
  {
    if atoms == [] then Done(st)
    else
      var s := Step(pat, buffer, atoms[0], st);
      if s.None? then Failed(at, st) else Fold(pat, buffer, atoms[1..], s.value, at + 1)
  }

  function Unseen(n: nat): (s: seq<bool>)
    ensures |s| == n && forall i | 0 <= i < n :: !s[i]
  {
    seq(n, _ => false)
  }

  /** The struct with the defaults of the fields not seen. */
  function Filled(pat: seq<PField>, st: State): (cells: seq<Cell>)
    requires |st.cells| == |st.seen| == |pat|
    ensures |cells| == |pat|
  {
    seq(|pat|, i requires 0 <= i < |pat| => if st.seen[i] then st.cells[i] else Default(pat[i], st.cells[i]))
  }

  /** Two structs that agree outside their arrays. */
  ghost predicate PlainCells(pat: seq<PField>, a: seq<Cell>, b: seq<Cell>) {
    |a| == |b| == |pat| && forall i | 0 <= i < |pat| && !IsArray(pat[i]) :: a[i] == b[i]
  }

  // ---- the code

  /** `bsearch_pattern` */
  method Search(pat: seq<PField>, id: int) returns (i: nat)
    requires PatternOk(pat)
    ensures i == IndexOf(pat, id)
  {
    hide FieldOk;
    var begin, end := 0, |pat|;
    while begin < end
      invariant 0 <= begin <= end <= |pat|
      invariant forall k | 0 <= k < begin :: pat[k].id < id
      invariant forall k | end <= k < |pat| :: id < pat[k].id
    {
      var mid := (begin + end) / 2;
      if id == pat[mid].id {
        return mid;
      }
      if id < pat[mid].id {
        end := mid;
      } else {
        begin := mid + 1;
      }
    }
    return |pat|;
  }

  /** `_pattern_set_default`: an enum's low word is written first and then overwritten by
      the whole default. */
  method SetDefault(f: PField, was: Cell) returns (c: Cell)
    requires FieldOk(f)
    ensures c == Default(f, was)
  {
    c := was;
    if IsArray(f) {
      c := Elements([]);
    } else if f.ptype.ENUM? {
      c := SetDefaultV(f.ctype, Num(Longlong(f.defv.v.low, 0)), c);
    }
    c := SetDefaultV(f.ctype, f.defv, c);
  }

  /** `set_default_v` */
  method SetDefaultV(ctype: CType, defv: Var, was: Cell) returns (c: Cell)
    requires ctype.CARRAY? || ctype.CPACKED? || (if ctype.CVAR? then defv.Str? else defv.Num?)
    ensures c == match ctype
                 case CARRAY | CPACKED => was
                 case CVAR => TextCell(defv.s)
                 case CINT16 => Plain(defv.v.low % 0x1_0000)
                 case _ => Plain(Store(ctype, defv.v, 0))
  {
    match ctype
    case CINT32 | CFLOAT => return Plain(defv.v.low);
    case CINT64 | CDOUBLE => return Plain(defv.v.low + defv.v.hi * 0x1_0000_0000);
    case CBOOL => return Plain(if defv.v.low != 0 then 1 else 0);
    case CINT8 => return Plain(defv.v.low % 0x100);
    case CINT16 => return Plain(defv.v.low % 0x1_0000);
    case CVAR => return TextCell(defv.s);
    case CARRAY | CPACKED => return was;
  }

  /** `pbc_pattern_set_default` */
  method SetDefaults(pat: seq<PField>, output: array<Cell>)
    requires PatternOk(pat) && output.Length == |pat|
    modifies output
    ensures forall i | 0 <= i < |pat| :: output[i] == Default(pat[i], old(output[i]))
  {
    hide Default, FieldOk;
    var i := 0;
    while i < |pat|
      invariant 0 <= i <= |pat|
      invariant forall k | 0 <= k < |pat| :: output[k] == if k < i then Default(pat[k], old(output[k]))
                else old(output[k])
    {
      output[i] := SetDefault(pat[i], output[i]);
      i := i + 1;
    }
  }

  /** `unpack_field` for one variable; `ok` is false for a negative result. */
  method UnpackInto(f: PField, a: Context.Atom, buffer: seq<byte>, was: Cell) returns (ok: bool, c: Cell)
    requires FieldOk(f) && RMessage.InBounds(buffer, a)
    ensures var r := UnpackField(f, a, buffer, was); ok == r.Some? && c == if r.Some? then r.value else was
  {
    hide Packed.UnpackAtom, Varint.DeZigZag32, Varint.DeZigZag64;
    if f.ctype.CPACKED? {
      var n, vs := Packed.UnpackSlice(buffer, a, f.ptype);
      if n < 0 { return false, was; }
      return true, Elements(Held(was) + AsVars(vs));
    }
    var v := UnpackVar(f.ptype, a, buffer);
    if v.None? { return false, was; }
    return true, if f.ctype.CARRAY? then Elements(Held(was) + [v.value]) else Place(f, v.value, was);
  }

  /** `pbc_pattern_unpack`: 0 on success. A buffer the tokeniser rejects gives minus the
      number of records read before the error, less one; a record that does not suit its
      field gives minus its position, less one. */
  method Unpack(pat: seq<PField>, bs: seq<byte>, output: array<Cell>) returns (r: int)
    requires PatternOk(pat) && output.Length == |pat|
    modifies output
    ensures var scan, start := Context.Tokens(bs, 0), State(old(output[..]), Unseen(|pat|));
            if !scan.ok then r == -|scan.atoms| - 1 && output[..] == old(output[..])
            else
              var end := Fold(pat, bs, scan.atoms, start, 0);
              if end.Failed? then r == -1 - end.at && PlainCells(pat, output[..], end.st.cells)
              else r == 0 && output[..] == Filled(pat, end.st)
  {
    hide Default, FieldOk, Step, Fold, Context.Tokens, UnpackField;
    ghost var scan, start := Context.Tokens(bs, 0), State(output[..], Unseen(|pat|));
    NoRecords(pat, bs, start);
    if bs == [] {
      SetDefaults(pat, output);
      return 0;
    }
    var ctx := new Context.Ctx();
    var count := ctx.Open(bs);
    SomeRecords(bs);
    if count <= 0 {
      return count - 1;
    }
    var field := new bool[|pat|](_ => false);
    assert field[..] == Unseen(|pat|);
    var i := 0;
    var failed;
    failed, i := Records(pat, bs, ctx, field, output, start);
    if failed {
      return -(i as int) - 1;
    }
    FillIn(pat, field, output);
    return 0;
  }

  lemma NoRecords(pat: seq<PField>, bs: seq<byte>, st: State)
    requires |st.cells| == |st.seen| == |pat|
    ensures bs == [] ==> Context.Tokens(bs, 0) == Context.Scan([], true)
    ensures Fold(pat, bs, [], st, 0) == Done(st)
  {
  }

  lemma SomeRecords(bs: seq<byte>)
    requires bs != []
    ensures Context.Tokens(bs, 0).ok ==> Context.Tokens(bs, 0).atoms != []
  {
    hide Context.Record;
  }

  /** The loop over the records. */
  method Records(pat: seq<PField>, bs: seq<byte>, ctx: Context.Ctx, field: array<bool>, output: array<Cell>,
                 ghost start: State)
    returns (failed: bool, i: nat)
    requires PatternOk(pat) && field.Length == output.Length == |pat| && start == State(output[..], field[..])
    requires ctx.a != null && ctx.number <= ctx.a.Length
    requires Context.Tokens(bs, 0).ok && ctx.a[..ctx.number] == Context.Tokens(bs, 0).atoms
    modifies field, output
    ensures var end := Fold(pat, bs, Context.Tokens(bs, 0).atoms, start, 0);
            && failed == end.Failed?
            && (failed ==> i == end.at && PlainCells(pat, output[..], end.st.cells))
            && (!failed ==> end.st == State(output[..], field[..]))
  {
    hide Fold, Context.Tokens, UnpackField, FieldOk, IndexOf;
    ghost var atoms := Context.Tokens(bs, 0).atoms;
    ghost var all := Fold(pat, bs, atoms, start, 0);
    i := 0;
    assert atoms[0..] == atoms;
    while i < ctx.number
      invariant 0 <= i <= ctx.number == |atoms| && ctx.a[..ctx.number] == atoms
      invariant all == Fold(pat, bs, atoms[i..], State(output[..], field[..]), i)
    {
      ghost var st := State(output[..], field[..]);
      assert ctx.a[i] == atoms[i];
      FoldStep(pat, bs, atoms[i..], st, i);
      assert atoms[i..][1..] == atoms[i + 1..];
      RMessage.AtomInBounds(bs, i);
      var ok := OneRecord(pat, bs, ctx.a[i], field, output);
      if !ok {
        return true, i;
      }
      i := i + 1;
    }
    FoldStep(pat, bs, atoms[i..], State(output[..], field[..]), i);
    failed := false;
  }

  lemma FoldStep(pat: seq<PField>, buffer: seq<byte>, atoms: seq<Context.Atom>, st: State, at: nat)
    requires |st.cells| == |st.seen| == |pat|
    ensures atoms == [] ==> Fold(pat, buffer, atoms, st, at) == Done(st)
    ensures atoms != [] && Step(pat, buffer, atoms[0], st).None? ==> Fold(pat, buffer, atoms, st, at) == Failed(at, st)
    ensures atoms != [] && Step(pat, buffer, atoms[0], st).Some? ==>
              Fold(pat, buffer, atoms, st, at)
                == Fold(pat, buffer, atoms[1..], Step(pat, buffer, atoms[0], st).value, at + 1)
  {
  }

  /** The body of the loop. A failure may leave an array newly opened; the source closes
      every array it has opened before it returns. */
  method OneRecord(pat: seq<PField>, bs: seq<byte>, a: Context.Atom, field: array<bool>, output: array<Cell>)
    returns (ok: bool)
    requires PatternOk(pat) && field.Length == output.Length == |pat| && RMessage.InBounds(bs, a)
    modifies field, output
    ensures var s := Step(pat, bs, a, old(State(output[..], field[..])));
            ok == s.Some? && (ok ==> State(output[..], field[..]) == s.value)
    ensures !ok ==> forall i | 0 <= i < |pat| && !IsArray(pat[i]) :: output[i] == old(output[i])
  {
    hide UnpackField, FieldOk, IndexOf;
    var index := Search(pat, a.FieldId());
    if index == |pat| {
      return true;
    }
    if !field[index] {
      field[index] := true;
      if IsArray(pat[index]) { output[index] := Elements([]); }
    }
    var c;
    ok, c := UnpackInto(pat[index], a, bs, output[index]);
    if ok {
      output[index] := c;
    }
  }

  /** The last loop: defaults for the fields not seen. */
  method FillIn(pat: seq<PField>, field: array<bool>, output: array<Cell>)
    requires PatternOk(pat) && field.Length == output.Length == |pat|
    modifies output
    ensures output[..] == Filled(pat, old(State(output[..], field[..])))
  {
    hide Default, FieldOk;
    var i := 0;
    while i < |pat|
      invariant 0 <= i <= |pat|
      invariant forall k | 0 <= k < |pat| ::
                  output[k] == if k < i && !field[k] then Default(pat[k], old(output[k])) else old(output[k])
    {
      if !field[i] {
        output[i] := SetDefault(pat[i], output[i]);
      }
      i := i + 1;
    }
  }
}
