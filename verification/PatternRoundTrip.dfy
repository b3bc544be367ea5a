/** Packing a struct and unpacking it again. */
module PatternRoundTrip {
  import opened Words
  import opened Wrappers
  import opened Proto
  import opened Pattern
  import opened PatternUnpack
  import Context
  import Packed
  import PatternPack
  import Varint

  // ---- what comes back

  /** A slice that holds the bytes. */
  predicate Holds(s: Text, bs: seq<byte>) {
    s.mem.Some? && s.len == |bs| <= |s.mem.value| && s.mem.value[..s.len] == bs
  }

  predicate VarComesBack(t: Type, v: Var, w: Var) {
    if v.Num? then w == Num(Packed.Wire(t, v.v)) else w.Str? && Holds(w.s, TextBytes(t, v.s))
  }

  /** What a packed variable c comes back as in a variable that held `was`: the default if
      it was left out, otherwise the number through the wire and the C type, the same text,
      or the same number of elements, each through the wire. */
  ghost predicate ComesBack(f: PField, c: Cell, was: Cell, out: Cell) {
    if FieldRecs(f, c) == [] then out == Default(f, was)
    else
      match c
      case Plain(n) => out == Place(f, Num(Packed.Wire(f.ptype, Bits(n))), was)
      case TextCell(s) => out.TextCell? && Holds(out.s, TextBytes(f.ptype, s))
      case Elements(vs) =>
        out.Elements? && |out.vs| == |vs| && forall i | 0 <= i < |vs| :: VarComesBack(f.ptype, vs[i], out.vs[i])
  }

  /** Fields whose records the decoder takes: a zigzag 64-bit number outside a packed field
      is written as a varint, but the decoder asks for the length-delimited wire type. */
  predicate Taken(f: PField, c: Cell) {
    f.ptype.SINT64? && !f.flabel.PACKED? ==> FieldRecs(f, c) == []
  }

  // ---- packed payloads

  lemma {:induction false} PayloadFront(t: Type, vs: seq<Longlong>)
    requires vs != []
    ensures PayloadBytes(t, vs) == NumberBytes(t, vs[0]) + PayloadBytes(t, vs[1..])
  {
    hide NumberBytes;
    var n := |vs| - 1;
    if n > 0 {
      PayloadFront(t, vs[..n]);
      assert vs[..n][1..] == vs[1..][..n - 1];
    } else {
      assert vs[..0] == [] && vs[1..] == [];
    }
  }

  function Wires(t: Type, vs: seq<Longlong>): (ws: seq<Longlong>)
    ensures |ws| == |vs| && forall i | 0 <= i < |vs| :: ws[i] == Packed.Wire(t, vs[i])
  {
    seq(|vs|, i requires 0 <= i < |vs| => Packed.Wire(t, vs[i]))
  }

  /** A packed payload unpacks to its numbers through the wire. */
  lemma PayloadUnpacks(t: Type, vs: seq<Longlong>)
    requires IsNumber(t)
    ensures Packed.Unpack(t, PayloadBytes(t, vs)) == Packed.Unpacked(|vs|, Wires(t, vs))
  {
    hide PayloadBytes, Packed.Wire, Wires, Packed.Fixed, Packed.Varints;
    PayloadLength(t, vs, 0);
    if Packed.WidthOf(t).Varying? {
      VarintsUnpack(t, vs);
    } else {
      FixedUnpack(t, vs);
      Multiple(|vs|);
    }
  }

  lemma Multiple(n: nat)
    ensures 8 * n % 8 == 0 && 8 * n / 8 == n && 4 * n % 4 == 0 && 4 * n / 4 == n
  {
  }

  lemma {:induction false} VarintsUnpack(t: Type, vs: seq<Longlong>)
    requires Packed.WidthOf(t).Varying?
    ensures Packed.Varints(t, PayloadBytes(t, vs)) == Packed.Unpacked(|vs|, Wires(t, vs))
  {
    hide PayloadBytes, Packed.Wire, Varint.Read, NumberBytes, Packed.Undo;
    PayloadStart(t, vs);
    if vs == [] {
      assert vs[..0] == vs;
    } else {
      PayloadFront(t, vs);
      NumberLength(t, vs[0]);
      OneVarint(t, vs[0], PayloadBytes(t, vs[1..]));
      VarintsUnpack(t, vs[1..]);
      assert Wires(t, vs) == [Packed.Wire(t, vs[0])] + Wires(t, vs[1..]);
    }
  }

  lemma OneVarint(t: Type, v: Longlong, rest: seq<byte>)
    requires Packed.WidthOf(t).Varying?
    ensures var bs := NumberBytes(t, v) + rest; var r := Varint.Read(bs);
            r.Some? && r.value.len == |NumberBytes(t, v)| && bs[r.value.len..] == rest
            && Packed.Undo(t, r.value.value) == Packed.Wire(t, v)
  {
    hide Varint.Seen, Varint.Read, Varint.ZigZag32, Varint.ZigZag64, Varint.Bytes, Varint.DeZigZag32, Varint.DeZigZag64;
    Varint.ReadEncoded(Join(v), rest);
    Varint.ReadEncoded(v.low, rest);
    Varint.SeenExact(v.low);
    Varint.ReadEncoded(Varint.ZigZag32(v.low), rest);
    Varint.SeenExact(Varint.ZigZag32(v.low));
    Varint.ReadEncoded(Varint.ZigZag64(Join(v)), rest);
  }

  lemma {:induction false} FixedUnpack(t: Type, vs: seq<Longlong>)
    requires IsNumber(t) && !Packed.WidthOf(t).Varying?
    ensures Packed.Fixed(if Packed.WidthOf(t).Fixed8? then 8 else 4, PayloadBytes(t, vs)) == Wires(t, vs)
  {
    hide PayloadBytes, Packed.Wire, NumberBytes, OfLe32;
    PayloadStart(t, vs);
    if vs == [] {
      assert vs[..0] == vs;
    } else {
      PayloadFront(t, vs);
      NumberLength(t, vs[0]);
      OneFixed(t, vs[0], PayloadBytes(t, vs[1..]));
      FixedUnpack(t, vs[1..]);
      assert Wires(t, vs) == [Packed.Wire(t, vs[0])] + Wires(t, vs[1..]);
    }
  }

  lemma OneFixed(t: Type, v: Longlong, rest: seq<byte>)
    requires IsNumber(t) && !Packed.WidthOf(t).Varying?
    ensures var bs, w := NumberBytes(t, v) + rest, |NumberBytes(t, v)|;
            && (if Packed.WidthOf(t).Fixed8? then w == 8 else w == 4)
            && bs[w..] == rest
            && Packed.Wire(t, v) == Longlong(OfLe32(bs), if w == 8 then OfLe32(bs[4..]) else 0)
  {
    hide OfLe32, Le32;
    var bs := NumberBytes(t, v) + rest;
    if Packed.WidthOf(t).Fixed8? {
      assert bs == Le32(v.low) + (Le32(v.hi) + rest);
      assert bs[4..] == Le32(v.hi) + rest;
      Le32RoundTrip(v.low, Le32(v.hi) + rest);
      Le32RoundTrip(v.hi, rest);
    } else {
      Le32RoundTrip(v.low, rest);
    }
  }

  // ---- one record

  /** The tag of a field's records leads back to the field. */
  lemma TagFinds(pat: seq<PField>, i: nat, wiretype: nat, a: Context.Atom)
    requires PatternOk(pat) && i < |pat| && wiretype < 8
    requires a.wireId == ToInt32(Tag(pat[i].id, wiretype))
    ensures IndexOf(pat, a.FieldId()) == i
    ensures a.Delimited() <==> wiretype == Context.WT_LEND
  {
    hide Tag;
    assert FieldOk(pat[i]);
    TagRoundTrip(pat[i].id, wiretype);
  }

  /** A single value's record. */
  lemma VarUnpacks(f: PField, v: Var, a: Context.Atom, buffer: seq<byte>)
    requires FieldOk(f) && VarOk(f.ptype, v) && !f.flabel.PACKED?
    requires Context.Shows(buffer, a, VarRec(f, v))
    requires a.Delimited() <==> WireType(f.ptype) == Context.WT_LEND
    ensures f.ptype.SINT64? ==> UnpackVar(f.ptype, a, buffer).None?
    ensures !f.ptype.SINT64? ==>
              UnpackVar(f.ptype, a, buffer).Some? && VarComesBack(f.ptype, v, UnpackVar(f.ptype, a, buffer).value)
  {
    hide Varint.Seen, Varint.DeZigZag32, Varint.DeZigZag64, Varint.ZigZag32, Varint.ZigZag64, Tag, TextBytes;
    if v.Num? {
      Varint.SeenExact(v.v.low);
      Varint.SeenExact(Varint.ZigZag32(v.v.low));
    } else {
      assert buffer[a.first..a.second] == buffer[a.first..][..a.second - a.first];
    }
  }

  /** The record of a packed field. */
  lemma PackedUnpacks(f: PField, vs: seq<Var>, a: Context.Atom, buffer: seq<byte>, was: Cell)
    requires FieldOk(f) && f.flabel.PACKED? && CellOk(f, Elements(vs)) && Held(was) == []
    requires Context.Shows(buffer, a, PackedRec(f, vs)) && a.Delimited()
    ensures UnpackField(f, a, buffer, was) == Some(Elements(AsVars(Wires(f.ptype, Numbers(vs)))))
    ensures forall i | 0 <= i < |vs| :: VarComesBack(f.ptype, vs[i], AsVars(Wires(f.ptype, Numbers(vs)))[i])
  {
    hide Packed.Unpack, PayloadBytes, Packed.Wire;
    PayloadUnpacks(f.ptype, Numbers(vs));
    assert [] + AsVars(Wires(f.ptype, Numbers(vs))) == AsVars(Wires(f.ptype, Numbers(vs)));
    forall i | 0 <= i < |vs| ensures VarComesBack(f.ptype, vs[i], AsVars(Wires(f.ptype, Numbers(vs)))[i]) {
      assert VarOk(f.ptype, vs[i]);
    }
  }

  // ---- one field

  ghost predicate AllShow(buffer: seq<byte>, atoms: seq<Context.Atom>, recs: seq<Context.Rec>) {
    |atoms| == |recs| && forall k | 0 <= k < |recs| :: Context.Shows(buffer, atoms[k], recs[k])
  }

  /** A single variable: its record is stored, or refused. */
  lemma SingleUnpacks(pat: seq<PField>, i: nat, c: Cell, atoms: seq<Context.Atom>, buffer: seq<byte>, st: State,
                      at: nat)
    returns (out: Cell)
    requires PatternOk(pat) && i < |pat| == |st.cells| == |st.seen| && Single(pat[i])
    requires CellOk(pat[i], c) && FieldRecs(pat[i], c) != [] && AllShow(buffer, atoms, FieldRecs(pat[i], c))
    ensures pat[i].ptype.SINT64? ==> Fold(pat, buffer, atoms, st, at).Failed?
    ensures !pat[i].ptype.SINT64? ==>
              Fold(pat, buffer, atoms, st, at) == Done(State(st.cells[i := out], st.seen[i := true]))
                && ComesBack(pat[i], c, st.cells[i], out)
  {
    hide VarRec, UnpackVar, Place, TextBytes, Bits, IsDefault, Tag, Step, Fold, IndexOf, Context.Shows, Packed.Wire;
    var f := pat[i];
    assert FieldOk(f);
    var v := if c.Plain? then Num(Bits(c.n)) else Str(c.s);
    var a := atoms[0];
    assert Context.Shows(buffer, a, VarRec(f, v));
    ShowsTag(buffer, a, f, v);
    TagFinds(pat, i, WireType(f.ptype), a);
    VarUnpacks(f, v, a, buffer);
    StepIs(pat, i, buffer, a, st);
    FoldStep(pat, buffer, atoms, st, at);
    if f.ptype.SINT64? {
      out := c;
    } else {
      out := Place(f, UnpackVar(f.ptype, a, buffer).value, st.cells[i]);
      FoldStep(pat, buffer, atoms[1..], State(st.cells[i := out], st.seen[i := true]), at + 1);
      PlaceIs(f, c, UnpackVar(f.ptype, a, buffer).value, st.cells[i]);
    }
  }

  lemma ShowsTag(buffer: seq<byte>, a: Context.Atom, f: PField, v: Var)
    requires Context.Shows(buffer, a, VarRec(f, v))
    ensures a.wireId == ToInt32(Tag(f.id, WireType(f.ptype)))
  {
    hide Tag;
  }

  lemma PlaceIs(f: PField, c: Cell, w: Var, was: Cell)
    requires FieldOk(f) && Single(f) && CellOk(f, c) && FieldRecs(f, c) != []
    requires VarComesBack(f.ptype, if c.Plain? then Num(Bits(c.n)) else Str(c.s), w)
    ensures ComesBack(f, c, was, Place(f, w, was))
  {
    hide FieldRecs, TextBytes, Bits, Packed.Wire;
  }

  lemma StepIs(pat: seq<PField>, i: nat, buffer: seq<byte>, a: Context.Atom, st: State)
    requires i < |pat| == |st.cells| == |st.seen| && IndexOf(pat, a.FieldId()) == i
    ensures var c := UnpackField(pat[i], a, buffer, if !st.seen[i] && IsArray(pat[i]) then Elements([])
            else st.cells[i]);
            Step(pat, buffer, a, st) == if c.None? then None
              else Some(State(st.cells[i := c.value], st.seen[i := true]))
  {
    hide UnpackField;
  }

  /** The elements of a repeated field arrive one after the other. */
  lemma {:induction false} RepeatedUnpacks(pat: seq<PField>, i: nat, vs: seq<Var>, atoms: seq<Context.Atom>,
                                           buffer: seq<byte>, st: State, at: nat)
    returns (ws: seq<Var>)
    requires PatternOk(pat) && i < |pat| == |st.cells| == |st.seen| && pat[i].flabel.REPEATED?
    requires |atoms| == |vs| > 0 && forall k | 0 <= k < |vs| ::
               VarOk(pat[i].ptype, vs[k]) && Context.Shows(buffer, atoms[k], VarRec(pat[i], vs[k]))
    ensures pat[i].ptype.SINT64? ==> Fold(pat, buffer, atoms, st, at).Failed?
    ensures !pat[i].ptype.SINT64? ==>
              && |ws| == |vs| && (forall k | 0 <= k < |vs| :: VarComesBack(pat[i].ptype, vs[k], ws[k]))
              && Fold(pat, buffer, atoms, st, at)
                 == Done(State(st.cells[i := Elements((if st.seen[i] then Held(st.cells[i]) else []) + ws)],
                   st.seen[i := true]))
    decreases |vs|
  {
    hide VarRec, UnpackVar, TextBytes, Tag, Step, Fold, IndexOf, Context.Shows, VarOk, VarComesBack;
    var f, a := pat[i], atoms[0];
    assert FieldOk(f);
    ShowsTag(buffer, a, f, vs[0]);
    TagFinds(pat, i, WireType(f.ptype), a);
    VarUnpacks(f, vs[0], a, buffer);
    StepIs(pat, i, buffer, a, st);
    FoldStep(pat, buffer, atoms, st, at);
    ws := [];
    if !f.ptype.SINT64? {
      var had := if st.seen[i] then Held(st.cells[i]) else [];
      var w := UnpackVar(f.ptype, a, buffer).value;
      var next := State(st.cells[i := Elements(had + [w])], st.seen[i := true]);
      ws := [w];
      if |vs| > 1 {
        var more := RepeatedUnpacks(pat, i, vs[1..], atoms[1..], buffer, next, at + 1);
        ws := [w] + more;
        assert had + [w] + more == had + ws;
        assert forall k | 1 <= k < |vs| :: vs[k] == vs[1..][k - 1] && ws[k] == more[k - 1];
      } else {
        FoldStep(pat, buffer, atoms[1..], next, at + 1);
      }
    }
  }

  /** All the records of one field. */
  lemma FieldUnpacks(pat: seq<PField>, i: nat, c: Cell, atoms: seq<Context.Atom>, buffer: seq<byte>, st: State, at: nat)
    returns (out: Cell)
    requires PatternOk(pat) && i < |pat| == |st.cells| == |st.seen| && !st.seen[i]
    requires CellOk(pat[i], c) && AllShow(buffer, atoms, FieldRecs(pat[i], c))
    ensures !Taken(pat[i], c) ==> Fold(pat, buffer, atoms, st, at).Failed?
    ensures Taken(pat[i], c) ==>
              var recs := FieldRecs(pat[i], c);
              && Fold(pat, buffer, atoms, st, at) == Done(State(st.cells[i := out], st.seen[i := recs != []]))
              && if recs == [] then out == st.cells[i] else ComesBack(pat[i], c, st.cells[i], out)
  {
    hide VarRec, PackedRec, IsDefault, Tag, Step, Fold;
    hide IndexOf, Context.Shows, VarOk, VarComesBack, TextOk, UnpackField, Wires;
    var f, recs := pat[i], FieldRecs(pat[i], c);
    assert FieldOk(f);
    if recs == [] {
      out := st.cells[i];
      FoldStep(pat, buffer, atoms, st, at);
      assert st.cells[i := out] == st.cells && st.seen[i := false] == st.seen;
    } else if Single(f) {
      out := SingleUnpacks(pat, i, c, atoms, buffer, st, at);
    } else if f.flabel.REPEATED? {
      assert forall k | 0 <= k < |c.vs| :: recs[k] == VarRec(f, c.vs[k]);
      var ws := RepeatedUnpacks(pat, i, c.vs, atoms, buffer, st, at);
      out := Elements(ws);
      assert [] + ws == ws;
    } else {
      var a := atoms[0];
      assert recs[0] == PackedRec(f, c.vs);
      PackedTag(buffer, a, f, c.vs);
      TagFinds(pat, i, Context.WT_LEND, a);
      PackedUnpacks(f, c.vs, a, buffer, Elements([]));
      StepIs(pat, i, buffer, a, st);
      FoldStep(pat, buffer, atoms, st, at);
      out := Elements(AsVars(Wires(f.ptype, Numbers(c.vs))));
      FoldStep(pat, buffer, atoms[1..], State(st.cells[i := out], st.seen[i := true]), at + 1);
    }
  }

  lemma PackedTag(buffer: seq<byte>, a: Context.Atom, f: PField, vs: seq<Var>)
    requires Context.Shows(buffer, a, PackedRec(f, vs))
    ensures a.wireId == ToInt32(Tag(f.id, Context.WT_LEND))
  {
    hide Tag, PayloadBytes;
  }

  // ---- a whole struct

  lemma {:induction false} FoldSplit(pat: seq<PField>, buffer: seq<byte>, a: seq<Context.Atom>, b: seq<Context.Atom>,
                                     st: State, at: nat)
    requires |st.cells| == |st.seen| == |pat|
    ensures var r := Fold(pat, buffer, a, st, at);
            Fold(pat, buffer, a + b, st, at) == if r.Failed? then r else Fold(pat, buffer, b, r.st, at + |a|)
  {
    hide Step;
    if a == [] {
      assert a + b == b;
    } else {
      assert (a + b)[1..] == a[1..] + b;
      var s := Step(pat, buffer, a[0], st);
      if s.Some? { FoldSplit(pat, buffer, a[1..], b, s.value, at + 1); }
    }
  }

  /** The first n fields have come back and the others are untouched. */
  ghost predicate Progress(pat: seq<PField>, cells: seq<Cell>, was: seq<Cell>, n: nat, st: State)
    requires |cells| == |was| == |pat|
  {
    && |st.cells| == |st.seen| == |pat|
    && (forall j | 0 <= j < |pat| :: st.seen[j] <==> j < n && FieldRecs(pat[j], cells[j]) != [])
    && (forall j | 0 <= j < |pat| :: if st.seen[j] then ComesBack(pat[j], cells[j], was[j], st.cells[j])
       else st.cells[j] == was[j])
  }

  /** The atoms of field n among those of the whole struct. */
  lemma FieldAtoms(pat: seq<PField>, cells: seq<Cell>, n: nat) returns (atoms: seq<Context.Atom>)
    requires n < |pat| == |cells|
    ensures var recs := RecsTo(pat, cells, |pat|); var all := Context.AtomsAt(recs, 0);
            && |RecsTo(pat, cells, n)| <= |RecsTo(pat, cells, n + 1)| <= |recs|
            && atoms == all[|RecsTo(pat, cells, n)|..|RecsTo(pat, cells, n + 1)|]
            && AllShow(Context.Serialise(recs), atoms, FieldRecs(pat[n], cells[n]))
  {
    hide FieldRecs, Context.Serialise, Context.AtomsAt, Context.Shows, RecsTo;
    var recs := RecsTo(pat, cells, |pat|);
    var all := Context.AtomsAt(recs, 0);
    RecsToStep(pat, cells, n);
    RecsPrefix(pat, cells, n, |pat|);
    RecsPrefix(pat, cells, n + 1, |pat|);
    var from, to := |RecsTo(pat, cells, n)|, |RecsTo(pat, cells, n + 1)|;
    atoms := all[from..to];
    forall k | 0 <= k < to - from
      ensures Context.Shows(Context.Serialise(recs), atoms[k], FieldRecs(pat[n], cells[n])[k]) {
      assert recs[from + k] == RecsTo(pat, cells, n + 1)[from + k] == FieldRecs(pat[n], cells[n])[k];
      Context.AtomShows(recs, from + k);
    }
  }

  lemma RecsToStep(pat: seq<PField>, cells: seq<Cell>, n: nat)
    requires n < |pat| == |cells|
    ensures RecsTo(pat, cells, n + 1) == RecsTo(pat, cells, n) + FieldRecs(pat[n], cells[n])
    ensures RecsTo(pat, cells, 0) == []
  {
  }

  lemma {:induction false} RecsPrefix(pat: seq<PField>, cells: seq<Cell>, i: nat, j: nat)
    requires i <= j <= |pat| == |cells|
    ensures RecsTo(pat, cells, i) <= RecsTo(pat, cells, j)
  {
    hide FieldRecs;
    if i < j { RecsPrefix(pat, cells, i, j - 1); }
  }

  /** While every field so far is taken, all of them come back; the first one that is not
      stops the decoder. */
  lemma {:induction false} FieldsUnpack(pat: seq<PField>, cells: seq<Cell>, was: seq<Cell>, n: nat)
    requires PatternOk(pat) && StructOk(pat, cells) && |was| == |pat| && n <= |pat|
    ensures var recs := RecsTo(pat, cells, |pat|);
            && |RecsTo(pat, cells, n)| <= |recs|
            && var r := Fold(pat, Context.Serialise(recs), Context.AtomsAt(recs, 0)[..|RecsTo(pat, cells, n)|],
               State(was, Unseen(|pat|)), 0);
            && (r.Done? <==> forall j | 0 <= j < n :: Taken(pat[j], cells[j]))
            && (r.Done? ==> Progress(pat, cells, was, n, r.st))
  {
    hide FieldRecs, Context.Serialise, Context.AtomsAt, RecsTo, Fold, Taken, ComesBack, CellOk, FieldOk;
    var recs, start := RecsTo(pat, cells, |pat|), State(was, Unseen(|pat|));
    var buffer, all := Context.Serialise(recs), Context.AtomsAt(recs, 0);
    RecsPrefix(pat, cells, n, |pat|);
    if n == 0 {
      if |pat| > 0 { RecsToStep(pat, cells, 0); } else { NoFieldsNoRecs(pat, cells); }
      FoldStep(pat, buffer, all[..0], start, 0);
    } else {
      FieldsUnpack(pat, cells, was, n - 1);
      var atoms := FieldAtoms(pat, cells, n - 1);
      var done := all[..|RecsTo(pat, cells, n - 1)|];
      assert done + atoms == all[..|RecsTo(pat, cells, n)|];
      FoldSplit(pat, buffer, done, atoms, start, 0);
      var r := Fold(pat, buffer, done, start, 0);
      if r.Done? {
        assert CellOk(pat[n - 1], cells[n - 1]);
        var out := FieldUnpacks(pat, n - 1, cells[n - 1], atoms, buffer, r.st, |done|);
      }
    }
  }

  lemma NoFieldsNoRecs(pat: seq<PField>, cells: seq<Cell>)
    requires |cells| == |pat|
    ensures RecsTo(pat, cells, 0) == []
  {
  }

  /** A struct's records are well formed, so the tokeniser finds exactly them. */
  lemma StructTokens(pat: seq<PField>, cells: seq<Cell>)
    requires PatternOk(pat) && StructOk(pat, cells)
    ensures var recs := RecsTo(pat, cells, |pat|);
            Context.Tokens(Context.Serialise(recs), 0) == Context.Scan(Context.AtomsAt(recs, 0), true)
  {
    hide Context.Serialise, Context.AtomsAt, Context.Tokens, Context.Rec.Valid;
    RecsValid(pat, cells, |pat|);
    Context.TokensOfRecords(RecsTo(pat, cells, |pat|), 0);
  }

  lemma {:induction false} RecsValid(pat: seq<PField>, cells: seq<Cell>, n: nat)
    requires PatternOk(pat) && StructOk(pat, cells) && n <= |pat|
    ensures forall r | r in RecsTo(pat, cells, n) :: r.Valid()
  {
    hide Context.Rec.Valid, FieldRecs, CellOk, FieldOk;
    if n > 0 {
      RecsValid(pat, cells, n - 1);
      assert CellOk(pat[n - 1], cells[n - 1]) && FieldOk(pat[n - 1]);
      FieldValid(pat[n - 1], cells[n - 1]);
    }
  }

  lemma FieldValid(f: PField, c: Cell)
    requires FieldOk(f) && CellOk(f, c)
    ensures forall r | r in FieldRecs(f, c) :: r.Valid()
  {
    hide Tag, TextBytes, PayloadBytes, Bits, IsDefault, NumberBytes;
    TagRoundTrip(f.id, WireType(f.ptype));
    TagRoundTrip(f.id, Context.WT_LEND);
    if c.Elements? { PayloadLength(f.ptype, Numbers(c.vs), 0); }
  }

  /** Unpacking the bytes of a struct succeeds exactly when every field is one the decoder
      takes, and then every variable comes back. */
  lemma UnpackOfPack(pat: seq<PField>, cells: seq<Cell>, was: seq<Cell>)
    requires PatternOk(pat) && StructOk(pat, cells) && |was| == |pat|
    ensures var recs := RecsTo(pat, cells, |pat|);
            var r := Fold(pat, Context.Serialise(recs), Context.AtomsAt(recs, 0), State(was, Unseen(|pat|)), 0);
            && (r.Done? <==> forall j | 0 <= j < |pat| :: Taken(pat[j], cells[j]))
            && (r.Done? ==> forall j | 0 <= j < |pat| :: ComesBack(pat[j], cells[j], was[j], Filled(pat, r.st)[j]))
  {
    hide Context.Serialise, Context.AtomsAt, RecsTo, Fold, Taken, FieldRecs, CellOk, FieldOk, Default;
    var recs := RecsTo(pat, cells, |pat|);
    FieldsUnpack(pat, cells, was, |pat|);
    assert Context.AtomsAt(recs, 0)[..|recs|] == Context.AtomsAt(recs, 0);
  }

  /** An optional zigzag 64-bit field set to 1: its record is refused, whatever the output
      held. */
  lemma ZigZag64Refused(f: PField, was: Cell)
    requires f == PField(1, SINT64, CINT64, OPTIONAL, Num(Longlong(0, 0)))
    ensures FieldOk(f) && CellOk(f, Plain(1)) && OneFails(f, Plain(1), was)
  {
    hide OneFails;
    OneRefused(f, 1, was);
  }

  /** The record of a struct of one variable is refused. */
  ghost predicate OneFails(f: PField, c: Cell, was: Cell) {
    var recs := RecsTo([f], [c], 1);
    Fold([f], Context.Serialise(recs), Context.AtomsAt(recs, 0), State([was], Unseen(1)), 0).Failed?
  }

  lemma OneRefused(f: PField, n: nat, was: Cell)
    requires FieldOk(f) && CellOk(f, Plain(n)) && f.ptype.SINT64? && !f.flabel.PACKED? && !IsDefault(f, Plain(n))
    ensures OneFails(f, Plain(n), was)
  {
    hide Fold, RecsTo, Context.Serialise, Context.AtomsAt, FieldRecs, FieldOk, CellOk, IsDefault;
    NotLeftOut(f, n);
    var pat, cells := [f], [Plain(n)];
    assert !Taken(pat[0], cells[0]);
    UnpackOfPack(pat, cells, [was]);
  }

  lemma NotLeftOut(f: PField, n: nat)
    requires !IsDefault(f, Plain(n))
    ensures FieldRecs(f, Plain(n)) != []
  {
    hide VarRec, IsDefault;
  }

  /** The two entry points, one after the other: whatever `output` held, a struct that
      found room is unpacked again, if the decoder takes its fields. */
  method PackAndUnpack(pat: seq<PField>, input: seq<Cell>, s: PatternPack.Slice, output: array<Cell>)
    returns (left: int, r: int)
    requires s.Valid() && PatternOk(pat) && StructOk(pat, input) && output.Length == |pat|
    modifies s`len, s.buffer, output
    ensures left >= 0 <==> Room(pat, input, |pat|, old(s.len))
    ensures left >= 0 ==> s.len == old(s.len) - left
    ensures left >= 0 ==> (r == 0 <==> forall j | 0 <= j < |pat| :: Taken(pat[j], input[j]))
    ensures left >= 0 && r == 0 ==> forall j | 0 <= j < |pat| :: ComesBack(pat[j], input[j], old(output[j]), output[j])
  {
    hide Context.Serialise, Context.AtomsAt, RecsTo, Fold, Taken, FieldRecs;
    hide CellOk, FieldOk, Default, ComesBack, Room, Context.Tokens;
    ghost var was, bs := output[..], Context.Serialise(RecsTo(pat, input, |pat|));
    ghost var memory := s.buffer[..];
    left := PatternPack.Pack(pat, input, s);
    r := 0;
    if left >= 0 {
      WrittenIs(memory, s.at, bs);
      var written := s.buffer[s.at..s.at + s.len];
      StructTokens(pat, input);
      UnpackOfPack(pat, input, was);
      r := Unpack(pat, written, output);
    }
  }

  lemma WrittenIs(was: seq<byte>, at: nat, bs: seq<byte>)
    requires at + |bs| <= |was|
    ensures Patched(was, at, bs)[at..at + |bs|] == bs
  {
  }

  /** What the decoder leaves in the variable of a field that was not sent can be packed
      again. */
  lemma DefaultPacks(f: PField, was: Cell)
    requires FieldOk(f) && (f.ctype.CVAR? ==> TextOk(f.ptype, f.defv.s))
    ensures CellOk(f, Default(f, was))
  {
    hide TextBytes, IsDefault, DefaultText;
  }

  /** A sub-message has a null pointer as its default. */
  lemma AbsentMessage(f: PField, was: Cell)
    requires f == PField(1, MESSAGE, CVAR, OPTIONAL, Str(Text(None, 0)))
    ensures FieldOk(f) && Default(f, was) == TextCell(Text(None, 0)) && CellOk(f, Default(f, was))
  {
    DefaultPacks(f, was);
  }

  // ---- how faithful that is

  /** The variable unpacked stands for what the variable packed stood for. */
  ghost predicate Restored(f: PField, c: Cell, out: Cell) {
    match c
    case Plain(_) => out == c
    case TextCell(s) => out.TextCell? && Holds(out.s, TextBytes(f.ptype, s))
    case Elements(vs) =>
      out.Elements? && |out.vs| == |vs| && forall i | 0 <= i < |vs| :: VarRestored(f.ptype, vs[i], out.vs[i])
  }

  predicate VarRestored(t: Type, v: Var, w: Var) {
    if v.Num? then w == v else w.Str? && Holds(w.s, TextBytes(t, v.s))
  }

  /** What decides it. A value left out as the default comes back unless it is a zero of
      the other sign, or a string asked for with its terminator (a negative length). A
      value sent comes back unless its 64-bit number does not survive the wire, or it is a
      16-bit variable whose upper byte was not already in the output. */
  predicate Restorable(f: PField, c: Cell, was: Cell) {
    if f.flabel.OPTIONAL? && IsDefault(f, c) then
      match c
      case Plain(n) => (f.ctype.CDOUBLE? || f.ctype.CFLOAT?) && f.defv.Num? ==> n == Store(f.ctype, f.defv.v, 0)
      case TextCell(s) => DefaultKeeps(f, s)
      case Elements(_) => true
    else
      match c
      case Plain(n) =>
        && (f.ctype.CINT64? ==> Packed.Kept(f.ptype, Bits(n)))
        && (f.ctype.CINT16? && was.Plain? ==> was.n / 0x100 == n / 0x100)
      case TextCell(_) => true
      case Elements(vs) => forall i | 0 <= i < |vs| && vs[i].Num? :: Packed.Kept(f.ptype, vs[i].v)
  }

  /** A string left out, as it equals the default: up to their terminators if it has no
      positive length. */
  predicate DefaultKeeps(f: PField, s: Text) {
    f.defv.Str? && f.defv.s.mem.Some? ==>
      var d, bs := f.defv.s, TextBytes(f.ptype, s);
      (s.mem.Some? && s.len > 0)
        || (d.len == |bs| && (s.len < 0 && d.len <= |d.mem.value| ==> d.mem.value[..d.len] == bs))
  }

  lemma RestoredExactly(f: PField, c: Cell, was: Cell, out: Cell)
    requires FieldOk(f) && CellOk(f, c) && CellShape(f, was) && Taken(f, c) && ComesBack(f, c, was, out)
    ensures Restored(f, c, out) <==> Restorable(f, c, was)
  {
    hide Packed.Kept, Packed.Wire, VarRec, PackedRec, Store, TextBytes, TextOk, IsDefault;
    if f.flabel.OPTIONAL? && IsDefault(f, c) {
      DefaultRestored(f, c, was);
    } else {
      match c {
        case Plain(n) => PlainRestored(f, n, was);
        case TextCell(_) =>
        case Elements(vs) =>
          forall i | 0 <= i < |vs| ensures vs[i].Num? ==>
            (Packed.Wire(f.ptype, vs[i].v) == vs[i].v <==> Packed.Kept(f.ptype, vs[i].v)) {
            if vs[i].Num? { Packed.WireKeeps(f.ptype, vs[i].v); }
          }
          if vs != [] {
            assert FieldRecs(f, c) != [];
            assert forall i | 0 <= i < |vs| && vs[i].Num? ::
                (VarRestored(f.ptype, vs[i], out.vs[i]) <==> Packed.Kept(f.ptype, vs[i].v));
          }
      }
    }
  }

  /** A 16-bit variable that holds 0x0100 comes back as 0 where 0 was. */
  lemma UpperByteLost(f: PField, out: Cell)
    requires f == PField(1, INT32, CINT16, REQUIRED, Num(Longlong(0, 0))) && ComesBack(f, Plain(0x100), Plain(0), out)
    ensures out == Plain(0)
  {
    hide FieldRecs, Packed.Wire;
    Sent(f, 0x100);
    SmallBits();
    var v := Longlong(0x100, 0);
    Packed.WireKeeps(INT32, v);
  }

  lemma Sent(f: PField, n: nat)
    requires !f.flabel.OPTIONAL?
    ensures FieldRecs(f, Plain(n)) != []
  {
    hide VarRec, IsDefault;
  }

  lemma SmallBits()
    ensures Bits(0x100) == Longlong(0x100, 0) && Packed.Kept(INT32, Longlong(0x100, 0))
  {
    hide Packed.Wire;
    Varint.ExactSmall(0x100);
  }

  /** A double that holds the negative zero comes back as the positive one, if that is the
      default. */
  lemma SignLost(was: Cell, out: Cell)
    requires var f := PField(1, DOUBLE, CDOUBLE, OPTIONAL, Num(Longlong(0, 0)));
             CellShape(f, was) && ComesBack(f, Plain(0x8000_0000_0000_0000), was, out)
    ensures out == Plain(0)
  {
    SplitJoin(0x8000_0000_0000_0000, Longlong(0, 0));
  }

  /** A string of one letter asked for with its terminator comes back without it, if the
      letter is the default. */
  lemma TerminatorLost(was: Cell, out: Cell)
    requires var f := PField(1, STRING, CVAR, OPTIONAL, Str(Text(Some([65, 0]), 1)));
             CellShape(f, was) && ComesBack(f, TextCell(Text(Some([65, 0]), -1)), was, out)
    ensures TextBytes(STRING, Text(Some([65, 0]), -1)) == [65, 0] && out == TextCell(Text(Some([65, 0]), 1))
  {
    assert CString([65, 0]) == [65] by { assert [65, 0][1..] == [0]; }
  }

  lemma DefaultRestored(f: PField, c: Cell, was: Cell)
    requires FieldOk(f) && CellOk(f, c) && CellShape(f, was) && f.flabel.OPTIONAL? && IsDefault(f, c)
    ensures Restored(f, c, Default(f, was)) <==> Restorable(f, c, was)
  {
    hide DoubleEq, FloatEq;
    match c {
      case Plain(n) => SplitJoin(n, f.defv.v);
      case TextCell(s) =>
      case Elements(_) =>
    }
  }

  lemma PlainRestored(f: PField, n: nat, was: Cell)
    requires FieldOk(f) && CellShape(f, Plain(n)) && CellShape(f, was) && Single(f) && !f.ptype.SINT64?
    ensures Place(f, Num(Packed.Wire(f.ptype, Bits(n))), was) == Plain(n) <==>
              (f.ctype.CINT64? ==> Packed.Kept(f.ptype, Bits(n))) && (f.ctype.CINT16? ==> was.n / 0x100 == n / 0x100)
  {
    hide Packed.Kept, Packed.Wire;
    var v := Bits(n);
    Packed.WireKeeps(f.ptype, v);
    SplitJoin(n, Packed.Wire(f.ptype, v));
    match f.ctype {
      case CINT64 => SplitJoin(n, v);
      case CDOUBLE => DoubleKept(v);
      case CINT32 | CFLOAT | CBOOL | CINT8 | CINT16 =>
      case CVAR =>
    }
  }

  lemma DoubleKept(v: Longlong)
    ensures Packed.Kept(DOUBLE, v)
  {
  }
}
