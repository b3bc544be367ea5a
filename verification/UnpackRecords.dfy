/** Unpacking arbitrary bytes into a struct (ext/pbc/src/pattern.c): which records are taken,
    which are skipped, and what each variable holds in the end. */
module UnpackRecords {
  import opened Words
  import opened Wrappers
  import opened Proto
  import opened Pattern
  import opened PatternUnpack
  import Context
  import Packed
  import PatternRoundTrip
  import Records
  import Varint

  // ---- one record

  /** The number in a record, whatever its wire type. */
  function NumberIn(t: Type, a: Context.Atom): Longlong {
    match t
    case SINT32 => Varint.DeZigZag32(Longlong(FromInt(a.first), FromInt(a.second)))
    case SINT64 => Varint.DeZigZag64(Longlong(FromInt(a.first), FromInt(a.second)))
    case _ => Longlong(FromInt(a.first), FromInt(a.second))
  }

  /** The records a field takes: texts and, outside packed fields, zigzag 64-bit numbers have
      to be delimited; the wire type of other numbers is not looked at. */
  predicate Suits(f: PField, a: Context.Atom, buffer: seq<byte>) {
    if f.ctype.CPACKED? then Packed.UnpackAtom(f.ptype, buffer, a).n >= 0
    else
      match f.ptype
      case STRING | BYTES | MESSAGE => a.wireId % 8 == 2 && a.first <= a.second <= |buffer|
      case SINT64 => a.wireId % 8 == 2
      case GROUP => false
      case _ => true
  }

  /** The number a variable of a C type holds after a number was stored in it. */
  function Kept(c: CType, v: Longlong, was: nat): nat {
    match c
    case CINT64 | CDOUBLE => v.hi * 0x1_0000_0000 + v.low
    case CINT32 | CFLOAT => v.low
    case CINT16 => was - was % 256 + v.low % 256
    case CINT8 => v.low % 256
    case CBOOL => if v.low == 0 then 0 else 1
    case CARRAY | CVAR | CPACKED => was
  }

  lemma {:induction false} KeptIs(c: CType, v: Longlong, was: nat)
    ensures Store(c, v, was) == Kept(c, v, was)
  {
  }

  lemma {:induction false} KeptAgain(c: CType, u: Longlong, v: Longlong, was: nat)
    ensures Kept(c, v, Kept(c, u, was)) == Kept(c, v, was)
  {
  }

  /** A record is refused if and only if it does not suit its field; otherwise a single number
      is kept as its C type keeps it, a text becomes a slice of the buffer, and the elements of
      an array are appended. */
  lemma {:induction false} RecordExactly(f: PField, a: Context.Atom, buffer: seq<byte>, was: Cell)
    ensures UnpackField(f, a, buffer, was).Some? <==> Suits(f, a, buffer)
    ensures Suits(f, a, buffer) ==>
              var out := UnpackField(f, a, buffer, was).value;
              if f.ctype.CPACKED? then out == Elements(Held(was) + AsVars(Packed.UnpackAtom(f.ptype, buffer, a).vs))
              else if f.ctype.CARRAY? then out == Elements(Held(was) + [ValueIn(f.ptype, a, buffer)])
              else if IsNumber(f.ptype)
                then out == Plain(Kept(f.ctype, NumberIn(f.ptype, a), if was.Plain? then was.n else 0))
              else out == TextCell(Text(Some(buffer[a.first..]), a.second - a.first))
  {
    hide Packed.UnpackAtom, Varint.DeZigZag32, Varint.DeZigZag64, Store, Kept;
    KeptIs(f.ctype, NumberIn(f.ptype, a), if was.Plain? then was.n else 0);
  }

  /** The value of a record as an array element. */
  function ValueIn(t: Type, a: Context.Atom, buffer: seq<byte>): Var {
    if IsNumber(t) then Num(NumberIn(t, a))
    else if a.first <= a.second <= |buffer| then Str(Text(Some(buffer[a.first..]), a.second - a.first))
    else Str(Text(None, 0))
  }

  // ---- all records

  ghost predicate Listed(pat: seq<PField>, id: int) {
    exists i :: 0 <= i < |pat| && pat[i].id == id
  }

  /** What the records of one field leave in its variable. */
  ghost predicate Leaves(f: PField, recs: seq<Context.Atom>, buffer: seq<byte>, was: Cell, out: Cell) {
    if recs == [] then out == was
    else if f.ctype.CPACKED? then out == Elements(AsVars(Payloads(f.ptype, recs, buffer)))
    else if f.ctype.CARRAY? then
      out.Elements? && |out.vs| == |recs| && forall k | 0 <= k < |recs| ::
        out.vs[k] == ValueIn(f.ptype, recs[k], buffer)
    else
      var last := recs[|recs| - 1];
      if IsNumber(f.ptype) then out == Plain(Kept(f.ctype, NumberIn(f.ptype, last), if was.Plain? then was.n else 0))
      else
        && last.first <= last.second <= |buffer|
        && out == TextCell(Text(Some(buffer[last.first..]), last.second - last.first))
  }

  /** The numbers of several payloads, one behind the other. */
  function Payloads(t: Type, recs: seq<Context.Atom>, buffer: seq<byte>): seq<Longlong> {
    if recs == [] then []
    else Payloads(t, recs[..|recs| - 1], buffer) + Packed.UnpackAtom(t, buffer, recs[|recs| - 1]).vs
  }

  /** No record of a listed field among the first n is refused. */
  ghost predicate AllSuit(pat: seq<PField>, atoms: seq<Context.Atom>, buffer: seq<byte>) {
    forall k, i | 0 <= k < |atoms| && 0 <= i < |pat| && pat[i].id == atoms[k].FieldId() ::
      Suits(pat[i], atoms[k], buffer)
  }

  ghost predicate After(pat: seq<PField>, atoms: seq<Context.Atom>, buffer: seq<byte>, was: seq<Cell>, st: State)
    requires |was| == |pat|
  {
    && |st.cells| == |st.seen| == |pat|
    && forall i | 0 <= i < |pat| ::
         && (st.seen[i] <==> Records.RecordsOf(atoms, pat[i].id) != [])
         && Leaves(pat[i], Records.RecordsOf(atoms, pat[i].id), buffer, was[i], st.cells[i])
  }

  lemma {:induction false} IndexIs(pat: seq<PField>, id: int)
    requires PatternOk(pat)
    ensures var i := IndexOf(pat, id); (i < |pat| <==> Listed(pat, id)) && forall j | 0 <= j < |pat|
            && pat[j].id == id :: j == i
  {
    hide FieldOk;
  }

  /** The variable of the record's field, after one more record. */
  lemma {:induction false} LeavesMore(f: PField, recs: seq<Context.Atom>, a: Context.Atom, buffer: seq<byte>,
                                      was: Cell, c: Cell)
    requires FieldOk(f) && Leaves(f, recs, buffer, was, c) && Suits(f, a, buffer)
    ensures Leaves(f, recs + [a], buffer, was,
            UnpackField(f, a, buffer, if recs == [] && IsArray(f) then Elements([]) else c).value)
  {
    hide Packed.UnpackAtom, Varint.DeZigZag32, Varint.DeZigZag64, Kept, UnpackField, NumberIn;
    var from := if recs == [] && IsArray(f) then Elements([]) else c;
    RecordExactly(f, a, buffer, from);
    assert (recs + [a])[..|recs|] == recs;
    if recs != [] && Single(f) && IsNumber(f.ptype) {
      KeptAgain(f.ctype, NumberIn(f.ptype, recs[|recs| - 1]), NumberIn(f.ptype, a), if was.Plain? then was.n else 0);
    }
    if f.ctype.CPACKED? && recs == [] { assert Payloads(f.ptype, recs, buffer) == []; }
  }

  /** Unpacking succeeds if and only if no record of a listed field is refused, and records of
      other fields are skipped: the last record of a single variable is what is left in it, and
      an array holds the values of its records in order. */
  lemma {:induction false} UnpackExactly(pat: seq<PField>, atoms: seq<Context.Atom>, buffer: seq<byte>, was: seq<Cell>)
    requires PatternOk(pat) && |was| == |pat|
    ensures var r := Fold(pat, buffer, atoms, State(was, Unseen(|pat|)), 0);
            && (r.Done? <==> AllSuit(pat, atoms, buffer))
            && (r.Done? ==> After(pat, atoms, buffer, was, r.st))
    decreases |atoms|
  {
    hide Step, Fold, Suits, Leaves, FieldOk, UnpackField, Records.RecordsOf;
    var start := State(was, Unseen(|pat|));
    FoldStep(pat, buffer, [], start, 0);
    if atoms == [] {
      NothingLeft(pat, buffer, was);
    } else {
      var n := |atoms| - 1;
      var a, before := atoms[n], atoms[..n];
      assert atoms == before + [a];
      UnpackExactly(pat, before, buffer, was);
      PatternRoundTrip.FoldSplit(pat, buffer, before, [a], start, 0);
      var r := Fold(pat, buffer, before, start, 0);
      if r.Done? {
        FoldStep(pat, buffer, [a], r.st, n);
        LastRecord(pat, before, a, buffer, was, r.st);
        if s :| Step(pat, buffer, a, r.st) == Some(s) { FoldStep(pat, buffer, [a][1..], s, n + 1); }
      }
    }
  }

  lemma {:induction false} NothingLeft(pat: seq<PField>, buffer: seq<byte>, was: seq<Cell>)
    requires |was| == |pat|
    ensures After(pat, [], buffer, was, State(was, Unseen(|pat|)))
  {
  }

  lemma {:induction false} LastRecord(pat: seq<PField>, before: seq<Context.Atom>, a: Context.Atom, buffer: seq<byte>,
                                      was: seq<Cell>, st: State)
    requires PatternOk(pat) && |was| == |pat| && After(pat, before, buffer, was, st) && AllSuit(pat, before, buffer)
    ensures Step(pat, buffer, a, st).Some? <==> AllSuit(pat, before + [a], buffer)
    ensures Step(pat, buffer, a, st).Some? ==> After(pat, before + [a], buffer, was, Step(pat, buffer, a, st).value)
  {
    hide Suits, Leaves, FieldOk, UnpackField, Records.RecordsOf;
    var i := IndexOf(pat, a.FieldId());
    IndexIs(pat, a.FieldId());
    forall j | 0 <= j < |pat|
      ensures var recs := Records.RecordsOf(before, pat[j].id);
              Records.RecordsOf(before + [a], pat[j].id) == if pat[j].id == a.FieldId() then recs + [a] else recs
    {
      Records.OneMore(before, a, pat[j].id);
    }
    if i < |pat| {
      var recs := Records.RecordsOf(before, pat[i].id);
      var from := if recs == [] && IsArray(pat[i]) then Elements([]) else st.cells[i];
      RecordExactly(pat[i], a, buffer, from);
      assert FieldOk(pat[i]);
      assert pat[i].id == a.FieldId() && (before + [a])[|before|] == a;
      if Suits(pat[i], a, buffer) { LeavesMore(pat[i], recs, a, buffer, was[i], st.cells[i]); }
    }
    assert forall k | 0 <= k < |before| :: (before + [a])[k] == before[k];
  }

  /** The position reported is that of the first record that is refused. */
  lemma {:induction false} FailedAt(pat: seq<PField>, atoms: seq<Context.Atom>, buffer: seq<byte>, was: seq<Cell>)
    requires PatternOk(pat) && |was| == |pat|
    ensures var r := Fold(pat, buffer, atoms, State(was, Unseen(|pat|)), 0);
            r.Failed? ==>
              && r.at < |atoms| && AllSuit(pat, atoms[..r.at], buffer)
              && !AllSuit(pat, atoms[..r.at + 1], buffer)
    decreases |atoms|
  {
    hide Step, Fold, AllSuit;
    var start := State(was, Unseen(|pat|));
    FoldStep(pat, buffer, [], start, 0);
    if atoms != [] {
      var n := |atoms| - 1;
      var a, before := atoms[n], atoms[..n];
      assert atoms == before + [a] && atoms[..n + 1] == atoms;
      UnpackExactly(pat, before, buffer, was);
      UnpackExactly(pat, atoms, buffer, was);
      PatternRoundTrip.FoldSplit(pat, buffer, before, [a], start, 0);
      var r := Fold(pat, buffer, before, start, 0);
      if r.Done? {
        FoldStep(pat, buffer, [a], r.st, n);
        if s :| Step(pat, buffer, a, r.st) == Some(s) { FoldStep(pat, buffer, [a][1..], s, n + 1); }
      } else {
        FailedAt(pat, before, buffer, was);
        assert before[..r.at] == atoms[..r.at] && before[..r.at + 1] == atoms[..r.at + 1];
      }
    }
  }

  // ---- records of fields the pattern does not list

  function OnlyListed(pat: seq<PField>, atoms: seq<Context.Atom>): seq<Context.Atom> {
    if atoms == [] then []
    else
      var before, a := OnlyListed(pat, atoms[..|atoms| - 1]), atoms[|atoms| - 1];
      if exists i :: 0 <= i < |pat| && pat[i].id == a.FieldId() then before + [a] else before
  }

  lemma {:induction false} ListedRecords(pat: seq<PField>, atoms: seq<Context.Atom>, buffer: seq<byte>)
    ensures forall i | 0 <= i < |pat| ::
              Records.RecordsOf(OnlyListed(pat, atoms), pat[i].id) == Records.RecordsOf(atoms, pat[i].id)
    ensures AllSuit(pat, OnlyListed(pat, atoms), buffer) <==> AllSuit(pat, atoms, buffer)
    decreases |atoms|
  {
    hide Suits;
    if atoms != [] {
      var n := |atoms| - 1;
      var before, a := atoms[..n], atoms[n];
      ListedRecords(pat, before, buffer);
      assert atoms == before + [a];
      assert forall k | 0 <= k < n :: atoms[k] == before[k];
      var kept := OnlyListed(pat, before);
      forall i | 0 <= i < |pat|
        ensures Records.RecordsOf(OnlyListed(pat, atoms), pat[i].id) == Records.RecordsOf(atoms, pat[i].id) {
        Records.OneMore(before, a, pat[i].id);
        Records.OneMore(kept, a, pat[i].id);
      }
      assert forall k | 0 <= k < |kept| :: (kept + [a])[k] == kept[k];
      assert (kept + [a])[|kept|] == a;
    }
  }

  lemma {:induction false} LeavesOnce(f: PField, recs: seq<Context.Atom>, buffer: seq<byte>, was: Cell, c: Cell,
                                      d: Cell)
    requires Leaves(f, recs, buffer, was, c) && Leaves(f, recs, buffer, was, d)
    ensures c == d
  {
    hide Kept, NumberIn, ValueIn;
  }

  /** Records of fields that are not listed change neither the outcome nor a variable. */
  lemma {:induction false} OthersSkipped(pat: seq<PField>, atoms: seq<Context.Atom>, buffer: seq<byte>, was: seq<Cell>)
    requires PatternOk(pat) && |was| == |pat|
    ensures var r := Fold(pat, buffer, atoms, State(was, Unseen(|pat|)), 0);
            var q := Fold(pat, buffer, OnlyListed(pat, atoms), State(was, Unseen(|pat|)), 0);
            (r.Done? <==> q.Done?) && (r.Done? ==> r.st == q.st)
  {
    hide Fold, Leaves, FieldOk, OnlyListed, Records.RecordsOf, AllSuit;
    UnpackExactly(pat, atoms, buffer, was);
    UnpackExactly(pat, OnlyListed(pat, atoms), buffer, was);
    ListedRecords(pat, atoms, buffer);
    var r := Fold(pat, buffer, atoms, State(was, Unseen(|pat|)), 0);
    var q := Fold(pat, buffer, OnlyListed(pat, atoms), State(was, Unseen(|pat|)), 0);
    if r.Done? {
      forall i | 0 <= i < |pat| ensures r.st.cells[i] == q.st.cells[i] && r.st.seen[i] == q.st.seen[i] {
        LeavesOnce(pat[i], Records.RecordsOf(atoms, pat[i].id), buffer, was[i], r.st.cells[i], q.st.cells[i]);
      }
      assert r.st.cells == q.st.cells && r.st.seen == q.st.seen;
    }
  }

  // ---- the whole struct

  /** The default of a variable, per C type. */
  predicate IsDefaultOf(f: PField, c: Cell) {
    match f.ctype
    case CARRAY | CPACKED => c == Elements([])
    case CVAR => f.defv.Str? && c == TextCell(f.defv.s)
    case CINT64 | CDOUBLE => f.defv.Num? && c == Plain(f.defv.v.hi * 0x1_0000_0000 + f.defv.v.low)
    case CINT32 | CFLOAT => f.defv.Num? && c == Plain(f.defv.v.low)
    case CINT16 => f.defv.Num? && c == Plain(f.defv.v.low % 65536)
    case CINT8 => f.defv.Num? && c == Plain(f.defv.v.low % 256)
    case CBOOL => f.defv.Num? && c == Plain(if f.defv.v.low == 0 then 0 else 1)
  }

  lemma {:induction false} DefaultIs(f: PField, was: Cell)
    requires FieldOk(f)
    ensures IsDefaultOf(f, Default(f, was))
  {
  }

  /** `pbc_pattern_unpack` on any bytes: the result, and every variable. */
  method UnpackAny(pat: seq<PField>, bs: seq<byte>, output: array<Cell>) returns (r: int)
    requires PatternOk(pat) && output.Length == |pat|
    modifies output
    ensures var s := Context.Tokens(bs, 0);
            && (r == 0 <==> s.ok && AllSuit(pat, s.atoms, bs))
            && (r == 0 ==> forall i | 0 <= i < |pat| ::
                  var recs := Records.RecordsOf(s.atoms, pat[i].id);
                  if recs == [] then IsDefaultOf(pat[i], output[i])
                    else Leaves(pat[i], recs, bs, old(output[i]), output[i]))
            && (!s.ok ==> r == -|s.atoms| - 1)
            && (s.ok && r != 0 ==>
                  r < 0 && -r <= |s.atoms| && AllSuit(pat, s.atoms[..-r - 1], bs) && !AllSuit(pat, s.atoms[..-r], bs))
  {
    hide Fold, Leaves, FieldOk, Records.RecordsOf, AllSuit, Context.Tokens, Default, IsDefaultOf;
    ghost var s, was := Context.Tokens(bs, 0), output[..];
    r := Unpack(pat, bs, output);
    UnpackExactly(pat, s.atoms, bs, was);
    FailedAt(pat, s.atoms, bs, was);
    if r == 0 {
      forall i | 0 <= i < |pat|
        ensures var recs := Records.RecordsOf(s.atoms, pat[i].id);
                if recs == [] then IsDefaultOf(pat[i], output[i]) else Leaves(pat[i], recs, bs, was[i], output[i])
      {
        assert output[i] == output[..][i] && FieldOk(pat[i]);
        DefaultIs(pat[i], Fold(pat, bs, s.atoms, State(was, Unseen(|pat|)), 0).st.cells[i]);
      }
    }
  }
}
