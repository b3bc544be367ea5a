/** The records of a scan that belong to one field. */
module Records {
  import Context

  /** The records of one field, in order. */
  function RecordsOf(atoms: seq<Context.Atom>, id: int): seq<Context.Atom> {
    if atoms == [] then []
    else
      var before, a := RecordsOf(atoms[..|atoms| - 1], id), atoms[|atoms| - 1];
      if a.FieldId() == id then before + [a] else before
  }

  lemma {:induction false} OneMore(atoms: seq<Context.Atom>, a: Context.Atom, id: int)
    ensures RecordsOf(atoms + [a], id) == if a.FieldId() == id then RecordsOf(atoms, id) + [a] else RecordsOf(atoms, id)
  {
    assert (atoms + [a])[..|atoms|] == atoms;
  }
}
