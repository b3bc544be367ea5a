/** What a run of writer calls builds (ext/pbc/src/wmessage.c): which call gives which value to
    which message, stated call by call and for whole runs. */
module Built {
  import opened Words
  import opened Wrappers
  import opened Proto
  import opened WTree
  import opened WMessage
  import opened Messages

  // ---- one call

  /** The bytes a string call is about: `len` of them or, if len is zero or less, those up to the
      terminator and -len more. */
  predicate StringGiven(v: seq<byte>, len: int, bs: seq<byte>) {
    if len > 0 then len <= |v| && bs == v[..len]
    else exists z: nat ::
      z < |v| && v[z] == 0 && (forall i | 0 <= i < z :: v[i] != 0) && z - len <= |v| && bs == v[..z - len]
  }

  /** bs up to its first zero byte, or all of it. */
  predicate NameIn(bs: seq<byte>, name: Name) {
    && name <= bs && (forall i | 0 <= i < |name| :: name[i] != 0)
    && (|name| < |bs| ==> bs[|name|] == 0)
  }

  /** The values a call gives to the field its key names: one, or none. */
  ghost predicate Gives(env: Env, t: Message, c: Call, ws: seq<(Field, Value)>) {
    if c.key !in t.name then ws == []
    else
      var f := t.name[c.key];
      match c
      case PutInteger(_, _, v) =>
        if f.ftype in {INT64, UINT64, INT32, UINT32, ENUM, BOOL, FIXED64, SFIXED64, FIXED32, SFIXED32, SINT32, SINT64}
        then ws == [(f, Number(v))] else ws == []
      case PutReal(_, _, v, single) =>
        if f.ftype.DOUBLE? then ws == [(f, Number(v))]
        else if f.ftype.FLOAT? then ws == [(f, Number(Longlong(single, 0)))]
        else ws == []
      case PutString(_, _, str, len) =>
        if f.ftype.STRING? || f.ftype.BYTES? then exists bs :: StringGiven(str, len, bs) && ws == [(f, Chars(bs))]
        else if f.ftype.ENUM? then
          exists bs, name :: StringGiven(str, len, bs) && NameIn(bs, name)
            && if f.typeName in env.enums && name in env.enums[f.typeName].name
               then
                 var id := env.enums[f.typeName].name[name];
                 ws == [(f, Number(Longlong(id % 0x1_0000_0000, 0)))]
               else ws == []
        else ws == []
      case PutMessage(_, _) => ws == []
  }

  /** The type of the sub-message a call makes, if it makes one. */
  ghost predicate Makes(env: Env, t: Message, c: Call) {
    c.PutMessage? && c.key in t.name && t.name[c.key].typeName in env.msgs
  }

  lemma {:induction false} StringIs(v: seq<byte>, len: int)
    requires if len > 0 then len <= |v| else |CString(v)| < |v| && |CString(v)| - len <= |v|
    ensures StringGiven(v, len, v[..if len <= 0 then |CString(v)| - len else len])
  {
  }

  lemma {:induction false} NameIs(bs: seq<byte>)
    ensures NameIn(bs, CString(bs))
  {
  }

  /** One call changes its message only: the value it gives is put behind those there, or a new
      message joins as the last one. */
  lemma {:induction false} StepExactly(env: Env, st: State, c: Call)
    requires Legal(env, st, c) && |st.parent| == |st.s|
    ensures var to, t := Step(env, st, c), st.s[c.node].mtype;
            && |to.parent| == |to.s|
            && (Makes(env, t, c) ==>
                  && |to.s| == |st.s| + 1 && to.parent == st.parent + [c.node]
                  && to.s[|st.s|] == Node(env.msgs[t.name[c.key].typeName], [], [], [])
                  && to.s[c.node] == st.s[c.node].(subs := st.s[c.node].subs + [(|st.s|, t.name[c.key])]))
            && (!Makes(env, t, c) ==>
                  && |to.s| == |st.s| && to.parent == st.parent
                  && to.s[c.node].mtype == t && to.s[c.node].subs == st.s[c.node].subs
                  && exists ws :: Gives(env, t, c, ws) && to.s[c.node].written == st.s[c.node].written + ws)
            && forall k | 0 <= k < |st.s| && k != c.node :: to.s[k] == st.s[k]
  {
    hide RecOf, CString;
    var n := st.s[c.node];
    var t := n.mtype;
    assert n.written + [] == n.written;
    if c.key in t.name {
      var f := t.name[c.key];
      match c {
        case PutInteger(_, _, v) => assert Gives(env, t, c, if Integral(f.ftype) then [(f, Number(v))] else []);
        case PutReal(_, _, v, single) =>
          assert Gives(env, t, c, if Real(f.ftype) then [(f, RealNumber(f, v, single))] else []);
        case PutString(_, key, str, len) => StringGives(env, t, c);
        case PutMessage(_, _) => assert Gives(env, t, c, []);
      }
    } else {
      assert Gives(env, t, c, []);
    }
  }

  lemma {:induction false} StringGives(env: Env, t: Message, c: Call)
    requires c.PutString? && c.key in t.name && |c.str| < 0x8000_0000
    requires if c.len > 0 then c.len <= |c.str| else |CString(c.str)| < |c.str| && |CString(c.str)| - c.len <= |c.str|
    ensures var w := StringWrites(env, t, c.key, c.str, c.len);
            Gives(env, t, c, if w.Some? then [(t.name[c.key], w.value)] else [])
  {
    hide CString, StringGiven, NameIn;
    StringIs(c.str, c.len);
    NameIs(c.str[..if c.len <= 0 then |CString(c.str)| - c.len else c.len]);
  }

  // ---- whole runs

  /** What the calls of a run give to message k of type t: the values of those addressed to it, in
      order. */
  ghost predicate Given(env: Env, t: Message, calls: seq<Call>, k: nat, ws: seq<(Field, Value)>)
    decreases |calls|
  {
    if calls == [] then ws == []
    else if calls[0].node != k then Given(env, t, calls[1..], k, ws)
    else exists m: nat :: m <= |ws| && Gives(env, t, calls[0], ws[..m]) && Given(env, t, calls[1..], k, ws[m..])
  }

  /** The messages a run makes behind those of the given types: parent and field, in order. */
  ghost function MadeBy(env: Env, types: seq<Message>, calls: seq<Call>): seq<(nat, Field)>
    decreases |calls|
  {
    if calls == [] then []
    else
      var c := calls[0];
      if c.node < |types| && Makes(env, types[c.node], c) then
        var f := types[c.node].name[c.key];
        [(c.node, f)] + MadeBy(env, types + [env.msgs[f.typeName]], calls[1..])
      else MadeBy(env, types, calls[1..])
  }

  ghost function TypesOf(st: State): seq<Message> {
    seq(|st.s|, i requires 0 <= i < |st.s| => st.s[i].mtype)
  }

  /** Those of message k, under the numbers they get: from `first` on. */
  ghost function SubsOf(made: seq<(nat, Field)>, k: nat, first: nat): seq<(nat, Field)> {
    if made == [] then []
    else (if made[0].0 == k then [(first, made[0].1)] else []) + SubsOf(made[1..], k, first + 1)
  }

  /** The values given to one message over a run were put behind those it held. */
  ghost predicate Appended(env: Env, calls: seq<Call>, k: nat, was: Node, now: Node) {
    exists ws :: Given(env, was.mtype, calls, k, ws) && now.written == was.written + ws
  }

  /** What a run makes of message k: its values and its sub-messages were put behind those it
      had. The messages made get the numbers from `first` on. */
  ghost predicate Ran(env: Env, calls: seq<Call>, made: seq<(nat, Field)>, first: nat, k: nat, was: Node, now: Node) {
    now.mtype == was.mtype && now.subs == was.subs + SubsOf(made, k, first) && Appended(env, calls, k, was, now)
  }

  /** Every message holds exactly the values given to it, in order, and its sub-messages in the
      order they were made; every message made is there under its number, and began empty. */
  ghost predicate RunShows(env: Env, st: State, calls: seq<Call>, to: State) {
    var made, n := MadeBy(env, TypesOf(st), calls), |st.s|;
    && |st.parent| == n && |to.s| == |to.parent| == n + |made|
    && (forall k | 0 <= k < n :: to.parent[k] == st.parent[k] && Ran(env, calls, made, n, k, st.s[k], to.s[k]))
    && (forall j | 0 <= j < |made| ::
          && made[j].1.typeName in env.msgs && to.parent[n + j] == made[j].0
          && Ran(env, calls, made, n, n + j, Node(env.msgs[made[j].1.typeName], [], [], []), to.s[n + j]))
  }

  lemma {:induction false} RunExactly(env: Env, st: State, calls: seq<Call>)
    requires LegalRun(env, st, calls) && |st.parent| == |st.s|
    ensures RunShows(env, st, calls, Run(env, st, calls))
    decreases |calls|
  {
    hide Legal, Step, Gives, Ran;
    if calls == [] {
      NothingRan(env, st);
    } else {
      var c, rest := calls[0], calls[1..];
      var mid := Step(env, st, c);
      StepExactly(env, st, c);
      LegalNode(env, st, c);
      RunExactly(env, mid, rest);
      var t := st.s[c.node].mtype;
      if Makes(env, t, c) {
        assert TypesOf(mid) == TypesOf(st) + [env.msgs[t.name[c.key].typeName]];
        MakingRun(env, st, calls, mid, Run(env, mid, rest));
      } else {
        assert TypesOf(mid) == TypesOf(st);
        GivingRun(env, st, calls, mid, Run(env, mid, rest));
      }
    }
  }

  lemma {:induction false} LegalNode(env: Env, st: State, c: Call)
    requires Legal(env, st, c)
    ensures c.node < |st.s|
  {
  }

  lemma {:induction false} NothingRan(env: Env, st: State)
    requires |st.parent| == |st.s|
    ensures RunShows(env, st, [], st)
  {
    forall k | 0 <= k < |st.s| ensures Ran(env, [], [], |st.s|, k, st.s[k], st.s[k]) {
      assert Given(env, st.s[k].mtype, [], k, []);
      assert st.s[k].written + [] == st.s[k].written && st.s[k].subs + [] == st.s[k].subs;
    }
  }

  /** A call that is not for message k, or gives it values. */
  lemma {:induction false} RanMore(env: Env, calls: seq<Call>, made: seq<(nat, Field)>, first: nat, k: nat,
                                   was: Node, mid: Node, now: Node)
    requires calls != [] && mid.mtype == was.mtype && mid.subs == was.subs
             && Ran(env, calls[1..], made, first, k, mid, now)
    requires if calls[0].node == k then exists ws ::
               Gives(env, was.mtype, calls[0], ws) && mid.written == was.written + ws
             else mid.written == was.written
    ensures Ran(env, calls, made, first, k, was, now)
  {
    hide Gives, SubsOf;
    var vs :| Given(env, mid.mtype, calls[1..], k, vs) && now.written == mid.written + vs;
    if calls[0].node == k {
      var ws :| Gives(env, was.mtype, calls[0], ws) && mid.written == was.written + ws;
      assert (ws + vs)[..|ws|] == ws && (ws + vs)[|ws|..] == vs;
      assert Given(env, was.mtype, calls, k, ws + vs);
      assert now.written == was.written + (ws + vs);
    } else {
      assert Given(env, was.mtype, calls, k, vs);
    }
  }

  /** A call that makes a message in message c.node. */
  lemma {:induction false} RanMaking(env: Env, calls: seq<Call>, made: seq<(nat, Field)>, first: nat, k: nat,
                                     was: Node, mid: Node, now: Node)
    requires calls != [] && made != [] && made[0].0 == calls[0].node
    requires Ran(env, calls[1..], made[1..], first + 1, k, mid, now)
    requires mid.mtype == was.mtype && mid.written == was.written
    requires mid.subs == was.subs + if calls[0].node == k then [(first, made[0].1)] else []
    requires calls[0].node == k ==> Gives(env, was.mtype, calls[0], [])
    ensures Ran(env, calls, made, first, k, was, now)
  {
    hide Gives;
    var vs :| Given(env, mid.mtype, calls[1..], k, vs) && now.written == mid.written + vs;
    if calls[0].node == k { assert vs[..0] == [] && vs[0..] == vs; }
    assert Given(env, was.mtype, calls, k, vs);
    var one := if calls[0].node == k then [(first, made[0].1)] else [];
    assert SubsOf(made, k, first) == one + SubsOf(made[1..], k, first + 1);
    assert was.subs + one + SubsOf(made[1..], k, first + 1) == was.subs + SubsOf(made, k, first);
  }

  lemma {:induction false} NoValue(env: Env, t: Message, c: Call)
    ensures Makes(env, t, c) ==> Gives(env, t, c, [])
  {
  }

  lemma {:induction false} MakingRun(env: Env, st: State, calls: seq<Call>, mid: State, to: State)
    requires calls != [] && Legal(env, st, calls[0]) && |st.parent| == |st.s| && mid == Step(env, st, calls[0])
    requires calls[0].node < |st.s| && Makes(env, st.s[calls[0].node].mtype, calls[0])
    requires TypesOf(mid) == TypesOf(st) + [env.msgs[st.s[calls[0].node].mtype.name[calls[0].key].typeName]]
    requires RunShows(env, mid, calls[1..], to)
    ensures RunShows(env, st, calls, to)
  {
    hide Legal, Step, Gives, Ran, SubsOf;
    var c, n := calls[0], |st.s|;
    var t := st.s[c.node].mtype;
    var f := t.name[c.key];
    var made, later := MadeBy(env, TypesOf(st), calls), MadeBy(env, TypesOf(mid), calls[1..]);
    StepExactly(env, st, c);
    NoValue(env, t, c);
    assert made == [(c.node, f)] + later;
    assert made[1..] == later;
    forall k | 0 <= k < n ensures Ran(env, calls, made, n, k, st.s[k], to.s[k]) {
      assert st.s[k].subs + [] == st.s[k].subs;
      RanMaking(env, calls, made, n, k, st.s[k], mid.s[k], to.s[k]);
    }
    forall j | 0 <= j < |made|
      ensures made[j].1.typeName in env.msgs && to.parent[n + j] == made[j].0
      ensures Ran(env, calls, made, n, n + j, Node(env.msgs[made[j].1.typeName], [], [], []), to.s[n + j])
    {
      if j > 0 { assert made[j] == later[j - 1]; }
      var was := Node(env.msgs[made[j].1.typeName], [], [], []);
      assert was.subs + [] == was.subs;
      RanMaking(env, calls, made, n, n + j, was, was, to.s[n + j]);
    }
  }

  lemma {:induction false} GivingRun(env: Env, st: State, calls: seq<Call>, mid: State, to: State)
    requires calls != [] && Legal(env, st, calls[0]) && |st.parent| == |st.s| && mid == Step(env, st, calls[0])
    requires calls[0].node < |st.s| && !Makes(env, st.s[calls[0].node].mtype, calls[0]) && TypesOf(mid) == TypesOf(st)
    requires RunShows(env, mid, calls[1..], to)
    ensures RunShows(env, st, calls, to)
  {
    hide Legal, Step, Gives, Ran, SubsOf;
    var c, n := calls[0], |st.s|;
    var made := MadeBy(env, TypesOf(st), calls);
    StepExactly(env, st, c);
    assert TypesOf(st)[c.node] == st.s[c.node].mtype;
    assert made == MadeBy(env, TypesOf(mid), calls[1..]);
    forall k | 0 <= k < n ensures Ran(env, calls, made, n, k, st.s[k], to.s[k]) {
      RanMore(env, calls, made, n, k, st.s[k], mid.s[k], to.s[k]);
    }
    forall j | 0 <= j < |made|
      ensures Ran(env, calls, made, n, n + j, Node(env.msgs[made[j].1.typeName], [], [], []), to.s[n + j])
    {
      var was := Node(env.msgs[made[j].1.typeName], [], [], []);
      RanMore(env, calls, made, n, n + j, was, was, to.s[n + j]);
    }
  }

  // ---- the tree

  /** The tree of a message: its values, and behind them the trees of its sub-messages. */
  lemma {:induction false} TreeExactly(env: Env, s: seq<Node>, parent: seq<int>, k: nat)
    requires Shape(env, s, parent) && k < |s|
    ensures var t, n := TreeOf(env, s, parent, k), |s[k].written|;
            && t.mtype == s[k].mtype && |t.entries| == n + |s[k].subs|
            && (forall i | 0 <= i < n :: t.entries[i] == Scalar(s[k].written[i].0, s[k].written[i].1))
            && (forall j | 0 <= j < |s[k].subs| ::
                  && s[k].subs[j].0 < |s|
                  && t.entries[n + j] == Child(s[k].subs[j].1, TreeOf(env, s, parent, s[k].subs[j].0)))
  {
    forall j | 0 <= j < |s[k].subs|
      ensures s[k].subs[j].0 < |s|
      ensures TreeOf(env, s, parent, k).entries[|s[k].written| + j]
              == Child(s[k].subs[j].1, TreeOf(env, s, parent, s[k].subs[j].0))
    {
      ChildrenAt(env, s, parent, k, |s[k].subs|, j);
    }
  }
}
