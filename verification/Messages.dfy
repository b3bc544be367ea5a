/** Writing a message with any sequence of calls, on any of its parts in any order, and
    reading it back: the writer and the reader run one after the other. */
module Messages {
  import opened Words
  import opened Wrappers
  import opened Proto
  import opened WTree
  import opened WMessage
  import RMessage
  import RoundTrip

  /** A writer call on the message created `node`-th (the root is 0). */
  datatype Call =
    | PutInteger(node: nat, key: Name, v: Longlong)
    | PutReal(node: nat, key: Name, v: Longlong, single: word)
    | PutString(node: nat, key: Name, str: seq<byte>, len: int)
    | PutMessage(node: nat, key: Name)

  /** The messages under construction and their parents. */
  datatype State = State(s: seq<Node>, parent: seq<int>)

  /** What the calls demand of their caller: a message that exists, a field that is not
      packed, readable memory, and a message-typed field for a sub-message. An unknown
      field name is not an error here; the call itself reports it. */
  ghost predicate Legal(env: Env, st: State, c: Call) {
    c.node < |st.s|
    && var t := st.s[c.node].mtype;
       (c.key in t.name ==> t.name[c.key].flabel != PACKED)
       && match c
          case PutInteger(_, _, _) => true
          case PutReal(_, _, _, _) => true
          case PutString(_, _, str, len) =>
            |str| < 0x8000_0000
            && if len > 0 then len <= |str| else |CString(str)| < |str| && |CString(str)| - len <= |str|
          case PutMessage(_, key) => key in t.name ==> t.name[key].ftype.MESSAGE?
  }

  ghost function Put(n: Node, f: Field, v: Value): Node
    requires Fits(f, v)
  {
    n.(written := n.written + [(f, v)], out := n.out + RecOf(f, v).Bytes())
  }

  /** The effect of one call. */
  ghost function Step(env: Env, st: State, c: Call): State
    requires Legal(env, st, c)
  {
    var n := st.s[c.node];
    if c.key !in n.mtype.name then st
    else
      var f := n.mtype.name[c.key];
      match c
      case PutInteger(k, _, v) => if Integral(f.ftype) then st.(s := st.s[k := Put(n, f, Number(v))]) else st
      case PutReal(k, _, v, single) => if Real(f.ftype) then st.(s := st.s[k := Put(n, f, RealNumber(f, v, single))])
        else st
      case PutString(k, key, str, len) =>
        var w := StringWrites(env, n.mtype, key, str, len);
        if w.Some? then st.(s := st.s[k := Put(n, f, w.value)]) else st
      case PutMessage(k, _) =>
        if f.typeName in env.msgs then State(WithChild(env, st.s, k, f), st.parent + [k]) else st
  }

  ghost predicate LegalRun(env: Env, st: State, calls: seq<Call>)
    decreases |calls|
  {
    calls == [] || (Legal(env, st, calls[0]) && LegalRun(env, Step(env, st, calls[0]), calls[1..]))
  }

  ghost function Run(env: Env, st: State, calls: seq<Call>): State
    requires LegalRun(env, st, calls)
    decreases |calls|
  {
    if calls == [] then st else Run(env, Step(env, st, calls[0]), calls[1..])
  }

  ghost function Initial(t: Message): State {
    State([Node(t, [], [], [])], [-1])
  }

  /** What every call keeps: the messages form a tree, hold only fields of their types,
      and no sub-message has been appended yet. */
  ghost predicate Building(env: Env, st: State) {
    && Shape(env, st.s, st.parent) && st.s != []
    && forall k | 0 <= k < |st.s| :: Pristine(st.s[k]) && InEnv(env, st.s[k].mtype)
  }

  ghost predicate InEnv(env: Env, t: Message) {
    t.key in env.msgs && env.msgs[t.key] == t
  }

  lemma PutPristine(n: Node, f: Field, v: Value)
    requires Pristine(n) && Fits(f, v)
    ensures Pristine(Put(n, f, v))
  {
    hide Fits, RecOf;
    var w := n.written + [(f, v)];
    assert w[..|w| - 1] == n.written;
  }

  lemma OwnsByName(env: Env, t: Message, key: Name)
    requires env.Closed() && InEnv(env, t) && key in t.name && t.name[key].flabel != PACKED
    ensures OwnField(t, t.name[key]) && env.Resolves(t.name[key])
  {
    assert t.InStep();
    assert t.id[t.name[key].id] == t.name[key];
  }

  lemma StepKeeps(env: Env, st: State, c: Call)
    requires env.Closed() && Building(env, st) && Legal(env, st, c)
    ensures Building(env, Step(env, st, c))
    ensures |Step(env, st, c).s| >= |st.s| && Step(env, st, c).s[0].mtype == st.s[0].mtype
  {
    hide Shape, Pristine, Fits, RecOf, StringWrites, OwnField;
    var n := st.s[c.node];
    if c.key in n.mtype.name {
      var f := n.mtype.name[c.key];
      OwnsByName(env, n.mtype, c.key);
      NodeFacts(env, st.s, st.parent, c.node);
      match c {
        case PutInteger(k, _, v) =>
          if Integral(f.ftype) { PutKeeps(env, st, c, Number(v)); }
        case PutReal(k, _, v, single) =>
          if Real(f.ftype) { PutKeeps(env, st, c, RealNumber(f, v, single)); }
        case PutString(k, key, str, len) =>
          var w := StringWrites(env, n.mtype, key, str, len);
          if w.Some? {
            PutPristine(n, f, w.value);
            ShapeOne(env, st.s, st.parent, k, Put(n, f, w.value));
          }
        case PutMessage(k, _) =>
          ChildShape(env, st.s, st.parent, k, f);
          NewPristine(env.msgs[f.typeName]);
          SubsPristine(n, n.subs + [(|st.s|, f)]);
      }
    }
  }

  /** A number entered in a field of a message. */
  lemma PutKeeps(env: Env, st: State, c: Call, v: Value)
    requires env.Closed() && Building(env, st) && Legal(env, st, c) && c.key in st.s[c.node].mtype.name
    requires v.Number? && Numeric(st.s[c.node].mtype.name[c.key].ftype)
    ensures var n := st.s[c.node];
            var f := n.mtype.name[c.key];
            Fits(f, v) && Building(env, st.(s := st.s[c.node := Put(n, f, v)]))
  {
    hide Shape, Pristine, RecOf, OwnField;
    var n := st.s[c.node];
    var f := n.mtype.name[c.key];
    OwnsByName(env, n.mtype, c.key);
    NodeFacts(env, st.s, st.parent, c.node);
    PutPristine(n, f, v);
    ShapeOne(env, st.s, st.parent, c.node, Put(n, f, v));
  }

  lemma FitsNumber(f: Field, v: Longlong)
    requires Numeric(f.ftype)
    ensures Fits(f, Number(v))
  {
  }

  lemma NewPristine(t: Message)
    ensures Pristine(Node(t, [], [], []))
  {
  }

  lemma SubsPristine(n: Node, subs: seq<(nat, Field)>)
    requires Pristine(n)
    ensures Pristine(n.(subs := subs))
  {
  }

  lemma InitialBuilding(env: Env, t: Message)
    requires env.Closed() && InEnv(env, t)
    ensures Building(env, Initial(t))
  {
    var st := Initial(t);
    assert t.InStep();
    assert NodeShape(env, st.s, st.parent, 0);
  }

  lemma {:induction false} RunKeeps(env: Env, st: State, calls: seq<Call>)
    requires env.Closed() && Building(env, st) && LegalRun(env, st, calls)
    ensures Building(env, Run(env, st, calls)) && Run(env, st, calls).s[0].mtype == st.s[0].mtype
    decreases |calls|
  {
    hide Building, Legal, Step;
    if calls != [] {
      StepKeeps(env, st, calls[0]);
      RunKeeps(env, Step(env, st, calls[0]), calls[1..]);
    }
  }

  /** The values the calls gave, as a tree. */
  ghost function Built(env: Env, t: Message, calls: seq<Call>): Tree
    requires env.Closed() && InEnv(env, t) && LegalRun(env, Initial(t), calls)
  {
    InitialBuilding(env, t);
    RunKeeps(env, Initial(t), calls);
    var st := Run(env, Initial(t), calls);
    TreeOf(env, st.s, st.parent, 0)
  }

  // ---- the code

  /** `pbc_wmessage_new` */
  method NewMessage(env: Env, typeName: Name) returns (m: WMessage?)
    requires env.Closed()
    ensures typeName !in env.msgs ==> m == null
    ensures typeName in env.msgs ==>
              m != null && fresh(m) && fresh(m.heap) && fresh(m.buffer) && m.index == 0 && m.heap.env == env
                && m.heap.nodes == [m]
              && m.heap.Valid() && m.heap.Snap() == Initial(env.msgs[typeName]).s && m.heap.parent == [-1]
  {
    if typeName !in env.msgs {
      return null;
    }
    var heap := new Arena(env);
    m := new WMessage(heap, env, env.msgs[typeName], 0);
    heap.nodes, heap.parent := [m], [-1];
    InitialBuilding(env, env.msgs[typeName]);
    assert m.AsNode() == Node(env.msgs[typeName], [], [], []);
    assert heap.Snap() == Initial(env.msgs[typeName]).s;
  }

  /** One call, through the handles the application holds. */
  method Do(env: Env, heap: Arena, handles: seq<WMessage>, c: Call, ghost st: State) returns (handles': seq<WMessage>)
    requires env.Closed() && heap.Valid() && heap.env == env && handles == heap.nodes
    requires st == State(heap.Snap(), heap.parent) && Building(env, st) && Legal(env, st, c)
    modifies heap, heap.nodes, set n | n in heap.nodes :: n.buffer
    ensures heap.Valid() && handles' == heap.nodes && heap.env == env && handles <= handles'
    ensures State(heap.Snap(), heap.parent) == Step(env, st, c)
    ensures forall n | n in heap.nodes :: (n in old(heap.nodes) || fresh(n))
    ensures forall n | n in heap.nodes :: fresh(n.buffer) || (n in old(heap.nodes) && n.buffer == old(n.buffer))
  {
    hide Shape, Pristine, Fits, RecOf, StringWrites, OwnField, CString, Step;
    assert handles[c.node].AsNode() == st.s[c.node];
    if c.PutMessage? {
      handles' := DoMessage(env, heap, handles, c, st);
    } else {
      handles' := handles;
      DoWrite(env, heap, handles, c, st);
    }
  }

  method DoMessage(env: Env, heap: Arena, handles: seq<WMessage>, c: Call, ghost st: State)
    returns (handles': seq<WMessage>)
    requires env.Closed() && heap.Valid() && heap.env == env && handles == heap.nodes
    requires st == State(heap.Snap(), heap.parent) && Building(env, st) && Legal(env, st, c)
    requires c.PutMessage?
    modifies heap, heap.nodes
    ensures heap.Valid() && handles' == heap.nodes && heap.env == env && handles <= handles'
    ensures State(heap.Snap(), heap.parent) == Step(env, st, c)
    ensures forall n | n in heap.nodes :: (n in old(heap.nodes) || fresh(n))
    ensures forall n | n in heap.nodes :: fresh(n.buffer) || (n in old(heap.nodes) && n.buffer == old(n.buffer))
  {
    hide Shape, Pristine, Fits, RecOf, StringWrites, OwnField, CString;
    var m := handles[c.node];
    assert m.AsNode() == st.s[c.node];
    if c.key in m.mtype.name { OwnsByName(env, m.mtype, c.key); }
    handles' := handles;
    var child := m.Message(c.key);
    if child != null { handles' := handles + [child]; }
  }

  method DoWrite(env: Env, heap: Arena, handles: seq<WMessage>, c: Call, ghost st: State)
    requires env.Closed() && heap.Valid() && heap.env == env && handles == heap.nodes
    requires st == State(heap.Snap(), heap.parent) && Building(env, st) && Legal(env, st, c)
    requires !c.PutMessage?
    modifies heap.nodes, set n | n in heap.nodes :: n.buffer
    ensures heap.Valid()
    ensures State(heap.Snap(), heap.parent) == Step(env, st, c)
    ensures forall n | n in heap.nodes :: fresh(n.buffer) || n.buffer == old(n.buffer)
  {
    hide Building, Legal, Step;
    if c.PutInteger? {
      DoInteger(env, heap, handles, c, st);
    } else if c.PutReal? {
      DoReal(env, heap, handles, c, st);
    } else {
      DoString(env, heap, handles, c, st);
    }
  }

  method DoInteger(env: Env, heap: Arena, handles: seq<WMessage>, c: Call, ghost st: State)
    requires env.Closed() && heap.Valid() && heap.env == env && handles == heap.nodes
    requires st == State(heap.Snap(), heap.parent) && Building(env, st) && Legal(env, st, c)
    requires c.PutInteger?
    modifies heap.nodes, set n | n in heap.nodes :: n.buffer
    ensures heap.Valid()
    ensures State(heap.Snap(), heap.parent) == Step(env, st, c)
    ensures forall n | n in heap.nodes :: fresh(n.buffer) || n.buffer == old(n.buffer)
  {
    hide Shape, Pristine, Fits, RecOf, OwnField;
    var m := handles[c.node];
    ghost var n := m.AsNode();
    assert n == st.s[c.node];
    if c.key in m.mtype.name { OwnsByName(env, m.mtype, c.key); }
    NodeFacts(env, st.s, st.parent, c.node);
    if c.key in m.mtype.name && Integral(m.mtype.name[c.key].ftype) { FitsNumber(m.mtype.name[c.key], c.v); }
    var _ := m.Integer(c.key, c.v);
    assert m.AsNode() ==
           if c.key in m.mtype.name && Integral(m.mtype.name[c.key].ftype) then Put(n, m.mtype.name[c.key], Number(c.v))
             else n;
    heap.OneChanged(c.node);
  }

  method DoReal(env: Env, heap: Arena, handles: seq<WMessage>, c: Call, ghost st: State)
    requires env.Closed() && heap.Valid() && heap.env == env && handles == heap.nodes
    requires st == State(heap.Snap(), heap.parent) && Building(env, st) && Legal(env, st, c)
    requires c.PutReal?
    modifies heap.nodes, set n | n in heap.nodes :: n.buffer
    ensures heap.Valid()
    ensures State(heap.Snap(), heap.parent) == Step(env, st, c)
    ensures forall n | n in heap.nodes :: fresh(n.buffer) || n.buffer == old(n.buffer)
  {
    hide Shape, Pristine, Fits, RecOf, OwnField;
    var m := handles[c.node];
    ghost var n := m.AsNode();
    assert n == st.s[c.node];
    if c.key in m.mtype.name { OwnsByName(env, m.mtype, c.key); }
    NodeFacts(env, st.s, st.parent, c.node);
    if c.key in m.mtype.name && Real(m.mtype.name[c.key].ftype) {
      FitsNumber(m.mtype.name[c.key], RealNumber(m.mtype.name[c.key], c.v, c.single).v);
    }
    var _ := m.Real(c.key, c.v, c.single);
    assert m.AsNode() ==
           if c.key in m.mtype.name && Real(m.mtype.name[c.key].ftype)
           then Put(n, m.mtype.name[c.key], RealNumber(m.mtype.name[c.key], c.v, c.single)) else n;
    heap.OneChanged(c.node);
  }

  method DoString(env: Env, heap: Arena, handles: seq<WMessage>, c: Call, ghost st: State)
    requires env.Closed() && heap.Valid() && heap.env == env && handles == heap.nodes
    requires st == State(heap.Snap(), heap.parent) && Building(env, st) && Legal(env, st, c)
    requires c.PutString?
    modifies heap.nodes, set n | n in heap.nodes :: n.buffer
    ensures heap.Valid()
    ensures State(heap.Snap(), heap.parent) == Step(env, st, c)
    ensures forall n | n in heap.nodes :: fresh(n.buffer) || n.buffer == old(n.buffer)
  {
    hide Shape, Pristine, Fits, RecOf, StringWrites, OwnField, CString;
    var m := handles[c.node];
    ghost var n := m.AsNode();
    assert n == st.s[c.node];
    if c.key in m.mtype.name { OwnsByName(env, m.mtype, c.key); }
    NodeFacts(env, st.s, st.parent, c.node);
    ghost var w := StringWrites(env, m.mtype, c.key, c.str, c.len);
    var _ := m.String(c.key, c.str, c.len);
    assert m.AsNode() == if w.Some? then Put(n, m.mtype.name[c.key], w.value) else n;
    heap.OneChanged(c.node);
  }

  /** A message created, written by any legal sequence of calls and turned into bytes. */
  method Write(env: Env, typeName: Name, calls: seq<Call>) returns (bs: seq<byte>)
    requires env.Closed() && typeName in env.msgs && LegalRun(env, Initial(env.msgs[typeName]), calls)
    requires |Encode(Built(env, env.msgs[typeName], calls))| < 0x8000_0000
    ensures bs == Encode(Built(env, env.msgs[typeName], calls))
  {
    hide Building, Legal, Step, Shape, Encode, TreeOf, Pristine;
    var t := env.msgs[typeName];
    InitialBuilding(env, t);
    RunKeeps(env, Initial(t), calls);
    var root := NewMessage(env, typeName);
    var heap := root.heap;
    var handles := [root];
    ghost var st := Initial(t);
    var i := 0;
    while i < |calls|
      invariant 0 <= i <= |calls| && heap.Valid() && heap.env == env && handles == heap.nodes
      invariant fresh(heap) && (forall n | n in heap.nodes :: fresh(n) && fresh(n.buffer))
      invariant st == State(heap.Snap(), heap.parent) && Building(env, st)
      invariant LegalRun(env, st, calls[i..]) && Run(env, st, calls[i..]) == Run(env, Initial(t), calls)
      invariant |handles| > 0 && handles[0] == root && root.heap == heap && root.index == 0
    {
      assert calls[i..][0] == calls[i] && calls[i..][1..] == calls[i + 1..];
      StepKeeps(env, st, calls[i]);
      handles := Do(env, heap, handles, calls[i], st);
      st := Step(env, st, calls[i]);
      i := i + 1;
    }
    assert calls[i..] == [];
    Finish(env, st);
    var slice, len := root.Buffer();
    bs := slice[..len];
  }

  /** The bytes of a message, written by any legal sequence of calls, and read. */
  method WriteAndRead(env: Env, typeName: Name, calls: seq<Call>) returns (r: Option<RMessage.RMsg>)
    requires env.Closed() && typeName in env.msgs && LegalRun(env, Initial(env.msgs[typeName]), calls)
    requires |Encode(Built(env, env.msgs[typeName], calls))| < 0x8000_0000
    ensures r == Some(RoundTrip.ReadBack(env, Built(env, env.msgs[typeName], calls)))
  {
    hide Building, Legal, Step, Shape, Encode, TreeOf, Pristine, RoundTrip.ReadBack;
    var t := env.msgs[typeName];
    InitialBuilding(env, t);
    RunKeeps(env, Initial(t), calls);
    var bs := Write(env, typeName, calls);
    r := RMessage.New(env, t, bs);
    Finish(env, Run(env, Initial(t), calls));
    RoundTrip.ReadEncoded(env, Built(env, t, calls));
  }

  lemma Finish(env: Env, st: State)
    requires Building(env, st)
    ensures forall j | 0 <= j < |st.s| :: Pristine(st.s[j])
    ensures Shape(env, st.s, st.parent) && st.s != []
    ensures |Encode(TreeOf(env, st.s, st.parent, 0))| < 0x8000_0000 ==> Written(env, TreeOf(env, st.s, st.parent, 0))
  {
    hide Shape, Pristine, Encode, TreeOf;
    if |Encode(TreeOf(env, st.s, st.parent, 0))| < 0x8000_0000 { TreeWritten(env, st.s, st.parent, 0); }
  }

  // ---- messages made of integers only

  /** Calls that write an integer to a known field of the root. */
  ghost predicate IntegerCall(t: Message, c: Call) {
    c.PutInteger? && c.node == 0 && c.key in t.name && Integral(t.name[c.key].ftype) && t.name[c.key].flabel != PACKED
  }

  ghost function Pairs(t: Message, calls: seq<Call>): (ps: seq<(Field, Value)>)
    requires forall c | c in calls :: IntegerCall(t, c)
    ensures |ps| == |calls|
  {
    assert forall i | 0 <= i < |calls| :: IntegerCall(t, calls[i]);
    seq(|calls|, i requires 0 <= i < |calls| => (t.name[calls[i].key], Number(calls[i].v)))
  }

  lemma {:induction false} IntegersRun(env: Env, st: State, calls: seq<Call>)
    requires |st.s| == 1 && st.s[0].subs == [] && forall c | c in calls :: IntegerCall(st.s[0].mtype, c)
    ensures LegalRun(env, st, calls)
    ensures var end := Run(env, st, calls);
            && |end.s| == 1 && end.s[0].mtype == st.s[0].mtype && end.s[0].subs == [] && end.parent == st.parent
            && end.s[0].written == st.s[0].written + Pairs(st.s[0].mtype, calls)
    decreases |calls|
  {
    hide RecOf, Fits;
    if calls != [] {
      var c, t := calls[0], st.s[0].mtype;
      assert c in calls && IntegerCall(t, c);
      assert Fits(t.name[c.key], Number(c.v)) by { FitsNumber(t.name[c.key], c.v); }
      IntegersRun(env, Step(env, st, c), calls[1..]);
      assert Pairs(t, calls) == [(t.name[c.key], Number(c.v))] + Pairs(t, calls[1..]);
    }
  }

  /** Such a message is the list of its calls. */
  lemma IntegersBuilt(env: Env, t: Message, calls: seq<Call>)
    requires env.Closed() && InEnv(env, t) && forall c | c in calls :: IntegerCall(t, c)
    ensures LegalRun(env, Initial(t), calls)
    ensures Built(env, t, calls) == Tree(t, Scalars(Pairs(t, calls)))
  {
    IntegersRun(env, Initial(t), calls);
    InitialBuilding(env, t);
    RunKeeps(env, Initial(t), calls);
    hide Run, LegalRun, Building, Pairs;
    var end := Run(env, Initial(t), calls);
    assert Initial(t).s[0].written + Pairs(t, calls) == Pairs(t, calls);
    assert Shape(env, end.s, end.parent) by { Finish(env, end); }
    assert Children(env, end.s, end.parent, 0, 0) == [];
  }
}
