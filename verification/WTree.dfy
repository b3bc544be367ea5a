/** The messages under construction as values: what tree a writer's nodes stand for. */
module WTree {
  import opened Words
  import opened Proto

  /** A message under construction: the values written to it, the bytes in its buffer and
      its sub-messages, by position in the list of all nodes. */
  datatype Node = Node(mtype: Message, written: seq<(Field, Value)>, out: seq<byte>, subs: seq<(nat, Field)>)

  ghost predicate OwnField(t: Message, f: Field) {
    f.name in t.name && t.name[f.name] == f && f.flabel != PACKED
  }

  /** Nodes form a tree that grows at the end: a sub-message comes after its parent, has
      one parent, and the type its field names. */
  ghost predicate Shape(env: Env, s: seq<Node>, parent: seq<int>) {
    |parent| == |s| && forall k | 0 <= k < |s| :: NodeShape(env, s, parent, k)
  }

  ghost predicate NodeShape(env: Env, s: seq<Node>, parent: seq<int>, k: nat)
    requires k < |s| == |parent|
  {
    && parent[k] < k && s[k].mtype.InStep()
    && (forall w | w in s[k].written :: OwnField(s[k].mtype, w.0) && Fits(w.0, w.1))
    && (forall j | 0 <= j < |s[k].subs| :: SubShape(env, s, parent, k, s[k].subs[j]))
    && (forall i, j | 0 <= i < j < |s[k].subs| :: s[k].subs[i].0 < s[k].subs[j].0)
  }

  ghost predicate SubShape(env: Env, s: seq<Node>, parent: seq<int>, k: nat, sub: (nat, Field))
    requires k < |s| == |parent|
  {
    && k < sub.0 < |s| && parent[sub.0] == k
    && OwnField(s[k].mtype, sub.1) && sub.1.ftype.MESSAGE? && sub.1.typeName in env.msgs
    && s[sub.0].mtype == env.msgs[sub.1.typeName]
  }

  // ---- the tree of a node

  function Scalars(written: seq<(Field, Value)>): seq<Entry> {
    seq(|written|, i requires 0 <= i < |written| => Scalar(written[i].0, written[i].1))
  }

  ghost function TreeOf(env: Env, s: seq<Node>, parent: seq<int>, k: nat): (t: Tree)
    requires Shape(env, s, parent) && k < |s|
    ensures t.mtype == s[k].mtype && |t.entries| == |s[k].written| + |s[k].subs|
    decreases |s| - k, 1, 0
  {
    Tree(s[k].mtype, Scalars(s[k].written) + Children(env, s, parent, k, |s[k].subs|))
  }

  ghost function Children(env: Env, s: seq<Node>, parent: seq<int>, k: nat, n: nat): (es: seq<Entry>)
    requires Shape(env, s, parent) && k < |s| && n <= |s[k].subs|
    ensures |es| == n
    decreases |s| - k, 0, n
  {
    if n == 0 then []
    else
      assert NodeShape(env, s, parent, k) && SubShape(env, s, parent, k, s[k].subs[n - 1]);
      Children(env, s, parent, k, n - 1) + [Child(s[k].subs[n - 1].1, TreeOf(env, s, parent, s[k].subs[n - 1].0))]
  }

  lemma {:induction false} ChildrenAt(env: Env, s: seq<Node>, parent: seq<int>, k: nat, n: nat, j: nat)
    requires Shape(env, s, parent) && k < |s| && j < n <= |s[k].subs|
    ensures SubShape(env, s, parent, k, s[k].subs[j])
    ensures Children(env, s, parent, k, n)[j] == Child(s[k].subs[j].1, TreeOf(env, s, parent, s[k].subs[j].0))
  {
    hide TreeOf;
    assert NodeShape(env, s, parent, k);
    if j < n - 1 { ChildrenAt(env, s, parent, k, n - 1, j); }
  }

  lemma EntriesAt(env: Env, s: seq<Node>, parent: seq<int>, k: nat)
    requires Shape(env, s, parent) && k < |s|
    ensures var t := TreeOf(env, s, parent, k);
            && (forall i | 0 <= i < |s[k].written| :: t.entries[i] == Scalar(s[k].written[i].0, s[k].written[i].1))
            && (forall j | 0 <= j < |s[k].subs| ::
                  SubShape(env, s, parent, k, s[k].subs[j])
                  && t.entries[|s[k].written| + j] == Child(s[k].subs[j].1, TreeOf(env, s, parent, s[k].subs[j].0)))
  {
    forall j | 0 <= j < |s[k].subs|
      ensures SubShape(env, s, parent, k, s[k].subs[j])
              && TreeOf(env, s, parent, k).entries[|s[k].written| + j]
                 == Child(s[k].subs[j].1, TreeOf(env, s, parent, s[k].subs[j].0))
    {
      ChildrenAt(env, s, parent, k, |s[k].subs|, j);
    }
  }

  /** j is k or below it. */
  ghost predicate Below(parent: seq<int>, k: nat, j: nat)
    requires j < |parent|
  {
    j == k || (k < j && 0 <= parent[j] < j && Below(parent, k, parent[j]))
  }

  /** The subtrees of two children of one node have no node in common. */
  lemma {:induction false} Disjoint(parent: seq<int>, a: nat, b: nat, p: nat, j: nat)
    requires a < b < |parent| && parent[a] == p == parent[b] && p < a && j < |parent|
    requires Below(parent, a, j)
    ensures !Below(parent, b, j)
  {
    if j > b && 0 <= parent[j] < j {
      if Below(parent, a, parent[j]) { Disjoint(parent, a, b, p, parent[j]); }
    }
  }

  lemma {:induction false} BelowTrans(parent: seq<int>, k: nat, c: nat, j: nat)
    requires k < c < |parent| && parent[c] == k && j < |parent| && Below(parent, c, j)
    ensures Below(parent, k, j) && j != k
  {
    if j != c { BelowTrans(parent, k, c, parent[j]); }
  }

  /** Nodes with the same content up to the bytes in their buffers. */
  predicate SameContent(a: Node, b: Node) {
    a.mtype == b.mtype && a.written == b.written && a.subs == b.subs
  }

  /** The tree of a node depends only on the content of the nodes below it. */
  lemma {:induction false} TreeSame(env: Env, s: seq<Node>, s': seq<Node>, parent: seq<int>, k: nat)
    requires Shape(env, s, parent) && Shape(env, s', parent) && k < |s|
    requires forall j | 0 <= j < |s| && Below(parent, k, j) :: SameContent(s[j], s'[j])
    ensures TreeOf(env, s, parent, k) == TreeOf(env, s', parent, k)
    decreases |s| - k
  {
    hide TreeOf;
    assert Below(parent, k, k);
    EntriesAt(env, s, parent, k);
    EntriesAt(env, s', parent, k);
    var t, t' := TreeOf(env, s, parent, k), TreeOf(env, s', parent, k);
    forall i | 0 <= i < |t.entries| ensures t.entries[i] == t'.entries[i] {
      if i >= |s[k].written| {
        var j := i - |s[k].written|;
        var c := s[k].subs[j].0;
        assert SubShape(env, s, parent, k, s[k].subs[j]);
        forall m | 0 <= m < |s| && Below(parent, c, m) ensures SameContent(s[m], s'[m]) {
          BelowTrans(parent, k, c, m);
        }
        TreeSame(env, s, s', parent, c);
      }
    }
    assert t.entries == t'.entries;
  }

  /** Nothing of the sub-messages is in the buffer yet. */
  ghost predicate Pristine(n: Node) {
    (forall w | w in n.written :: Fits(w.0, w.1)) && n.out == WrittenBytes(n.written)
  }

  ghost function WrittenBytes(written: seq<(Field, Value)>): seq<byte>
    requires forall w | w in written :: Fits(w.0, w.1)
  {
    if written == [] then []
    else WrittenBytes(written[..|written| - 1]) + RecOf(written[|written| - 1].0, written[|written| - 1].1).Bytes()
  }

  /** The buffer of a pristine node is the front of its message. */
  lemma {:induction false} PristinePrefix(env: Env, s: seq<Node>, parent: seq<int>, k: nat, n: nat)
    requires Shape(env, s, parent) && k < |s| && n <= |s[k].written|
    requires forall w | w in s[k].written :: Fits(w.0, w.1)
    ensures Prefix(TreeOf(env, s, parent, k), n) == WrittenBytes(s[k].written[..n])
  {
    hide Prefix, RecOf, TreeOf;
    var t := TreeOf(env, s, parent, k);
    if n == 0 {
      PrefixAll(t);
    } else {
      PristinePrefix(env, s, parent, k, n - 1);
      PrefixStep(t, n - 1);
      EntriesAt(env, s, parent, k);
      assert s[k].written[..n][..n - 1] == s[k].written[..n - 1];
      var w := s[k].written[n - 1];
      assert t.entries[n - 1] == Scalar(w.0, w.1) && w in s[k].written;
    }
  }

  /** The trees built are trees the reader understands, as long as they are short. */
  lemma {:induction false} TreeWritten(env: Env, s: seq<Node>, parent: seq<int>, k: nat)
    requires Shape(env, s, parent) && k < |s|
    requires |Encode(TreeOf(env, s, parent, k))| < 0x8000_0000
    ensures Written(env, TreeOf(env, s, parent, k))
    decreases |s| - k
  {
    hide Encode, TreeOf;
    var t := TreeOf(env, s, parent, k);
    assert NodeShape(env, s, parent, k);
    EntriesAt(env, s, parent, k);
    forall e | e in t.entries ensures WrittenEntry(env, t, e) {
      var i :| 0 <= i < |t.entries| && t.entries[i] == e;
      if i < |s[k].written| {
        assert s[k].written[i] in s[k].written;
      } else {
        var j := i - |s[k].written|;
        assert SubShape(env, s, parent, k, s[k].subs[j]);
        ChildShorter(t, i);
        TreeWritten(env, s, parent, s[k].subs[j].0);
      }
    }
  }

  /** The nodes after a sub-message is created for field f of node k. */
  function WithChild(env: Env, s: seq<Node>, k: nat, f: Field): seq<Node>
    requires k < |s| && f.typeName in env.msgs
  {
    s[k := s[k].(subs := s[k].subs + [(|s|, f)])] + [Node(env.msgs[f.typeName], [], [], [])]
  }

  lemma ChildShape(env: Env, s: seq<Node>, parent: seq<int>, k: nat, f: Field)
    requires env.Closed() && Shape(env, s, parent) && k < |s|
    requires OwnField(s[k].mtype, f) && f.ftype.MESSAGE? && f.typeName in env.msgs
    ensures Shape(env, WithChild(env, s, k, f), parent + [k])
  {
    var s', p' := WithChild(env, s, k, f), parent + [k];
    forall i | 0 <= i < |s'| ensures NodeShape(env, s', p', i) {
      if i < |s| {
        assert NodeShape(env, s, parent, i);
        forall j | 0 <= j < |s'[i].subs| ensures SubShape(env, s', p', i, s'[i].subs[j]) {
          if j < |s[i].subs| { assert SubShape(env, s, parent, i, s[i].subs[j]); }
        }
        if i == k {
          forall j | 0 <= j < |s[i].subs|
            ensures s[i].subs[j].0 < |s| { assert SubShape(env, s, parent, i, s[i].subs[j]); }
        }
      }
    }
  }

  lemma ShapeOne(env: Env, s: seq<Node>, parent: seq<int>, k: nat, n: Node)
    requires Shape(env, s, parent) && k < |s| && n.mtype == s[k].mtype && n.subs == s[k].subs
    requires forall w | w in n.written :: OwnField(n.mtype, w.0) && Fits(w.0, w.1)
    ensures Shape(env, s[k := n], parent)
  {
    var s' := s[k := n];
    forall i | 0 <= i < |s| ensures NodeShape(env, s', parent, i) {
      assert NodeShape(env, s, parent, i);
      forall j | 0 <= j < |s'[i].subs| ensures SubShape(env, s', parent, i, s'[i].subs[j]) {
        assert s'[i].subs == s[i].subs && SubShape(env, s, parent, i, s[i].subs[j]);
      }
    }
  }

  /** s' is s but for bytes added to the buffers of nodes at or below k. */
  ghost predicate GrownBelow(s: seq<Node>, s': seq<Node>, parent: seq<int>, k: nat) {
    |s'| == |s| == |parent|
    && forall j | 0 <= j < |s| :: SameContent(s'[j], s[j]) && (!Below(parent, k, j) ==> s'[j] == s[j])
  }

  /** The sub-messages of k from the i-th on are as they were. */
  ghost predicate Untouched(s: seq<Node>, s': seq<Node>, parent: seq<int>, k: nat, i: nat)
    requires |s'| == |s| == |parent| && k < |s|
  {
    forall m, j | i <= m < |s[k].subs| && 0 <= j < |s| && s[k].subs[m].0 < |s| && Below(parent, s[k].subs[m].0, j) ::
      s'[j] == s[j]
  }

  /** Before the i-th sub-message of k is finished: its tree is still the original one,
      pristine and short. */
  lemma BeforeChild(env: Env, s: seq<Node>, s': seq<Node>, parent: seq<int>, k: nat, i: nat)
    requires Shape(env, s, parent) && Shape(env, s', parent) && k < |s| && i < |s[k].subs|
    requires GrownBelow(s, s', parent, k) && Untouched(s, s', parent, k, i)
    requires forall j | 0 <= j < |s| && Below(parent, k, j) :: Pristine(s[j])
    ensures SubShape(env, s, parent, k, s[k].subs[i])
    ensures var c, t := s[k].subs[i].0, TreeOf(env, s, parent, k);
            && t.entries[|s[k].written| + i] == Child(s[k].subs[i].1, TreeOf(env, s', parent, c))
            && (forall j | 0 <= j < |s| && Below(parent, c, j) :: Pristine(s'[j]))
            && |Encode(TreeOf(env, s', parent, c))| < |Encode(t)|
  {
    hide TreeOf, Encode, Pristine;
    EntriesAt(env, s, parent, k);
    var c := s[k].subs[i].0;
    assert SubShape(env, s, parent, k, s[k].subs[i]);
    forall j | 0 <= j < |s| && Below(parent, c, j) ensures s'[j] == s[j] && Pristine(s'[j]) {
      BelowTrans(parent, k, c, j);
    }
    TreeSame(env, s, s', parent, c);
    ChildShorter(TreeOf(env, s, parent, k), |s[k].written| + i);
  }

  /** After it: k itself and the later sub-messages are as before. */
  lemma AfterChild(env: Env, s: seq<Node>, s1: seq<Node>, s2: seq<Node>, parent: seq<int>, k: nat, i: nat)
    requires Shape(env, s, parent) && k < |s| && i < |s[k].subs|
    requires GrownBelow(s, s1, parent, k) && Untouched(s, s1, parent, k, i)
    requires s[k].subs[i].0 < |s| && GrownBelow(s1, s2, parent, s[k].subs[i].0)
    ensures s2[k] == s1[k] && GrownBelow(s, s2, parent, k) && Untouched(s, s2, parent, k, i + 1)
  {
    EntriesAt(env, s, parent, k);
    assert NodeShape(env, s, parent, k);
    var c := s[k].subs[i].0;
    assert SubShape(env, s, parent, k, s[k].subs[i]);
    assert !Below(parent, c, k);
    forall j | 0 <= j < |s| && !Below(parent, k, j) ensures !Below(parent, c, j) {
      if Below(parent, c, j) { BelowTrans(parent, k, c, j); }
    }
    forall m, j | i + 1 <= m < |s[k].subs| && 0 <= j < |s| && s[k].subs[m].0 < |s| && Below(parent, s[k].subs[m].0, j)
      ensures s2[j] == s[j]
    {
      assert SubShape(env, s, parent, k, s[k].subs[m]);
      if Below(parent, c, j) { Disjoint(parent, c, s[k].subs[m].0, k, j); }
    }
  }

  lemma Start(env: Env, s: seq<Node>, parent: seq<int>, k: nat)
    requires Shape(env, s, parent) && k < |s| && Pristine(s[k])
    ensures GrownBelow(s, s, parent, k) && Untouched(s, s, parent, k, 0)
    ensures s[k].out == Prefix(TreeOf(env, s, parent, k), |s[k].written|)
    ensures Below(parent, k, k)
  {
    PristinePrefix(env, s, parent, k, |s[k].written|);
    assert s[k].written[..|s[k].written|] == s[k].written;
  }

  /** Appending bytes to k itself disturbs none of this. */
  lemma Appended(env: Env, s: seq<Node>, s': seq<Node>, parent: seq<int>, k: nat, i: nat, n: Node)
    requires Shape(env, s, parent) && k < |s| && i <= |s[k].subs|
    requires GrownBelow(s, s', parent, k) && Untouched(s, s', parent, k, i) && SameContent(n, s'[k])
    ensures GrownBelow(s, s'[k := n], parent, k) && Untouched(s, s'[k := n], parent, k, i)
  {
    assert Below(parent, k, k);
    forall m, j | i <= m < |s[k].subs| && 0 <= j < |s| && s[k].subs[m].0 < |s| && Below(parent, s[k].subs[m].0, j)
      ensures s'[k := n][j] == s[j]
    {
      EntriesAt(env, s, parent, k);
      assert SubShape(env, s, parent, k, s[k].subs[m]);
    }
  }

  lemma BelowSelf(parent: seq<int>, k: nat)
    requires k < |parent|
    ensures Below(parent, k, k)
  {
  }

  lemma NodeFacts(env: Env, s: seq<Node>, parent: seq<int>, k: nat)
    requires Shape(env, s, parent) && k < |s|
    ensures |parent| == |s| && s[k].mtype.InStep()
    ensures forall w | w in s[k].written :: OwnField(s[k].mtype, w.0) && Fits(w.0, w.1)
  {
    assert NodeShape(env, s, parent, k);
  }
}
