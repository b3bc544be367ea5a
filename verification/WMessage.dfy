/** The message writer (ext/pbc/src/wmessage.c): each message of a tree has a buffer that
    grows by doubling; the sub-messages are serialised and appended at the end. */
module WMessage {
  import opened Words
  import opened Wrappers
  import opened Proto
  import opened WTree
  import Context
  import Varint

  const WMESSAGE_SIZE := 64

  // ---- all messages of a tree

  /** What the `struct heap` shared by the messages of a tree keeps together: every
      message created, in order of creation, and the position of its parent. */
  class Arena {
    const env: Env
    ghost var nodes: seq<WMessage>
    ghost var parent: seq<int>

    /** Messages know their position, have their bytes in order and share no buffer. */
    ghost predicate Separate()
      reads this, nodes, set n | n in nodes :: n.buffer
    {
      && (forall i | 0 <= i < |nodes| ::
            nodes[i].index == i && nodes[i].heap == this && nodes[i].env == env && nodes[i].Ok())
      && (forall i, j | 0 <= i < j < |nodes| :: nodes[i].buffer != nodes[j].buffer)
      && (forall i, j | 0 <= i < |nodes| && 0 <= j < |nodes[i].sub| :: nodes[i].sub[j].0 in nodes)
    }

    ghost function Snap(): (s: seq<Node>)
      reads this, nodes
      ensures |s| == |nodes|
      ensures forall i | 0 <= i < |nodes| :: s[i] == nodes[i].AsNode()
    {
      seq(|nodes|, i requires 0 <= i < |nodes| reads this, nodes => nodes[i].AsNode())
    }

    ghost predicate Valid()
      reads this, nodes, set n | n in nodes :: n.buffer
    {
      Separate() && Shape(env, Snap(), parent)
    }

    constructor (env: Env)
      ensures Valid() && this.env == env && nodes == [] && parent == []
    {
      this.env := env;
      nodes, parent := [], [];
    }

    /** Messages keep their sub-messages and either keep their buffer or move to a new
        one. */
    twostate predicate Moved()
      reads this, nodes
    {
      nodes == old(nodes) && parent == old(parent)
      && forall j | 0 <= j < |nodes| ::
           nodes[j].sub == old(nodes[j].sub) && (nodes[j].buffer == old(nodes[j].buffer) || fresh(nodes[j].buffer))
    }

    /** Only bytes were added, at or below message k. */
    twostate predicate Grown(k: nat)
      reads this, nodes
    {
      Moved() && GrownBelow(old(Snap()), Snap(), parent, k)
    }

    lemma Self(k: nat)
      requires Valid() && k < |nodes|
      ensures nodes[k].index == k && nodes[k].env == env && nodes[k].heap == this && nodes[k].Ok()
    {
    }

    lemma SubAt(k: nat, i: nat)
      requires Valid() && k < |nodes| && i < |nodes[k].sub|
      ensures nodes[k].index == k && nodes[k].env == env && nodes[k].heap == this && nodes[k].Ok()
      ensures var c := nodes[k].sub[i].0;
              c in nodes && k < c.index < |nodes| && nodes[c.index] == c && c.heap == this && c.env == env
      ensures Snap()[k].subs[i] == (nodes[k].sub[i].0.index, nodes[k].sub[i].1)
      ensures forall j | 0 <= j < |nodes| :: nodes[j].Ok()
    {
      assert NodeShape(env, Snap(), parent, k);
      assert SubShape(env, Snap(), parent, k, Snap()[k].subs[i]);
    }

    /** Writing to one message leaves the rest of the tree as it was. */
    twostate lemma OneChanged(k: nat)
      requires old(Valid()) && nodes == old(nodes) && parent == old(parent) && k < |nodes|
      requires forall j | 0 <= j < |nodes| && j != k :: unchanged(nodes[j]) && unchanged(nodes[j].buffer)
      requires nodes[k].Ok() && nodes[k].sub == old(nodes[k].sub)
      requires nodes[k].buffer == old(nodes[k].buffer) || fresh(nodes[k].buffer)
      requires forall w | w in nodes[k].written :: OwnField(nodes[k].mtype, w.0) && Fits(w.0, w.1)
      ensures Valid() && Snap() == old(Snap())[k := nodes[k].AsNode()]
    {
      hide Shape;
      ghost var s, n := old(Snap()), nodes[k].AsNode();
      assert n.subs == old(nodes[k].AsNode()).subs;
      forall j | 0 <= j < |nodes| && j != k ensures Snap()[j] == s[j] {
        assert nodes[j].AsNode() == old(nodes[j].AsNode());
      }
      assert Snap() == s[k := n];
      ShapeOne(env, s, parent, k, n);
    }

    /** Creating a sub-message of one message leaves the rest of the tree as it was. */
    twostate lemma OneAdded(k: nat, new c: WMessage, new f: Field)
      requires old(Valid()) && env.Closed() && k < |old(nodes)|
      requires nodes == old(nodes) + [c] && parent == old(parent) + [k]
      requires forall j | 0 <= j < |old(nodes)| && j != k :: unchanged(old(nodes)[j])
      requires forall j | 0 <= j < |old(nodes)| :: nodes[j].buffer == old(nodes[j].buffer)
      requires forall j | 0 <= j < |old(nodes)| :: unchanged(old(nodes[j].buffer))
      requires nodes[k].Ok() && nodes[k].sub == old(nodes[k].sub) + [(c, f)]
      requires nodes[k].written == old(nodes[k].written) && nodes[k].out == old(nodes[k].out)
      requires fresh(c.buffer) && c.Ok() && c.index == |old(nodes)| && c.heap == this && c.env == env
      requires f.typeName in env.msgs && c.AsNode() == Node(env.msgs[f.typeName], [], [], [])
      requires OwnField(nodes[k].mtype, f) && f.ftype.MESSAGE?
      requires c.sub == []
      ensures Valid() && Snap() == WithChild(env, old(Snap()), k, f)
    {
      hide Shape, OwnField;
      var s := old(Snap());
      assert Separate();
      forall j | 0 <= j < |s| && j != k ensures nodes[j].AsNode() == s[j] {
        assert nodes[j].AsNode() == old(nodes[j].AsNode());
      }
      assert nodes[k].AsNode() == s[k].(subs := s[k].subs + [(|s|, f)]);
      assert Snap() == WithChild(env, s, k, f);
      ChildShape(env, s, old(parent), k, f);
    }
  }

  // ---- one message

  class WMessage {
    const heap: Arena
    const env: Env
    const mtype: Message
    ghost const index: nat
    var buffer: array<byte>
    var ptr: nat
    var sub: seq<(WMessage, Field)>
    ghost var out: seq<byte>
    ghost var written: seq<(Field, Value)>

    /** The bytes written so far are at the front of the buffer. */
    ghost predicate Ok()
      reads this, buffer
    {
      ptr == |out| <= buffer.Length && WMESSAGE_SIZE <= buffer.Length && buffer[..ptr] == out
    }

    ghost function AsNode(): Node
      reads this
    {
      Node(mtype, written, out, seq(|sub|, j requires 0 <= j < |sub| reads this => (sub[j].0.index, sub[j].1)))
    }

    /** `_wmessage_new` */
    constructor (heap: Arena, env: Env, mtype: Message, ghost index: nat)
      ensures Ok() && fresh(buffer) && sub == [] && written == [] && out == []
      ensures this.heap == heap && this.env == env && this.mtype == mtype && this.index == index
    {
      this.heap, this.env, this.mtype, this.index := heap, env, mtype, index;
      buffer := new byte[WMESSAGE_SIZE];
      ptr, sub, out, written := 0, [], [], [];
    }

    /** `_expand`: room for sz more bytes, doubling the buffer as often as needed. */
    method Expand(sz: nat)
      requires Ok()
      modifies this`buffer
      ensures Ok() && ptr + sz <= buffer.Length
      ensures buffer == old(buffer) || fresh(buffer)
    {
      if ptr + sz > buffer.Length {
        var cap := buffer.Length;
        var need := ptr + sz;
        cap := cap * 2;
        while need > cap
          invariant cap >= WMESSAGE_SIZE
          decreases need - cap
        {
          cap := cap * 2;
        }
        var bigger := new byte[cap];
        forall k | 0 <= k < ptr { bigger[k] := buffer[k]; }
        assert bigger[..ptr] == buffer[..ptr];
        buffer := bigger;
      }
    }

    /** `m->ptr += _pbcV_encode32(n, m->ptr)` */
    method Put32(n: word)
      requires Ok() && ptr + 10 <= buffer.Length
      modifies this`ptr, this`out, buffer
      ensures Ok() && out == old(out) + Varint.Bytes(n) && ptr <= old(ptr) + 5
    {
      hide Varint.Bytes;
      var len := Varint.Encode32(n, buffer, ptr);
      ptr := ptr + len;
      out := out + Varint.Bytes(n);
    }

    /** `m->ptr += _pbcV_encode(n, m->ptr)` */
    method Put64(n: word64)
      requires Ok() && ptr + 10 <= buffer.Length
      modifies this`ptr, this`out, buffer
      ensures Ok() && out == old(out) + Varint.Bytes(n)
    {
      hide Varint.Bytes;
      var len := Varint.Encode(n, buffer, ptr);
      ptr := ptr + len;
      out := out + Varint.Bytes(n);
    }

    /** `int32_encode` */
    method PutLe32(w: word)
      requires Ok() && ptr + 4 <= buffer.Length
      modifies this`ptr, this`out, buffer
      ensures Ok() && out == old(out) + Le32(w) && ptr == old(ptr) + 4
    {
      ghost var was := buffer[..];
      buffer[ptr] := Le32(w)[0];
      buffer[ptr + 1] := Le32(w)[1];
      buffer[ptr + 2] := Le32(w)[2];
      buffer[ptr + 3] := Le32(w)[3];
      IsPatched(was, buffer[..], ptr, Le32(w));
      ptr := ptr + 4;
      out := out + Le32(w);
    }

    /** `memcpy(m->ptr, v, len); m->ptr += len` */
    method PutBytes(bs: seq<byte>)
      requires Ok() && ptr + |bs| <= buffer.Length
      modifies this`ptr, this`out, buffer
      ensures Ok() && out == old(out) + bs
    {
      ghost var was := buffer[..];
      forall k | 0 <= k < |bs| { buffer[ptr + k] := bs[k]; }
      IsPatched(was, buffer[..], ptr, bs);
      ptr := ptr + |bs|;
      out := out + bs;
    }

    /** `pbc_wmessage_integer` */
    method Integer(key: Name, v: Longlong) returns (r: int)
      requires Ok()
      requires key in mtype.name ==> mtype.name[key].flabel != PACKED
      modifies this`buffer, this`ptr, this`out, this`written, buffer
      ensures Ok() && (buffer == old(buffer) || fresh(buffer))
      ensures r == if key in mtype.name then 0 else -1
      ensures if key in mtype.name && Integral(mtype.name[key].ftype)
              then written == old(written) + [(mtype.name[key], Number(v))]
                   && out == old(out) + RecOf(mtype.name[key], Number(v)).Bytes()
              else written == old(written) && out == old(out)
    {
      hide Varint.Bytes, Le32, Varint.ZigZag32, Varint.ZigZag64;
      if key !in mtype.name {
        return -1;
      }
      var f := mtype.name[key];
      Expand(20);
      if Integral(f.ftype) {
        PutRecord(f, v);
        written := written + [(f, Number(v))];
      }
      return 0;
    }

    /** `pbc_wmessage_real`, given the bits of the number as a double and as a float. */
    method Real(key: Name, v: Longlong, single: word) returns (r: int)
      requires Ok()
      requires key in mtype.name ==> mtype.name[key].flabel != PACKED
      modifies this`buffer, this`ptr, this`out, this`written, buffer
      ensures Ok() && (buffer == old(buffer) || fresh(buffer))
      ensures r == if key in mtype.name then 0 else -1
      ensures if key in mtype.name && Proto.Real(mtype.name[key].ftype)
              then var n := RealNumber(mtype.name[key], v, single);
                   written == old(written) + [(mtype.name[key], n)]
                     && out == old(out) + RecOf(mtype.name[key], n).Bytes()
              else written == old(written) && out == old(out)
    {
      hide Varint.Bytes, Le32;
      if key !in mtype.name {
        return -1;
      }
      var f := mtype.name[key];
      Expand(18);
      match f.ftype
      case FLOAT =>
        PutRecord(f, Longlong(single, 0));
        written := written + [(f, Number(Longlong(single, 0)))];
        return 0;
      case DOUBLE =>
        PutRecord(f, v);
        written := written + [(f, Number(v))];
        return 0;
      case _ =>
        return 0;
    }

    /** The switch: the tag and then the body of a numeric record. */
    method PutRecord(f: Field, v: Longlong)
      requires Ok() && ptr + 18 <= buffer.Length && Numeric(f.ftype)
      modifies this`ptr, this`out, buffer
      ensures Ok() && out == old(out) + RecOf(f, Number(v)).Bytes()
    {
      RecTag(f, Number(v));
      ghost var r, was := RecOf(f, Number(v)), out;
      TagAndBody(r);
      hide Varint.Bytes, Tag, Context.Rec.BodyBytes, Context.Rec.Bytes, RecOf, WireType, Numeric;
      Put32(Tag(f.id, WireType(f.ftype)));
      PutBody(f, v);
      Behind(was, Varint.Bytes(r.tag), r.BodyBytes());
    }

    method PutBody(f: Field, v: Longlong)
      requires Ok() && ptr + 10 <= buffer.Length && Numeric(f.ftype)
      modifies this`ptr, this`out, buffer
      ensures Ok() && out == old(out) + RecOf(f, Number(v)).BodyBytes()
    {
      hide Varint.Bytes, Le32, Varint.ZigZag32, Varint.ZigZag64, Tag;
      match f.ftype
      case INT64 | UINT64 | INT32 => Put64(Join(v));
      case UINT32 | ENUM | BOOL => Put32(v.low);
      case FIXED64 | SFIXED64 | DOUBLE =>
        PutLe32(v.low);
        PutLe32(v.hi);
        assert out == old(out) + (Le32(v.low) + Le32(v.hi));
      case FIXED32 | SFIXED32 | FLOAT => PutLe32(v.low);
      case SINT32 => Put32(Varint.ZigZag32(v.low));
      case SINT64 => Put64(Varint.ZigZag64(Join(v)));
    }

    /** `pbc_wmessage_string`. v is the memory the pointer addresses; a length of zero or
        less asks for the bytes up to the terminator, and -len more. An enum field takes
        the name of a value. */
    method String(key: Name, v: seq<byte>, len: int) returns (r: int)
      requires Ok()
      requires if len > 0 then len <= |v| else |CString(v)| < |v| && |CString(v)| - len <= |v|
      requires key in mtype.name ==> mtype.name[key].flabel != PACKED && env.Resolves(mtype.name[key])
      requires |v| < 0x8000_0000
      modifies this`buffer, this`ptr, this`out, this`written, buffer
      ensures Ok() && (buffer == old(buffer) || fresh(buffer))
      ensures StringWrites(env, mtype, key, v, len).None? ==> written == old(written) && out == old(out)
      ensures StringWrites(env, mtype, key, v, len).Some? ==>
                var item := (mtype.name[key], StringWrites(env, mtype, key, v, len).value);
                written == old(written) + [item] && out == old(out) + RecOf(item.0, item.1).Bytes()
      ensures r == -1 <==>
                key !in mtype.name
                || (mtype.name[key].ftype.ENUM? && StringWrites(env, mtype, key, v, len).None?)
    {
      hide Varint.Bytes, CString;
      if key !in mtype.name {
        return -1;
      }
      var f := mtype.name[key];
      var n := if len <= 0 then |CString(v)| - len else len;
      Expand(20);
      match f.ftype
      case ENUM =>
        var name := CString(v[..n]);
        if name !in env.enums[f.typeName].name {
          return -1;
        }
        var id := env.enums[f.typeName].name[name];
        ghost var item := Number(Longlong(FromInt(id), 0));
        PutRecord(f, Longlong(FromInt(id), 0));
        written := written + [(f, item)];
        return 0;
      case STRING | BYTES =>
        PutText(f, v[..n]);
        written := written + [(f, Chars(v[..n]))];
        return 0;
      case _ =>
        return 0;
    }

    /** The tag, the length and the bytes of a delimited record. */
    method PutText(f: Field, bs: seq<byte>)
      requires Ok() && ptr + 20 <= buffer.Length && Fits(f, Chars(bs))
      modifies this`buffer, this`ptr, this`out, buffer
      ensures Ok() && (buffer == old(buffer) || fresh(buffer))
      ensures out == old(out) + RecOf(f, Chars(bs)).Bytes()
    {
      hide Varint.Bytes, Tag;
      Put32(Tag(f.id, Context.WT_LEND));
      Put32(|bs|);
      Expand(|bs|);
      PutBytes(bs);
      assert out == old(out) + (Varint.Bytes(Tag(f.id, 2)) + (Varint.Bytes(|bs|) + bs));
    }

    /** `pbc_wmessage_message`: a new message for a sub-message field, or null. */
    method Message(key: Name) returns (c: WMessage?)
      requires heap.Valid() && index < |heap.nodes| && heap.nodes[index] == this
      requires env.Closed()
      requires key in mtype.name ==>
                 OwnField(mtype, mtype.name[key]) && mtype.name[key].ftype.MESSAGE? && env.Resolves(mtype.name[key])
      modifies this`sub, heap
      ensures heap.Valid()
      ensures key !in mtype.name ==>
                c == null && heap.nodes == old(heap.nodes) && heap.parent == old(heap.parent)
                  && heap.Snap() == old(heap.Snap())
      ensures key in mtype.name ==>
                && c != null && fresh(c) && fresh(c.buffer) && c.index == |old(heap.nodes)|
                   && c.mtype == env.msgs[mtype.name[key].typeName]
                && heap.nodes == old(heap.nodes) + [c] && heap.parent == old(heap.parent) + [index]
                && heap.Snap() == WithChild(env, old(heap.Snap()), index, mtype.name[key])
    {
      if key !in mtype.name {
        return null;
      }
      var f := mtype.name[key];
      ghost var n := |heap.nodes|;
      ghost var s, p := heap.Snap(), heap.parent;
      var child := new WMessage(heap, env, env.msgs[f.typeName], n);
      sub := sub + [(child, f)];
      heap.nodes := heap.nodes + [child];
      heap.parent := heap.parent + [index];
      heap.OneAdded(index, child, f);
      return child;
    }

    /** The record of a finished sub-message: tag, length, bytes. */
    method AppendChild(f: Field, bytes: seq<byte>)
      requires Ok() && |bytes| < 0x8000_0000
      modifies this`buffer, this`ptr, this`out, buffer
      ensures Ok() && (buffer == old(buffer) || fresh(buffer))
      ensures out == old(out) + Context.Rec(Tag(f.id, 2), Context.LendBody(bytes)).Bytes()
    {
      hide Varint.Bytes, Tag;
      Expand(20 + |bytes|);
      Put32(Tag(f.id, Context.WT_LEND));
      Put32(|bytes|);
      PutBytes(bytes);
      assert out == old(out) + (Varint.Bytes(Tag(f.id, 2)) + (Varint.Bytes(|bytes|) + bytes));
    }

    /** `pbc_wmessage_buffer`: the sub-messages are finished first, in order, and appended
        as records. What comes out is the encoding of the whole tree. */
    method Buffer() returns (slice: array<byte>, len: nat)
      requires heap.Valid() && index < |heap.nodes| && heap.nodes[index] == this
      requires forall j | 0 <= j < |heap.nodes| && Below(heap.parent, index, j) :: Pristine(heap.Snap()[j])
      requires |Encode(TreeOf(heap.env, heap.Snap(), heap.parent, index))| < 0x8000_0000
      modifies heap.nodes, set n | n in heap.nodes :: n.buffer
      ensures heap.Valid()
      ensures slice == buffer && len == ptr && len <= slice.Length && slice[..len] == out
      ensures out == old(Encode(TreeOf(heap.env, heap.Snap(), heap.parent, index)))
      ensures heap.Grown(index)
      decreases |heap.nodes| - index, 1
    {
      hide Shape, Encode, TreeOf, Pristine, Below, Prefix, GrownBelow, Untouched, Arena.Separate;
      heap.Self(index);
      ghost var s, parent := heap.Snap(), heap.parent;
      ghost var t := TreeOf(env, s, parent, index);
      NodeFacts(env, s, parent, index);
      BelowSelf(parent, index);
      Start(env, s, parent, index);
      var i := 0;
      while i < |sub|
        invariant 0 <= i <= |sub| && sub == old(sub) && heap.Valid() && heap.Grown(index)
        invariant Untouched(s, heap.Snap(), parent, index, i)
        invariant out == Prefix(t, |s[index].written| + i)
      {
        AppendSub(i, s);
        i := i + 1;
      }
      PrefixAll(t);
      heap.Self(index);
      return buffer, ptr;
    }

    /** One round of the loop. s is the tree when Buffer was entered. */
    method AppendSub(i: nat, ghost s: seq<Node>)
      requires heap.Valid() && index < |heap.nodes| && heap.nodes[index] == this && i < |sub|
      requires Shape(heap.env, s, heap.parent)
      requires GrownBelow(s, heap.Snap(), heap.parent, index) && Untouched(s, heap.Snap(), heap.parent, index, i)
      requires forall j | 0 <= j < |s| && Below(heap.parent, index, j) :: Pristine(s[j])
      requires |Encode(TreeOf(heap.env, s, heap.parent, index))| < 0x8000_0000
      requires out == Prefix(TreeOf(heap.env, s, heap.parent, index), |s[index].written| + i)
      modifies heap.nodes, set n | n in heap.nodes :: n.buffer
      ensures heap.Valid() && sub == old(sub) && heap.Moved()
      ensures GrownBelow(s, heap.Snap(), heap.parent, index) && Untouched(s, heap.Snap(), heap.parent, index, i + 1)
      ensures out == Prefix(TreeOf(heap.env, s, heap.parent, index), |s[index].written| + i + 1)
      decreases |heap.nodes| - index, 0
    {
      hide Shape, Encode, TreeOf, Pristine, Below, Prefix;
      hide Context.Rec.Bytes, Untouched, EntryRec, OwnField, Fits, Tag, Arena.Separate;
      heap.SubAt(index, i);
      ghost var parent := heap.parent;
      ghost var t := TreeOf(env, s, parent, index);
      ghost var s1 := heap.Snap();
      var c, f := sub[i].0, sub[i].1;
      BeforeChild(env, s, s1, parent, index, i);
      assert s1[index].subs[i] == (c.index, f) && SameContent(s1[index], s[index]);
      var slice, len := c.Buffer();
      ghost var s2 := heap.Snap();
      AfterChild(env, s, s1, s2, parent, index, i);
      ChildRecIs(t, t.entries[|s[index].written| + i]);
      AppendRecord(f, slice[..len]);
      Appended(env, s, s2, parent, index, i + 1, AsNode());
      PrefixStep(t, |s[index].written| + i);
    }

    /** `AppendChild` seen from the tree: only this message's bytes change. */
    method AppendRecord(f: Field, bytes: seq<byte>)
      requires heap.Valid() && index < |heap.nodes| && heap.nodes[index] == this && |bytes| < 0x8000_0000
      modifies this`buffer, this`ptr, this`out, buffer
      ensures heap.Valid() && sub == old(sub) && heap.Moved()
      ensures out == old(out) + Context.Rec(Tag(f.id, 2), Context.LendBody(bytes)).Bytes()
      ensures heap.Snap() == old(heap.Snap())[index := AsNode()] && SameContent(AsNode(), old(AsNode()))
    {
      hide Shape, OwnField, Fits, Tag, Context.Rec.Bytes;
      NodeFacts(heap.env, heap.Snap(), heap.parent, index);
      assert heap.Snap()[index] == AsNode();
      AppendChild(f, bytes);
      heap.OneChanged(index);
    }
  }

  lemma TagAndBody(r: Context.Rec)
    ensures r.Bytes() == Varint.Bytes(r.tag) + r.BodyBytes()
  {
  }

  lemma Behind(was: seq<byte>, a: seq<byte>, b: seq<byte>)
    ensures was + a + b == was + (a + b)
  {
  }

  /** What a string call writes to its field, if anything. */
  function StringWrites(env: Env, t: Message, key: Name, v: seq<byte>, len: int): (r: Option<Value>)
    requires if len > 0 then len <= |v| else |CString(v)| - len <= |v|
    requires |v| < 0x8000_0000
    ensures r.Some? ==> key in t.name && Fits(t.name[key], r.value)
  {
    if key !in t.name then None
    else
      var f := t.name[key];
      var n := if len <= 0 then |CString(v)| - len else len;
      match f.ftype
      case ENUM =>
        var name := CString(v[..n]);
        if f.typeName in env.enums && name in env.enums[f.typeName].name
        then Some(Number(Longlong(FromInt(env.enums[f.typeName].name[name]), 0))) else None
      case STRING | BYTES => Some(Chars(v[..n]))
      case _ => None
  }
}
