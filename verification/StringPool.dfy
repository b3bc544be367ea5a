/** The string pool (ext/pbc/src/stringpool.c): strings are copied to the head page; a full
    head page gives its buffer to a new structure behind it, so that the pool is always
    entered by the same structure. */
module StringPool {
  import opened Words

  const PAGE_SIZE := 256

  /** A string handed out: where it lies, and the bytes copied there. */
  datatype Str = Str(mem: array<byte>, at: nat, bs: seq<byte>)

  predicate Apart(s: Str, t: Str) {
    s.mem != t.mem || s.at + |s.bs| <= t.at || t.at + |t.bs| <= s.at
  }

  /** `struct _stringpool`. `own` is the memory behind the structure itself, released with
      it; `buffer` may point behind another structure. */
  datatype Page = Page(own: array<byte>, buffer: array<byte>, len: nat)

  ghost function Owned(pages: seq<Page>): multiset<array<byte>> {
    if pages == [] then multiset{} else multiset{pages[0].own} + Owned(pages[1..])
  }

  ghost function Used(pages: seq<Page>): multiset<array<byte>> {
    if pages == [] then multiset{} else multiset{pages[0].buffer} + Used(pages[1..])
  }

  ghost predicate Intact(s: Str)
    reads s.mem
  {
    s.at + |s.bs| <= s.mem.Length && s.mem[s.at..s.at + |s.bs|] == s.bs
  }

  /** Every string reads as it was copied, lies in owned memory and shares no byte with
      another; those on the head page, filled up to len, lie below len. */
  ghost predicate Kept(strings: seq<Str>, owned: multiset<array<byte>>, head: array<byte>, len: nat)
    reads set s | s in strings :: s.mem
  {
    && (forall s | s in strings :: s.mem in owned && Intact(s) && (s.mem == head ==> s.at + |s.bs| <= len))
    && (forall i, j | 0 <= i < j < |strings| :: Apart(strings[i], strings[j]))
  }

  /** A string was copied to memory that no earlier string reaches: behind the fill level
      of the head page, or to a new page. */
  twostate lemma OneMore(new strings: seq<Str>, new owned: multiset<array<byte>>, new head: array<byte>, new len: nat,
                         new s: Str, new owned': multiset<array<byte>>, new head': array<byte>, new len': nat)
    requires forall t | t in strings ::
               old(allocated(t)) && old(t.mem in owned && Intact(t)) && (t.mem == head ==> t.at + |t.bs| <= len)
    requires forall i, j | 0 <= i < j < |strings| :: Apart(strings[i], strings[j])
    requires forall t | t in strings :: t.mem != s.mem ==> t.mem[..] == old(t.mem[..])
    requires forall t, k | t in strings && t.mem == s.mem && 0 <= k < s.at && k < t.mem.Length ::
               t.mem[k] == old(t.mem[k])
    requires Intact(s) && (fresh(s.mem) || (s.mem == head && s.at == len))
    requires owned <= owned' && s.mem in owned' && (s.mem == head' ==> s.at + |s.bs| <= len')
    requires if head' == head then len <= len' else fresh(head')
    ensures Kept(strings + [s], owned', head', len')
  {
    forall t | t in strings ensures Intact(t) && (t.mem == head' ==> t.at + |t.bs| <= len') {
      assert t.mem == s.mem ==> t.at + |t.bs| <= s.at;
      assert t.mem[t.at..t.at + |t.bs|] == old(t.mem[t.at..t.at + |t.bs|]);
    }
    forall i | 0 <= i < |strings| ensures Apart(strings[i], s) {
      assert strings[i] in strings;
    }
  }

  class Pool {
    /** The chain of structures, the pool itself first. */
    var pages: seq<Page>
    ghost var strings: seq<Str>

    /** The buffers in use are exactly the memory that releasing the chain releases, and
        every string handed out is kept. */
    ghost predicate Valid()
      reads this, set s | s in strings :: s.mem
    {
      && pages != [] && pages[0].len <= pages[0].buffer.Length == PAGE_SIZE && Owned(pages) == Used(pages)
      && Kept(strings, Owned(pages), pages[0].buffer, pages[0].len)
    }

    /** `_pbcS_new` */
    constructor ()
      ensures Valid() && strings == [] && fresh(pages[0].buffer)
    {
      var mem := new byte[PAGE_SIZE];
      pages, strings := [Page(mem, mem, 0)], [];
    }

    /** `_pbcS_build`: the text and its terminator are copied, and nothing handed out before
        changes. */
    method Build(str: seq<byte>, sz: nat) returns (mem: array<byte>, at: nat)
      requires Valid() && sz < |str|
      modifies this, if pages != [] then {pages[0].buffer} else {}
      ensures Valid() && strings == old(strings) + [Str(mem, at, str[..sz + 1])]
      ensures sz + 1 < PAGE_SIZE - old(pages[0].len) ==> mem == old(pages[0].buffer) && at == old(pages[0].len)
      ensures sz + 1 >= PAGE_SIZE - old(pages[0].len) ==>
                fresh(mem) && at == 0 && mem.Length == if sz + 1 > PAGE_SIZE then sz + 1 else PAGE_SIZE
      ensures pages[0].buffer == if sz + 1 >= PAGE_SIZE - old(pages[0].len) && sz + 1 <= PAGE_SIZE then mem
              else old(pages[0].buffer)
      ensures pages[0].buffer == old(pages[0].buffer) || fresh(pages[0].buffer)
    {
      hide Owned, Used, Apart;
      var s := sz + 1;
      var head, rest := pages[0], pages[1..];
      ghost var bs, was, owned := str[..s], strings, Owned(pages);
      assert [head] + rest == pages;
      if s < PAGE_SIZE - head.len {
        mem, at := head.buffer, head.len;
        Put(mem, at, str, s);
        pages := [head.(len := head.len + s)] + rest;
      } else if s > PAGE_SIZE {
        mem, at := new byte[s], 0;
        Put(mem, 0, str, s);
        pages := [head, Page(mem, mem, s)] + rest;
      } else {
        mem, at := new byte[PAGE_SIZE], 0;
        Put(mem, 0, str, s);
        pages := [Page(head.own, mem, s), Page(mem, head.buffer, head.len)] + rest;
      }
      ChainGrows(head, rest, mem, s);
      strings := strings + [Str(mem, at, bs)];
      OneMore(was, owned, head.buffer, head.len, Str(mem, at, bs), Owned(pages), pages[0].buffer, pages[0].len);
    }

    method Put(mem: array<byte>, at: nat, str: seq<byte>, s: nat)
      requires s <= |str| && at + s <= mem.Length
      modifies mem
      ensures mem[at..at + s] == str[..s]
      ensures forall k | 0 <= k < mem.Length && !(at <= k < at + s) :: mem[k] == old(mem[k])
    {
      forall k | 0 <= k < s { mem[at + k] := str[k]; }
    }
  }

  /** The three ways the chain changes keep memory owned and memory used the same. */
  lemma ChainGrows(head: Page, rest: seq<Page>, mem: array<byte>, s: nat)
    requires Owned([head] + rest) == Used([head] + rest)
    ensures forall n: nat :: Owned([head.(len := n)] + rest) == Used([head.(len := n)] + rest) == Owned([head] + rest)
    ensures var pages := [head, Page(mem, mem, s)] + rest;
            Owned(pages) == Used(pages) == Owned([head] + rest) + multiset{mem}
    ensures var pages := [Page(head.own, mem, s), Page(mem, head.buffer, head.len)] + rest;
            Owned(pages) == Used(pages) == Owned([head] + rest) + multiset{mem}
    ensures head.buffer in Owned([head] + rest)
  {
    hide Owned, Used;
    FirstPage([head] + rest);
    assert ([head] + rest)[1..] == rest;
    forall n: nat ensures Owned([head.(len := n)] + rest) == Used([head.(len := n)] + rest) == Owned([head] + rest) {
      FirstPage([head.(len := n)] + rest);
      assert ([head.(len := n)] + rest)[1..] == rest;
    }
    TwoPages(head, Page(mem, mem, s), rest);
    assert Owned([head, Page(mem, mem, s)] + rest) == Owned([head] + rest) + multiset{mem};
    assert Used([head, Page(mem, mem, s)] + rest) == Used([head] + rest) + multiset{mem};
    TwoPages(Page(head.own, mem, s), Page(mem, head.buffer, head.len), rest);
  }

  lemma TwoPages(a: Page, b: Page, rest: seq<Page>)
    ensures Owned([a, b] + rest) == multiset{a.own} + multiset{b.own} + Owned(rest)
    ensures Used([a, b] + rest) == multiset{a.buffer} + multiset{b.buffer} + Used(rest)
  {
    hide Owned, Used;
    FirstPage([a, b] + rest);
    assert ([a, b] + rest)[1..] == [b] + rest;
    FirstPage([b] + rest);
    assert ([b] + rest)[1..] == rest;
  }

  lemma FirstPage(pages: seq<Page>)
    ensures pages == [] ==> Owned(pages) == multiset{} && Used(pages) == multiset{}
    ensures pages != [] ==> Owned(pages) == multiset{pages[0].own} + Owned(pages[1..])
    ensures pages != [] ==> Used(pages) == multiset{pages[0].buffer} + Used(pages[1..])
  {
  }
}
