/** The bump allocator (ext/pbc/src/alloc.c): no memory is modelled, only which bytes of
    which page a block takes. */
module Alloc {
  import opened Words

  /** A block handed out: its page, its first byte behind the page header, its size. */
  datatype Block = Block(page: nat, at: nat, size: nat)

  predicate Apart(a: Block, b: Block) {
    a.page != b.page || a.at + a.size <= b.at || b.at + b.size <= a.at
  }

  function RoundedUp(want: nat): (r: nat)
    ensures want <= r < want + 4 && r % 4 == 0
  {
    (want + 3) / 4 * 4
  }

  /** A block on a new page, or behind `used` on the current one, is apart from all others. */
  lemma ApartFromNew(blocks: seq<Block>, pages: seq<nat>, used: nat, size: nat)
    requires pages != [] && forall b | b in blocks ::
               b.page < |pages| && (b.page == |pages| - 1 ==> b.at + b.size <= used)
    ensures forall i | 0 <= i < |blocks| ::
              Apart(blocks[i], Block(|pages|, 0, size)) && Apart(blocks[i], Block(|pages| - 1, used, size))
  {
    forall i | 0 <= i < |blocks|
      ensures Apart(blocks[i], Block(|pages|, 0, size)) && Apart(blocks[i], Block(|pages| - 1, used, size))
    {
      assert blocks[i] in blocks;
    }
  }

  /** The power of two a page size is rounded up to, at least 1024. */
  method PageSize(pagesize: nat) returns (cap: nat)
    ensures PowerOfTwo(cap) && cap >= 1024 && cap >= pagesize && (cap == 1024 || cap / 2 < pagesize)
  {
    cap := 1024;
    assert PowerOfTwo(512);
    while cap < pagesize
      invariant PowerOfTwo(cap) && cap >= 1024 && (cap == 1024 || cap / 2 < pagesize)
      decreases pagesize - cap
    {
      cap := cap * 2;
    }
  }

  class Heap {
    /** The capacities of the pages, in order of allocation; the last one is current. */
    var pages: seq<nat>
    const size: nat
    var used: nat
    ghost var blocks: seq<Block>

    /** Blocks are aligned, inside their page and pairwise apart; those on the current page
        lie below `used`. */
    ghost predicate Valid()
      reads this
    {
      && pages != [] && size % 4 == 0 && used % 4 == 0
      && used <= pages[|pages| - 1] && size <= pages[|pages| - 1]
      && (forall b | b in blocks ::
            && b.at % 4 == 0 && b.size % 4 == 0 && b.page < |pages| && b.at + b.size <= pages[b.page]
            && (b.page == |pages| - 1 ==> b.at + b.size <= used))
      && (forall i, j | 0 <= i < j < |blocks| :: Apart(blocks[i], blocks[j]))
    }

    /** `_pbcH_new` */
    constructor (pagesize: nat)
      ensures Valid() && blocks == [] && size >= 1024 && size >= pagesize
    {
      var cap := PageSize(pagesize);
      pages, size, used, blocks := [cap], cap, 0, [];
      new;
      FourDivides(cap);
    }

    /** `_pbcH_alloc`: the size is rounded up to a multiple of four; a block that does not
        fit the rest of the current page gets a new page, as large as itself if need be. */
    method Allocate(want: nat) returns (b: Block)
      requires Valid()
      modifies this
      ensures Valid() && blocks == old(blocks) + [b]
      ensures want <= b.size < want + 4
      ensures b.size <= old(size - used) ==> pages == old(pages) && b.page == |pages| - 1 && b.at == old(used)
      ensures b.size > old(size - used) ==>
                pages == old(pages) + [if b.size < size then size else b.size] && b.page == |old(pages)| && b.at == 0
    {
      var rounded := RoundedUp(want);
      hide RoundedUp, Apart;
      ApartFromNew(blocks, pages, used, rounded);
      if size - used < rounded {
        if rounded < size {
          pages := pages + [size];
        } else {
          pages := pages + [rounded];
        }
        used := rounded;
        b := Block(|pages| - 1, 0, rounded);
      } else {
        b := Block(|pages| - 1, used, rounded);
        used := used + rounded;
      }
      blocks := blocks + [b];
    }
  }

  lemma EvenPower(n: nat)
    requires PowerOfTwo(n) && n > 1
    ensures n % 2 == 0
  {
  }

  lemma FourDivides(n: nat)
    requires PowerOfTwo(n) && n >= 4
    ensures n % 4 == 0
  {
    var half := n / 2;
    assert n == 2 * half && PowerOfTwo(half) && half > 1;
    hide PowerOfTwo;
    assert half % 2 == 0 by { EvenPower(half); }
  }

  /** Any run of requests: the blocks are as asked for, in order, and pairwise apart. */
  method AllocateAll(h: Heap, wants: seq<nat>) returns (bs: seq<Block>)
    requires h.Valid()
    modifies h
    ensures h.Valid() && h.blocks == old(h.blocks) + bs && |bs| == |wants|
    ensures forall i | 0 <= i < |bs| :: wants[i] <= bs[i].size < wants[i] + 4
    ensures forall i, j | 0 <= i < j < |bs| :: Apart(bs[i], bs[j])
  {
    bs := [];
    var i := 0;
    while i < |wants|
      invariant 0 <= i <= |wants| && |bs| == i && h.Valid() && h.blocks == old(h.blocks) + bs
      invariant forall k | 0 <= k < i :: wants[k] <= bs[k].size < wants[k] + 4
    {
      var b := h.Allocate(wants[i]);
      bs := bs + [b];
      i := i + 1;
    }
    ghost var n := |old(h.blocks)|;
    forall i, j | 0 <= i < j < |bs| ensures Apart(bs[i], bs[j]) {
      assert h.blocks[n + i] == bs[i] && h.blocks[n + j] == bs[j];
    }
  }
}
