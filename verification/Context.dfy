/** The wire tokeniser (ext/pbc/src/context.c): a pure record grammar over byte
    sequences, and the method that fills an inline array, then heap blocks of 64 cells. */
module Context {
  import opened Words
  import opened Wrappers
  import Varint

  const WT_VARINT := 0
  const WT_BIT64 := 1
  const WT_LEND := 2
  const WT_BIT32 := 5

  /** `struct atom`. The two words hold either the `struct longlong` or the start and
      end of the `struct slice`, which share their storage. */
  datatype Atom = Atom(wireId: int, first: nat, second: nat) {
    /** The union read as a number. */
    function Number(): Longlong {
      Longlong(FromInt(first), FromInt(second))
    }

    /** `wire_id >> 3`, a shift of a signed int. */
    function FieldId(): int {
      wireId / 8
    }

    predicate Delimited() {
      wireId % 8 == WT_LEND
    }
  }

  /** One decoded record: the bytes it counts for in the 32-bit size and offset of the scan,
      and the bytes the read pointer moves on. The two differ when a length wraps. */
  datatype Step = Step(atom: Atom, len: nat, move: nat)

  const WORD := 0x1_0000_0000

  /** The 32-bit sum of a length prefix's length and the length it declares. */
  function Sum(len: nat, low: word): (n: nat)
    requires len <= 10
    ensures n < WORD && (n == len + low || n + WORD == len + low)
  {
    if len + low < WORD then len + low else len + low - WORD
  }

  /** The payload of a record whose tag word is `tag`, at offset `at` of the message. The end
      of a delimited payload is a sum of unsigned words, compared with the bytes left. */
  function Payload(tag: word, body: seq<byte>, at: nat): (r: Option<Step>)
    ensures r.Some? ==> r.value.len <= |body| && body != [] && r.value.move >= 1
    ensures r.Some? ==> r.value.move == r.value.len || r.value.move == r.value.len + WORD
  {
    var id := ToInt32(tag);
    if tag % 8 == WT_VARINT then
      var v := Varint.Read(body);
      if v.None? then None
      else Some(Step(Atom(id, v.value.value.low, v.value.value.hi), v.value.len, v.value.len))
    else if tag % 8 == WT_BIT64 then
      if |body| < 8 then None else Some(Step(Atom(id, OfLe32(body), OfLe32(body[4..])), 8, 8))
    else if tag % 8 == WT_LEND then
      var v := Varint.Read(body);
      if v.None? || v.value.value.hi != 0 then None
      else
        var sum := Sum(v.value.len, v.value.value.low);
        if sum > |body| then None
        else Some(Step(Atom(id, at + v.value.len, at + sum), sum, v.value.len + v.value.value.low))
    else if tag % 8 == WT_BIT32 then
      if |body| < 4 then None else Some(Step(Atom(id, OfLe32(body), 0), 4, 4))
    else None
  }

  /** One record at offset `start`. */
  function Record(bs: seq<byte>, start: nat): (r: Option<Step>)
    ensures r.Some? ==> 1 <= r.value.len <= |bs| && |bs| >= 2
    ensures r.Some? ==> (r.value.move == r.value.len && r.value.len >= 2) || r.value.move == r.value.len + WORD
  {
    var tag := Varint.Read(bs);
    if tag.None? || tag.value.value.hi != 0 then None
    else
      var p := Payload(tag.value.value.low, bs[tag.value.len..], start + tag.value.len);
      if p.None? then None
      else Some(Step(p.value.atom, tag.value.len + p.value.len, tag.value.len + p.value.move))
  }

  /** The records read before the input ended (ok) or a malformed one stopped the scan. It
      also stops behind a record that moves the pointer out of the buffer: what the code
      goes on to read there is not part of the input. */
  datatype Scan = Scan(atoms: seq<Atom>, ok: bool)

  function Tokens(bs: seq<byte>, start: nat): (s: Scan) {
    if bs == [] then Scan([], true)
    else
      var r := Record(bs, start);
      if r.None? then Scan([], false)
      else if r.value.move != r.value.len then Scan([r.value.atom], false)
      else
        var s := Tokens(bs[r.value.len..], start + r.value.len);
        Scan([r.value.atom] + s.atoms, s.ok)
  }

  // ---- the code; memory it only reads is a sequence, (pointer, cap) a suffix of it

  /** The read that copies to a ten-byte scratch array when fewer than ten bytes are
      left. The rest of the scratch array is not initialised: `new byte[10]` may hold
      anything, and the contract does not depend on it. */
  method ReadTail(buffer: seq<byte>) returns (len: nat, value: Longlong)
    ensures len > |buffer| <==> Varint.Read(buffer).None?
    ensures len <= |buffer| ==> Varint.Read(buffer) == Some(Varint.Varint(len, value))
  {
    var cap := |buffer|;
    if cap >= 10 {
      len, value := Varint.Decode(buffer);
    } else {
      var temp := new byte[10];
      forall i | 0 <= i < cap { temp[i] := buffer[i]; }
      len, value := Varint.Decode(temp[..]);
      SamePrefix(buffer, temp[..]);
    }
  }

  /** Fewer than ten bytes read the same from a padded copy, unless they end first. */
  lemma SamePrefix(bs: seq<byte>, padded: seq<byte>)
    requires |bs| < 10 <= |padded| && padded[..|bs|] == bs
    ensures Varint.Read(padded).Some?
    ensures if Varint.Read(padded).value.len <= |bs| then Varint.Read(bs) == Varint.Read(padded)
            else Varint.Read(bs).None?
  {
    if Varint.Read(bs).Some? { ReadPadded(bs, padded); }
    var len := Varint.Read(padded).value.len;
    if len <= |bs| {
      assert padded[..len] == padded[..|bs|][..len];
      Varint.ReadPrefix(padded, bs);
    }
  }

  lemma ReadPadded(bs: seq<byte>, padded: seq<byte>)
    requires Varint.Read(bs).Some? && |bs| <= |padded| && padded[..|bs|] == bs
    ensures Varint.Read(padded) == Varint.Read(bs)
  {
    var l := Varint.Read(bs).value.len;
    assert padded[..l] == padded[..|bs|][..l];
    Varint.ReadPrefix(bs, padded);
  }

  /** The switch of `wiretype_decode`. */
  method DecodePayload(tag: word, buffer: seq<byte>, start: nat) returns (r: Option<Step>)
    ensures r == Payload(tag, buffer, start)
  {
    hide Varint.Read, OfLe32;
    var cap := |buffer|;
    var wiretype := tag % 8;
    var id := ToInt32(tag);
    if wiretype == WT_VARINT {
      var len, v := ReadTail(buffer);
      if cap < len { return None; }
      return Some(Step(Atom(id, v.low, v.hi), len, len));
    } else if wiretype == WT_BIT64 {
      if cap < 8 { return None; }
      return Some(Step(Atom(id, OfLe32(buffer), OfLe32(buffer[4..])), 8, 8));
    } else if wiretype == WT_LEND {
      var len, v := ReadTail(buffer);
      // A prefix that ends in the scratch array only is refused here; see LengthTest.
      if cap < len || cap < Sum(len, v.low) || v.hi != 0 { return None; }
      return Some(Step(Atom(id, start + len, start + Sum(len, v.low)), Sum(len, v.low), len + v.low));
    } else if wiretype == WT_BIT32 {
      if cap < 4 { return None; }
      return Some(Step(Atom(id, OfLe32(buffer), 0), 4, 4));
    } else {
      return None;
    }
  }

  /** `wiretype_decode` */
  method WiretypeDecode(buffer: seq<byte>, start: nat) returns (r: Option<Step>)
    ensures r == Record(buffer, start)
  {
    hide Varint.Read, Payload;
    var len, tag := ReadTail(buffer);
    if len > |buffer| || tag.hi != 0 { return None; }
    var p := DecodePayload(tag.low, buffer[len..], start + len);
    if p.None? { return None; }
    return Some(Step(p.value.atom, len + p.value.len, len + p.value.move));
  }

  /** Atoms that fit beside the header in a 256-byte `pbc_ctx` with 8-byte pointers:
      (256 - 24) / 12. */
  const INNER_ATOM := 19

  /** What is left to scan continues what was scanned. */
  ghost predicate Continues(all: Scan, done: seq<Atom>, rest: seq<byte>, start: nat) {
    all.atoms == done + Tokens(rest, start).atoms && all.ok == Tokens(rest, start).ok
  }

  lemma ContinuesStep(all: Scan, done: seq<Atom>, rest: seq<byte>, start: nat)
    requires rest != [] && Continues(all, done, rest, start)
    ensures var r := Record(rest, start);
            if r.None? then all == Scan(done, false)
            else if r.value.move != r.value.len then all == Scan(done + [r.value.atom], false)
            else Continues(all, done + [r.value.atom], rest[r.value.len..], start + r.value.len)
  {
  }

  lemma ContinuesEnd(all: Scan, done: seq<Atom>, start: nat)
    requires Continues(all, done, [], start)
    ensures all == Scan(done, true)
  {
  }

  /** `struct context`: `a` is the inline array or a heap block. */
  class Ctx {
    const inner: array<Atom>
    var a: array?<Atom>
    var number: nat

    constructor ()
      ensures fresh(inner) && inner.Length == INNER_ATOM
    {
      inner := new Atom[INNER_ATOM];
      a := null;
      number := 0;
    }

    /** `_pbcC_open`: the number of records on success, minus the number read before a
        malformed record otherwise. Where the pointer leaves the buffer the model stops as
        if a malformed record were there. */
    method Open(buffer: seq<byte>) returns (n: int)
      requires inner.Length == INNER_ATOM
      modifies this, inner
      ensures buffer == [] ==> n == number == 0 && a == null
      ensures var s := Tokens(buffer, 0); if s.ok then n == |s.atoms| else n == -|s.atoms|
      ensures var s := Tokens(buffer, 0);
              s.ok && buffer != [] ==> number == n && a != null && n <= a.Length && a[..n] == s.atoms
    {
      hide Record;
      if buffer == [] {
        number, a := 0, null;
        return 0;
      }
      ghost var all := Tokens(buffer, 0);
      var rest, i := buffer, 0;
      a := inner;
      while i < INNER_ATOM
        invariant 0 <= i <= INNER_ATOM && |rest| <= |buffer| && a == inner
        invariant Continues(all, inner[..i], rest, |buffer| - |rest|)
      {
        if rest == [] { break; }
        var r := WiretypeDecode(rest, |buffer| - |rest|);
        ContinuesStep(all, inner[..i], rest, |buffer| - |rest|);
        if r.None? { return -i; }
        inner[i] := r.value.atom;
        assert inner[..i + 1] == inner[..i] + [r.value.atom];
        if r.value.move != r.value.len { return -i - 1; }
        rest := rest[r.value.len..];
        i := i + 1;
      }
      if rest != [] {
        i, rest := OpenHeap(|buffer|, rest, all);
        if rest != [] { return i; }
      }
      number := i;
      n := i;
    }

    /** The second tier: 64 cells, then 64 more each time they run out; the inline cells
        are copied over at the end. */
    method OpenHeap(size: nat, from: seq<byte>, ghost all: Scan) returns (n: int, rest: seq<byte>)
      requires 0 < |from| <= size && inner.Length == INNER_ATOM
      requires Continues(all, inner[..], from, size - |from|)
      modifies this`a
      ensures a != null && fresh(a)
      ensures all.ok <==> rest == []
      ensures if all.ok then n == |all.atoms| <= a.Length && a[..n] == all.atoms else n == -|all.atoms|
    {
      hide Record, Tokens;
      rest := from;
      var i, cap := INNER_ATOM, 64;
      var cells := new Atom[cap];
      ghost var head := inner[..];
      while rest != []
        invariant INNER_ATOM <= i <= cap == cells.Length && |rest| <= size && fresh(cells)
        invariant Continues(all, head + cells[INNER_ATOM..i], rest, size - |rest|)
        invariant inner[..] == head
        decreases |rest|, cap == i
      {
        if i >= cap {
          cells, cap := Regrow(cells);
          continue;
        }
        ghost var was := cells[INNER_ATOM..i];
        var r := WiretypeDecode(rest, size - |rest|);
        ContinuesStep(all, head + was, rest, size - |rest|);
        if r.None? {
          a := cells;
          return -i, rest;
        }
        cells[i] := r.value.atom;
        assert head + cells[INNER_ATOM..i + 1] == head + was + [r.value.atom];
        if r.value.move != r.value.len {
          a := cells;
          return -i - 1, rest;
        }
        rest := rest[r.value.len..];
        i := i + 1;
      }
      ghost var tail := cells[INNER_ATOM..i];
      ContinuesEnd(all, head + tail, size);
      forall k | 0 <= k < INNER_ATOM { cells[k] := inner[k]; }
      assert cells[..i] == head + tail;
      a := cells;
      return i, rest;
    }
  }

  /** `realloc` of the heap block by 64 cells. */
  method Regrow(cells: array<Atom>) returns (bigger: array<Atom>, cap: nat)
    ensures fresh(bigger) && cap == bigger.Length == cells.Length + 64
    ensures bigger[..cells.Length] == cells[..]
  {
    cap := cells.Length + 64;
    bigger := new Atom[cap];
    forall k | 0 <= k < cells.Length { bigger[k] := cells[k]; }
  }

  // ---- what a scan of arbitrary bytes guarantees

  /** Where each record of a scan begins, and where its 32-bit length says it ends. */
  ghost function Spans(bs: seq<byte>, start: nat): seq<(nat, nat)> {
    if bs == [] || Record(bs, start).None? then []
    else
      var r := Record(bs, start).value;
      [(start, start + r.len)] + if r.move != r.len then [] else Spans(bs[r.len..], start + r.len)
  }

  /** The first record is delimited, and the length of its length prefix and the length it
      declares do not fit a word together. */
  predicate Wraps(bs: seq<byte>) {
    var tag := Varint.Read(bs);
    && tag.Some? && tag.value.value.low % 8 == WT_LEND
    && var v := Varint.Read(bs[tag.value.len..]);
       v.Some? && v.value.len + v.value.value.low >= WORD
  }

  /** A record as it should be: its slice, if it has one, lies inside it and ends with it,
      and the pointer moves to the next record. */
  predicate Sound(r: Step, start: nat) {
    r.move == r.len && (r.atom.Delimited() ==> start + 2 <= r.atom.first <= r.atom.second == start + r.len)
  }

  /** An accepted record is sound if and only if its lengths do not wrap. If they do, its
      slice ends before it starts, and the pointer is moved 4 GB too far. */
  lemma RecordSound(bs: seq<byte>, start: nat)
    requires Record(bs, start).Some?
    ensures Sound(Record(bs, start).value, start) <==> !Wraps(bs)
    ensures Wraps(bs) ==>
              var r := Record(bs, start).value;
              r.atom.Delimited() && r.atom.second < r.atom.first && r.move == r.len + WORD && r.len < |bs|
  {
    hide Varint.Read, OfLe32;
    var tag := Varint.Read(bs).value;
    assert ToInt32(tag.value.low) % 8 == tag.value.low % 8;
  }

  /** Six bytes that are accepted as a record of five: a delimited field declaring
      0xFFFFFFFF bytes behind a prefix of five. Its slice runs from 6 to 5. */
  lemma WrapAccepted()
    ensures var bs := [0x0A, 0xFF, 0xFF, 0xFF, 0xFF, 0x0F];
            Record(bs, 0) == Some(Step(Atom(10, 6, 5), 5, 5 + WORD)) && Wraps(bs)
  {
    hide Record, Wraps, Varint.Read;
    var bs: seq<byte> := [0x0A, 0xFF, 0xFF, 0xFF, 0xFF, 0x0F];
    ReadsOfWrap();
    assert bs[1..] == [0xFF, 0xFF, 0xFF, 0xFF, 0x0F];
    TagAndLength(bs, bs[1..]);
  }

  lemma TagAndLength(bs: seq<byte>, body: seq<byte>)
    requires Varint.Read(bs) == Some(Varint.Varint(1, Longlong(10, 0))) && |bs| == 6 && body == bs[1..]
    requires Varint.Read(body) == Some(Varint.Varint(5, Longlong(0xFFFF_FFFF, 0)))
    ensures Record(bs, 0) == Some(Step(Atom(10, 6, 5), 5, 5 + WORD)) && Wraps(bs)
  {
    hide Varint.Read;
  }

  lemma ReadsOfWrap()
    ensures Varint.Read([0x0A, 0xFF, 0xFF, 0xFF, 0xFF, 0x0F]) == Some(Varint.Varint(1, Longlong(10, 0)))
    ensures Varint.Read([0xFF, 0xFF, 0xFF, 0xFF, 0x0F]) == Some(Varint.Varint(5, Longlong(0xFFFF_FFFF, 0)))
  {
    AllOnes();
    var body: seq<byte> := [0xFF, 0xFF, 0xFF, 0xFF, 0x0F];
    assert Varint.Bytes(10) == [0x0A];
    hide Varint.Bytes, Varint.Read, Varint.Seen;
    Varint.ReadEncoded(10, body);
    Varint.SeenExact(10);
    Varint.ReadEncoded(0xFFFF_FFFF, []);
    Varint.SeenExact(0xFFFF_FFFF);
    assert [0x0A, 0xFF, 0xFF, 0xFF, 0xFF, 0x0F] == Varint.Bytes(10) + body;
    assert body + [] == body;
  }

  lemma AllOnes()
    ensures Varint.Bytes(0xFFFF_FFFF) == [0xFF, 0xFF, 0xFF, 0xFF, 0x0F]
  {
    assert Varint.Bytes(0xF) == [0x0F];
    assert Varint.Bytes(0x7FF) == [0xFF, 0x0F];
    assert Varint.Bytes(0x3_FFFF) == [0xFF] + Varint.Bytes(0x7FF);
    assert Varint.Bytes(0x1FF_FFFF) == [0xFF] + Varint.Bytes(0x3_FFFF);
  }

  /** The record with this span is the one the bytes there make, sound if and only if it
      does not wrap. */
  ghost predicate RecordAt(bs: seq<byte>, start: nat, a: Atom, span: (nat, nat)) {
    && start <= span.0 < span.1 <= start + |bs|
    && Record(bs[span.0 - start..], span.0).Some?
    && Record(bs[span.0 - start..], span.0).value.atom == a
    && Record(bs[span.0 - start..], span.0).value.len == span.1 - span.0
    && (Sound(Record(bs[span.0 - start..], span.0).value, span.0) <==> !Wraps(bs[span.0 - start..]))
  }

  /** The k-th record lies behind the one before it. A wrap is the end of the scan. */
  ghost predicate SpanSound(bs: seq<byte>, start: nat, s: Scan, p: seq<(nat, nat)>, k: nat)
    requires k < |p| == |s.atoms|
  {
    && RecordAt(bs, start, s.atoms[k], p[k])
    && p[k].0 == (if k == 0 then start else p[k - 1].1)
    && start <= p[k].0 <= start + |bs| && (Wraps(bs[p[k].0 - start..]) ==> k == |p| - 1 && !s.ok)
  }

  /** On any input: the records lie end to end from the start, and there are at most half as
      many as bytes. A record is sound if and only if its lengths do not wrap; only the last
      one can wrap, and then the scan does not succeed. When it succeeds, the records are
      all sound and cover the whole buffer. */
  lemma {:induction false} ScanSound(bs: seq<byte>, start: nat)
    ensures var s, p := Tokens(bs, start), Spans(bs, start);
            && |s.atoms| == |p| && 2 * |p| <= |bs|
            && (forall k | 0 <= k < |p| :: SpanSound(bs, start, s, p, k))
            && (s.ok && bs != [] ==> p != [] && p[|p| - 1].1 == start + |bs|)
  {
    hide Tokens, Spans, SpanSound;
    SpanCount(bs, start);
    forall k | 0 <= k < |Spans(bs, start)| ensures SpanSound(bs, start, Tokens(bs, start), Spans(bs, start), k) {
      SpanAt(bs, start, k);
    }
  }

  lemma {:induction false} SpanCount(bs: seq<byte>, start: nat)
    ensures var s, p := Tokens(bs, start), Spans(bs, start);
            && |s.atoms| == |p| && 2 * |p| <= |bs|
            && (s.ok && bs != [] ==> p != [] && p[|p| - 1].1 == start + |bs|)
  {
    hide Record, Tokens, Spans;
    NoSpans(bs, start);
    if bs != [] && Record(bs, start).Some? {
      var r := Record(bs, start).value;
      SpanFirst(bs, start);
      if r.move == r.len { SpanCount(bs[r.len..], start + r.len); }
    }
  }

  lemma {:induction false} NoSpans(bs: seq<byte>, start: nat)
    ensures bs == [] ==> Tokens(bs, start) == Scan([], true) && Spans(bs, start) == []
    ensures bs != [] && Record(bs, start).None? ==> Tokens(bs, start) == Scan([], false) && Spans(bs, start) == []
    ensures bs != [] && Record(bs, start).Some? ==> Spans(bs, start) != []
  {
    hide Record;
  }

  lemma {:induction false} SpanAt(bs: seq<byte>, start: nat, k: nat)
    requires k < |Spans(bs, start)|
    ensures |Tokens(bs, start).atoms| == |Spans(bs, start)|
    ensures SpanSound(bs, start, Tokens(bs, start), Spans(bs, start), k)
  {
    hide Record, Wraps, Sound, Tokens, Spans;
    SpanCount(bs, start);
    SpanFirst(bs, start);
    var r := Record(bs, start).value;
    StraysOrNot(bs, start);
    if k == 0 {
      RecordSound(bs, start);
      assert bs[0..] == bs;
    } else {
      var rest, from := bs[r.len..], start + r.len;
      SpanAt(rest, from, k - 1);
      var q := Spans(rest, from)[k - 1];
      assert rest[q.0 - from..] == bs[q.0 - start..];
    }
  }

  /** A scan that fails stops with a record whose lengths wrap, or behind the last one, where no
      record begins. */
  lemma {:induction false} ScanStops(bs: seq<byte>, start: nat) returns (cut: nat, wraps: bool)
    requires !Tokens(bs, start).ok
    ensures var p := Spans(bs, start);
            && cut <= |bs|
            && (wraps ==> Wraps(bs[cut..]) && p != [] && p[|p| - 1].0 == start + cut)
            && (!wraps ==> cut < |bs| && Record(bs[cut..], start + cut).None? && start + cut == if p == [] then start
               else p[|p| - 1].1)
  {
    hide Record, Wraps, Tokens, Spans;
    StopsHere(bs, start);
    assert bs[0..] == bs;
    if Record(bs, start).None? {
      cut, wraps := 0, false;
    } else {
      var r := Record(bs, start).value;
      StraysOrNot(bs, start);
      if r.move == r.len {
        cut, wraps := ScanStops(bs[r.len..], start + r.len);
        assert bs[r.len..][cut..] == bs[r.len + cut..];
        cut := r.len + cut;
      } else {
        cut, wraps := 0, true;
      }
    }
  }

  lemma {:induction false} StopsHere(bs: seq<byte>, start: nat)
    requires !Tokens(bs, start).ok
    ensures bs != []
    ensures var p, r := Spans(bs, start), Record(bs, start);
            if r.None? then p == []
            else if r.value.move != r.value.len then p == [(start, start + r.value.len)]
            else
              var from := start + r.value.len;
              p == [(start, from)] + Spans(bs[r.value.len..], from) && !Tokens(bs[r.value.len..], from).ok
  {
    hide Record;
  }

  /** In a scan that succeeds every slice lies in the buffer. */
  lemma SliceSound(bs: seq<byte>)
    ensures var s := Tokens(bs, 0);
            s.ok ==> forall a | a in s.atoms && a.Delimited() :: 2 <= a.first <= a.second <= |bs|
  {
    hide Tokens, Spans, Record, Wraps;
    var s := Tokens(bs, 0);
    SpanCount(bs, 0);
    forall a | s.ok && a in s.atoms && a.Delimited() ensures 2 <= a.first <= a.second <= |bs| {
      var k :| 0 <= k < |s.atoms| && s.atoms[k] == a;
      SpanAt(bs, 0, k);
    }
  }

  /** Every record a scan yields has one of the four wire types. */
  lemma WireTypes(bs: seq<byte>, k: nat)
    requires k < |Tokens(bs, 0).atoms|
    ensures Tokens(bs, 0).atoms[k].wireId % 8 in {WT_VARINT, WT_BIT64, WT_LEND, WT_BIT32}
  {
    hide Tokens, Spans, Record, Wraps;
    SpanCount(bs, 0);
    SpanAt(bs, 0, k);
    var p := Spans(bs, 0)[k];
    RecordType(bs[p.0..], p.0);
  }

  lemma RecordType(bs: seq<byte>, start: nat)
    requires Record(bs, start).Some?
    ensures Record(bs, start).value.atom.wireId % 8 in {WT_VARINT, WT_BIT64, WT_LEND, WT_BIT32}
  {
    hide Varint.Read, OfLe32;
    var tag := Varint.Read(bs).value;
    assert ToInt32(tag.value.low) % 8 == tag.value.low % 8;
  }

  lemma SpanFirst(bs: seq<byte>, start: nat)
    requires Spans(bs, start) != []
    ensures bs != [] && Record(bs, start).Some?
    ensures var s, p, r := Tokens(bs, start), Spans(bs, start), Record(bs, start).value;
            && s.atoms != [] && s.atoms[0] == r.atom && p[0] == (start, start + r.len)
            && (r.move != r.len ==> |p| == 1 == |s.atoms| && !s.ok)
            && (r.move == r.len ==>
                  var rest := bs[r.len..];
                  && p[1..] == Spans(rest, start + r.len) && s.atoms[1..] == Tokens(rest, start + r.len).atoms
                  && s.ok == Tokens(rest, start + r.len).ok)
  {
    hide Record;
  }

  lemma StraysOrNot(bs: seq<byte>, start: nat)
    requires Record(bs, start).Some?
    ensures Record(bs, start).value.move != Record(bs, start).value.len <==> Wraps(bs)
  {
    hide Varint.Read, OfLe32, Record, Wraps;
    RecordSound(bs, start);
  }

  // ---- a length prefix that does not end in the buffer

  /** The test behind the read of a length, as the code has it. */
  predicate LengthOk(cap: nat, v: Varint.Varint)
    requires v.len <= 10
  {
    Sum(v.len, v.value.low) <= cap && v.value.hi == 0
  }

  /** What decides about a delimited record whose length is read from the scratch array. A
      length that ends inside the buffer is treated alike whatever the scratch array holds
      behind the copied bytes. One that does not is refused, unless the length that the
      scratch array happens to complete wraps. */
  lemma LengthTest(tag: word, body: seq<byte>, at: nat, scratch: seq<byte>)
    requires tag % 8 == WT_LEND && |body| < 10 == |scratch| && scratch[..|body|] == body
    ensures Varint.Read(scratch).Some?
    ensures var v := Varint.Read(scratch).value;
            && (v.len <= |body| ==> (LengthOk(|body|, v) <==> Payload(tag, body, at).Some?))
            && (v.len > |body| ==>
                 Payload(tag, body, at).None? && (LengthOk(|body|, v) ==> v.len + v.value.low >= WORD))
  {
    hide Varint.Read;
    SamePrefix(body, scratch);
  }

  /** Five bytes of a length that does not end, behind a tag of five: whether the record is
      accepted depends on the byte the scratch array holds next. */
  lemma ScratchDecides()
    ensures var body := [0xFF, 0xFF, 0xFF, 0xFF, 0x8F];
            && Varint.Read(body).None?
            && Varint.Read(body + [0, 0, 0, 0, 0]) == Some(Varint.Varint(6, Longlong(0xFFFF_FFFF, 0)))
            && Varint.Read(body + [1, 0, 0, 0, 0]).Some?
            && LengthOk(5, Varint.Read(body + [0, 0, 0, 0, 0]).value)
            && !LengthOk(5, Varint.Read(body + [1, 0, 0, 0, 0]).value)
  {
    var body: seq<byte> := [0xFF, 0xFF, 0xFF, 0xFF, 0x8F];
    SixGroups(body, body + [], 0);
    SixGroups(body, body + [0, 0, 0, 0, 0], 0);
    SixGroups(body, body + [1, 0, 0, 0, 0], 1);
  }

  /** The six-group reading of those bytes, or of those bytes alone. */
  lemma SixGroups(body: seq<byte>, bs: seq<byte>, g: nat)
    requires body == [0xFF, 0xFF, 0xFF, 0xFF, 0x8F] && g < 2
    requires bs == body || (|bs| == 10 && bs[..5] == body && bs[5] == g)
    ensures bs == body ==> Varint.Read(bs).None?
    ensures bs != body ==> Varint.Read(bs) == Some(Varint.Varint(6, Longlong(0xFFFF_FFFF, 8 * g)))
  {
    assert forall i | 0 <= i < 5 :: bs[i] == body[i];
    assert Varint.Continued(bs, 5) == 5;
    assert Varint.Continued(bs, 3) == Varint.Continued(bs, 4) == Varint.Continued(bs, 5);
    assert Varint.Continued(bs, 0) == Varint.Continued(bs, 1) == Varint.Continued(bs, 2) == Varint.Continued(bs, 3);
    if bs != body {
      assert Varint.LowGroups(bs, 0) == 0 && Varint.LowGroups(bs, 2) == 0x3FFF;
      assert Varint.LowGroups(bs, 4) == 0xFFF_FFFF;
      assert Varint.HighGroups(bs, 4) == 0 && Varint.HighGroups(bs, 5) == 15;
      assert Varint.HighGroups(bs, 6) == 15 + g * 0x80;
    }
  }

  // ---- the record grammar, printed

  /** What a record carries. */
  datatype Body = VarintBody(n: word64) | Bit64Body(v: Longlong) | LendBody(bytes: seq<byte>) | Bit32Body(w: word)

  /** A record as written: the tag word is the field id and the wire type. */
  datatype Rec = Rec(tag: word, body: Body) {
    predicate Valid() {
      match body
      case VarintBody(_) => tag % 8 == WT_VARINT
      case Bit64Body(_) => tag % 8 == WT_BIT64
      case LendBody(bytes) => tag % 8 == WT_LEND && |bytes| + 5 < WORD
      case Bit32Body(_) => tag % 8 == WT_BIT32
    }

    function BodyBytes(): seq<byte> {
      match body
      case VarintBody(n) => Varint.Bytes(n)
      case Bit64Body(v) => Le32(v.low) + Le32(v.hi)
      case LendBody(bytes) => Varint.Bytes(|bytes|) + bytes
      case Bit32Body(w) => Le32(w)
    }

    function Bytes(): seq<byte> {
      Varint.Bytes(tag) + BodyBytes()
    }

    /** The atom the tokeniser makes of this record at offset `at`. */
    function AtomAt(at: nat): Atom {
      var id := ToInt32(tag);
      match body
      case VarintBody(n) => Atom(id, Varint.Seen(n).low, Varint.Seen(n).hi)
      case Bit64Body(v) => Atom(id, v.low, v.hi)
      case LendBody(bytes) =>
        var end := at + |Bytes()|;
        Atom(id, end - |bytes|, end)
      case Bit32Body(w) => Atom(id, w, 0)
    }
  }

  function Serialise(recs: seq<Rec>): seq<byte> {
    if recs == [] then [] else recs[0].Bytes() + Serialise(recs[1..])
  }

  lemma {:induction false} SerialiseAll(a: seq<Rec>, b: seq<Rec>)
    ensures Serialise(a + b) == Serialise(a) + Serialise(b)
  {
    hide Rec.Bytes;
    if a == [] {
      assert a + b == b;
    } else {
      assert (a + b)[1..] == a[1..] + b;
      SerialiseAll(a[1..], b);
    }
  }

  function AtomsAt(recs: seq<Rec>, at: nat): (atoms: seq<Atom>)
    ensures |atoms| == |recs|
  {
    if recs == [] then [] else [recs[0].AtomAt(at)] + AtomsAt(recs[1..], at + |recs[0].Bytes()|)
  }

  lemma PayloadOfRec(r: Rec, rest: seq<byte>, at: nat)
    requires r.Valid()
    ensures Payload(r.tag, r.BodyBytes() + rest, at + |Varint.Bytes(r.tag)|)
            == Some(Step(r.AtomAt(at), |r.BodyBytes()|, |r.BodyBytes()|))
  {
    hide Varint.Seen, Varint.Bytes, Varint.Read, OfLe32, Le32;
    var body := r.BodyBytes() + rest;
    match r.body {
      case VarintBody(n) =>
        Varint.ReadEncoded(n, rest);
      case Bit64Body(v) =>
        assert body == Le32(v.low) + (Le32(v.hi) + rest);
        assert body[4..] == Le32(v.hi) + rest;
        Le32RoundTrip(v.low, Le32(v.hi) + rest);
        Le32RoundTrip(v.hi, rest);
      case LendBody(bytes) =>
        assert body == Varint.Bytes(|bytes|) + (bytes + rest);
        Varint.ReadEncoded(|bytes|, bytes + rest);
        Varint.SeenExact(|bytes|);
        Varint.BytesAtMost(|bytes|);
      case Bit32Body(w) =>
        Le32RoundTrip(w, rest);
    }
  }

  lemma RecordOfRec(r: Rec, rest: seq<byte>, at: nat)
    requires r.Valid()
    ensures r.Bytes() + rest != []
    ensures Record(r.Bytes() + rest, at) == Some(Step(r.AtomAt(at), |r.Bytes()|, |r.Bytes()|))
  {
    hide Varint.Seen, Varint.Bytes, Varint.Read, Payload;
    assert r.Bytes() + rest == Varint.Bytes(r.tag) + (r.BodyBytes() + rest);
    Varint.ReadEncoded(r.tag, r.BodyBytes() + rest);
    Varint.SeenExact(r.tag);
    assert (r.Bytes() + rest)[|Varint.Bytes(r.tag)|..] == r.BodyBytes() + rest;
    PayloadOfRec(r, rest, at);
  }

  /** The tokeniser undoes the printer on every list of records. */
  lemma {:induction false} TokensOfRecords(recs: seq<Rec>, at: nat)
    requires forall r | r in recs :: r.Valid()
    ensures Tokens(Serialise(recs), at) == Scan(AtomsAt(recs, at), true)
  {
    hide Record, Tokens, Rec.Bytes, Rec.AtomAt, Rec.Valid;
    if recs == [] {
      TokensNone(at);
    } else {
      var r, rest := recs[0], Serialise(recs[1..]);
      RecordOfRec(r, rest, at);
      assert (r.Bytes() + rest)[|r.Bytes()|..] == rest;
      TokensFirst(r.Bytes() + rest, at);
      TokensOfRecords(recs[1..], at + |r.Bytes()|);
    }
  }

  lemma TokensNone(at: nat)
    ensures Tokens([], at) == Scan([], true)
  {
  }

  lemma TokensFirst(bs: seq<byte>, at: nat)
    requires bs != [] && Record(bs, at).Some? && Record(bs, at).value.move == Record(bs, at).value.len
    ensures var r := Record(bs, at).value;
            var s := Tokens(bs[r.len..], at + r.len);
            Tokens(bs, at) == Scan([r.atom] + s.atoms, s.ok)
  {
    hide Record;
  }

  /** The bytes a delimited atom of the printed list points at are the payload written. */
  lemma {:induction false} SliceOfRecord(recs: seq<Rec>, k: nat, prefix: seq<byte>)
    requires k < |recs| && recs[k].body.LendBody?
    ensures var a, all := AtomsAt(recs, |prefix|)[k], prefix + Serialise(recs);
            a.first <= a.second <= |all| && all[a.first..a.second] == recs[k].body.bytes
  {
    hide Varint.Bytes;
    var head, rest := recs[0].Bytes(), Serialise(recs[1..]);
    var all := prefix + Serialise(recs);
    if k == 0 {
      var a := recs[0].AtomAt(|prefix|);
      var bytes := recs[0].body.bytes;
      assert all == prefix + Varint.Bytes(recs[0].tag) + Varint.Bytes(|bytes|) + bytes + rest;
    } else {
      assert all == (prefix + head) + rest;
      SliceOfRecord(recs[1..], k - 1, prefix + head);
    }
  }

  // ---- atoms and the records they stand for

  function SliceOf(buffer: seq<byte>, a: Atom): seq<byte> {
    if a.first <= a.second <= |buffer| then buffer[a.first..a.second] else []
  }

  /** The atom shows the record: its tag, its number or its slice of the buffer. */
  ghost predicate Shows(buffer: seq<byte>, a: Atom, r: Rec) {
    a.wireId == ToInt32(r.tag)
    && match r.body
       case VarintBody(n) => a.Number() == Varint.Seen(n)
       case Bit64Body(v) => a.Number() == v
       case Bit32Body(w) => a.Number() == Longlong(w, 0)
       case LendBody(bytes) => a.first <= a.second <= |buffer| && SliceOf(buffer, a) == bytes
  }

  lemma {:induction false} AtomIs(recs: seq<Rec>, at: nat, k: nat) returns (pos: nat)
    requires k < |recs|
    ensures AtomsAt(recs, at)[k] == recs[k].AtomAt(pos)
  {
    hide Rec.AtomAt, Rec.Bytes;
    if k == 0 { pos := at; } else { pos := AtomIs(recs[1..], at + |recs[0].Bytes()|, k - 1); }
  }

  /** Every atom of a printed list shows its record. */
  lemma AtomShows(recs: seq<Rec>, k: nat)
    requires k < |recs|
    ensures Shows(Serialise(recs), AtomsAt(recs, 0)[k], recs[k])
  {
    hide Varint.Seen, Serialise, AtomsAt;
    var pos := AtomIs(recs, 0, k);
    if recs[k].body.LendBody? {
      SliceOfRecord(recs, k, []);
      assert [] + Serialise(recs) == Serialise(recs);
    }
  }
}
