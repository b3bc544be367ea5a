/** The growable array (ext/pbc/src/array.c). */
module PbcArray {
  import opened Words

  /** (64 - 24) / 16 with 8-byte pointers. */
  const INNER_FIELD := 2

  predicate LeastPowerAbove(c: nat, n: nat) {
    PowerOfTwo(c) && c > n && c / 2 <= n
  }

  /** The trick that finds the moments to grow: n + 1 differs from n in all bits of n
      exactly when n + 1 is a power of two. */
  lemma {:induction false} XorTrick(n: nat)
    ensures Xor(n + 1, n) > n <==> PowerOfTwo(n + 1)
  {
    if n > 0 {
      var k := n / 2;
      if n % 2 == 1 {
        XorTrick(k);
        assert Xor(n + 1, n) == 1 + 2 * Xor(k + 1, k);
      } else {
        XorSelf(k);
        assert Xor(n + 1, n) == 1 + 2 * Xor(k, k);
      }
    }
  }

  lemma {:induction false} XorSelf(n: nat)
    ensures Xor(n, n) == 0
  {
    if n > 0 { XorSelf(n / 2); }
  }

  /** Between two powers of two there is none. */
  lemma {:induction false} PowersApart(c: nat, d: nat)
    requires PowerOfTwo(c) && PowerOfTwo(d) && c < d
    ensures 2 * c <= d
  {
    if c > 1 { PowersApart(c / 2, d / 2); }
  }

  class PbcArray<T(0)> {
    const inner: array<T>
    var number: nat
    var a: array<T>

    /** Inside the inline cells first, then in a block whose capacity is the least power of
        two above the number of elements. */
    ghost predicate Valid()
      reads this
    {
      && inner.Length == INNER_FIELD && number <= a.Length
      && (number <= INNER_FIELD ==> a == inner)
      && (number > INNER_FIELD ==> a != inner && LeastPowerAbove(a.Length, number))
    }

    ghost function Contents(): seq<T>
      requires Valid()
      reads this, a
    {
      a[..number]
    }

    /** `_pbcA_open` */
    constructor ()
      ensures Valid() && Contents() == [] && fresh(inner) && fresh(a)
    {
      inner := new T[INNER_FIELD];
      number := 0;
      new;
      a := inner;
    }

    /** `_pbcA_push`; a block from an arena is allocated and copied, one from `malloc`
        reallocated, to the same effect. */
    method Push(x: T)
      requires Valid()
      modifies this, inner, a
      ensures Valid() && Contents() == old(Contents()) + [x]
      ensures a == old(a) || fresh(a)
    {
      if number == 0 {
        a := inner;
      } else if number >= INNER_FIELD {
        if number == INNER_FIELD {
          var cap := 1;
          while cap <= number + 1
            invariant cap == 1 || cap == 2 || cap == 4
            decreases 4 - cap
          {
            cap := cap * 2;
          }
          var outer := new T[cap];
          Copy(a, outer, INNER_FIELD);
          a := outer;
        } else {
          var size := number;
          XorTrick(size);
          if Xor(size + 1, size) > size {
            PowersApart(a.Length / 2, size + 1);
            var bigger := new T[(size + 1) * 2];
            Copy(a, bigger, size);
            a := bigger;
          } else {
            assert a.Length != size + 1;
          }
        }
      }
      ghost var was := a[..number];
      a[number] := x;
      number := number + 1;
      assert a[..number] == was + [x];
    }

    method Copy(from: array<T>, to: array<T>, n: nat)
      requires n <= from.Length && n <= to.Length && from != to
      modifies to
      ensures to[..n] == from[..n]
    {
      forall k | 0 <= k < n { to[k] := from[k]; }
    }

    /** `_pbcA_index` */
    method Index(idx: nat) returns (x: T)
      requires Valid() && idx < number
      ensures x == Contents()[idx]
    {
      x := a[idx];
    }

    /** Any number of pushes in a row. */
    method PushAll(xs: seq<T>)
      requires Valid()
      modifies this, inner, a
      ensures Valid() && Contents() == old(Contents()) + xs
      ensures a == old(a) || fresh(a)
    {
      var i := 0;
      assert xs[..0] == [];
      while i < |xs|
        invariant 0 <= i <= |xs| && Valid() && Contents() == old(Contents()) + xs[..i]
        invariant a == old(a) || fresh(a)
      {
        Push(xs[i]);
        assert xs[..i + 1] == xs[..i] + [xs[i]];
        i := i + 1;
      }
      assert xs[..i] == xs;
    }
  }
}
