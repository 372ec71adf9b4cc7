/** The ring buffer: an array that is written at one index and read at another. */
module RingBuffers {
  import opened Basics
  import Lcg

  /** Index x of a ring, one turn at most having been made. */
  function Wrap(x: nat, cap: nat): nat {
    if x < cap then x else x - cap
  }

  lemma WrapIsMod(x: nat, cap: nat)
    requires 0 < cap && x < 2 * cap
    ensures x % cap == Wrap(x, cap)
  {
    if x < cap {
      Lcg.ModUnique(x, cap, 0, x);
    } else {
      Lcg.ModUnique(x, cap, 1, x - cap);
    }
  }

  class RingBuffer<T(==)> {
    const capacity: nat
    const zero: T
    const pool: array<T>
    var count: nat
    var w: nat
    var r: nat
    ghost var contents: seq<T>

    ghost predicate Valid()
      reads this, pool
    {
      && 0 < capacity == pool.Length && count <= capacity && r < capacity && w == Wrap(r + count, capacity)
      && |contents| == count && forall i :: 0 <= i < count ==> contents[i] == pool[Wrap(r + i, capacity)]
    }

    constructor (capacity: nat, zero: T)
      requires 0 < capacity
      ensures Valid() && contents == [] && this.capacity == capacity && this.zero == zero && fresh(pool)
    {
      this.capacity, this.zero := capacity, zero;
      pool := new T[capacity](_ => zero);
      count, w, r, contents := 0, 0, 0, [];
    }

    function Vacancy(): int
      reads this
    {
      capacity - count
    }

    /** Drops all elements and zeroes the memory. */
    method Clear()
      requires Valid()
      modifies this, pool
      ensures Valid() && contents == []
      ensures forall i :: 0 <= i < pool.Length ==> pool[i] == zero
    {
      w, r, count, contents := 0, 0, 0, [];
      forall i | 0 <= i < pool.Length {
        pool[i] := zero;
      }
    }

    /** Drops elements at the front; -1 for none. */
    method Cull(n: nat) returns (culled: int)
      requires Valid()
      modifies this`r, this`count, this`contents
      ensures Valid() && culled == if n == 0 then -1 else Min(n, |old(contents)|)
      ensures contents == old(contents)[Min(n, |old(contents)|)..]
    {
      if n == 0 {
        return -1;
      }
      var safe := Min(n, count);
      WrapIsMod(r + safe, capacity);
      r := (r + safe) % capacity;
      count, contents := count - safe, contents[safe..];
      culled := safe;
    }

    /** Adds an element at the end, if there is room. */
    method Insert(d: T) returns (code: int)
      requires Valid()
      modifies this`w, this`count, this`contents, pool
      ensures Valid() && code == if |old(contents)| < capacity then 0 else -1
      ensures contents == if code == 0 then old(contents) + [d] else old(contents)
    {
      if count >= capacity {
        return -1;
      }
      pool[w] := d;
      WrapIsMod(w + 1, capacity);
      w := (w + 1) % capacity;
      count, contents := count + 1, contents + [d];
      code := 0;
    }

    /** Adds as many elements as there is room for; -1 if there are none or there is no room. */
    method InsertMany(d: seq<T>) returns (taken: int)
      requires Valid()
      modifies this`w, this`count, this`contents, pool
      ensures Valid() && var n := Min(|d|, capacity - |old(contents)|);
        taken == (if n == 0 then -1 else n) && contents == old(contents) + d[..n]
    {
      if |d| == 0 || count >= capacity {
        assert contents + d[..0] == contents;
        return -1;
      }
      var toTake := Min(|d|, capacity - count);
      taken := 0;
      while taken < toTake
        invariant 0 <= taken <= toTake && Valid() && contents == old(contents) + d[..taken]
      {
        assert d[..taken + 1] == d[..taken] + [d[taken]];
        var code := Insert(d[taken]);
        taken := taken + 1;
      }
    }

    /** Is an element in the ring? */
    method Contains(d: T) returns (found: bool)
      requires Valid()
      ensures found <==> d in contents
    {
      found := false;
      var cur, tested := r, 0;
      while !found && tested < count
        invariant 0 <= tested <= count && cur == Wrap(r + tested, capacity)
        invariant if found then d in contents else d !in contents[..tested]
        decreases !found, count - tested
      {
        assert contents[..tested + 1] == contents[..tested] + [contents[tested]];
        if pool[cur] == d {
          found := true;
          assert contents[tested] == d;
        }
        WrapIsMod(cur + 1, capacity);
        cur := (cur + 1) % capacity;
        tested := tested + 1;
      }
      assert contents[..count] == contents;
    }

    /** Takes the first element; zero if there is none. */
    method Get() returns (d: T)
      requires Valid()
      modifies this`r, this`count, this`contents
      ensures Valid()
      ensures if old(contents) == [] then d == zero && contents == []
              else d == old(contents)[0] && contents == old(contents)[1..]
    {
      if count == 0 {
        return zero;
      }
      d := pool[r];
      WrapIsMod(r + 1, capacity);
      r := (r + 1) % capacity;
      count, contents := count - 1, contents[1..];
    }

    /** The element at an index, counted from the first; what lies there if the index is not in use. */
    method Peek(idx: nat) returns (d: T)
      requires Valid()
      ensures d == if count == 0 || idx > capacity then zero else pool[(r + idx) % capacity]
      ensures idx < |contents| ==> d == contents[idx]
    {
      if count == 0 || idx > capacity {
        return zero;
      }
      d := pool[(r + idx) % capacity];
      if idx < count {
        WrapIsMod(r + idx, capacity);
      }
    }

    /** Copies the first elements, at most n; nothing is removed. */
    method PeekMany(n: nat) returns (code: int, d: seq<T>)
      requires Valid()
      ensures d == contents[..Min(n, |contents|)] && code == if n == 0 then -1 else |d|
    {
      if n == 0 {
        return -1, [];
      }
      var length := Min(count, n);
      d := [];
      for i := 0 to length
        invariant d == contents[..i]
      {
        var x := Peek(i);
        d := d + [x];
      }
      code := length;
    }

    /** Takes the first elements, at most n. */
    method GetMany(n: nat) returns (code: int, d: seq<T>)
      requires Valid()
      modifies this`r, this`count, this`contents
      ensures Valid() && var k := Min(n, |old(contents)|);
        d == old(contents)[..k] && contents == old(contents)[k..] && code == if n == 0 then -1 else k
    {
      if n == 0 {
        return -1, [];
      }
      var length := Min(count, n);
      d := [];
      for i := 0 to length
        invariant Valid() && d == old(contents)[..i] && contents == old(contents)[i..]
      {
        var x := Get();
        d := d + [x];
      }
      code := length;
    }
  }
}
