/** The kernel's queue of pointers, a ring that grows, and its array of pointers. */
module Rings {
  class Ring<T(0)> {
    var size: nat
    var nextwrite: nat
    var nextread: nat
    var data: array<T>

    ghost predicate Valid()
      reads this
    {
      size > 0 && data.Length == size && nextwrite < size && nextread < size
    }

    /** The items, the next to be read first. */
    ghost function Items(): (s: seq<T>)
      requires Valid()
      reads this, data
      ensures |s| < size
    {
      Unroll(data[..], nextread, nextwrite)
    }

    constructor (size: nat)
      requires size > 0
      ensures Valid() && Items() == [] && fresh(data) && this.size == size
    {
      this.size, nextread, nextwrite := size, 0, 0;
      data := new T[size];
    }

    method Empty() returns (r: bool)
      requires Valid()
      ensures r <==> Items() == []
    {
      return nextwrite == nextread;
    }

    ghost predicate Full()
      requires Valid()
      reads this
    {
      Next(nextwrite, size) == nextread
    }

    /** Growing puts every item in a larger ring, in order. Each fits, so adding it does not grow the ring again. */
    method Grow(targetsize: nat)
      requires Valid() && targetsize > size
      modifies this, data
      ensures Valid() && Items() == old(Items()) && size >= targetsize && fresh(data)
      ensures !Full()
      decreases 1
    {
      hide Unroll;
      ghost var items := Items();
      var olddata, onr, onw, osize := data, nextread, nextwrite, size;
      var nsize := size;
      while nsize < targetsize
        invariant nsize >= osize
        decreases targetsize - nsize
      {
        nsize := nsize * 2;
      }
      var ndata := new T[nsize];
      size, data, nextread, nextwrite := nsize, ndata, 0, 0;
      ghost var od := olddata[..];
      UnrollNone(data[..], 0);
      assert [] + items == items;
      var i: nat := onr;
      while i != onw
        invariant Valid() && size == nsize && fresh(data) && data != olddata && i < osize && olddata[..] == od
        invariant items == Items() + Unroll(od, i, onw)
        invariant nextread == 0 && nextwrite == |Items()|
        decreases |Unroll(od, i, onw)|
      {
        UnrollStep(od, i, onw);
        AddTail(olddata[i]);
        NextMod(i, osize);
        i := (i + 1) % osize;
      }
      UnrollNone(od, onw);
    }

    method Preallocate(size: nat)
      requires Valid()
      modifies this, data
      ensures Valid() && Items() == old(Items()) && this.size >= size && (data == old(data) || fresh(data))
    {
      if size > this.size {
        Grow(size);
      }
    }

    /** Add an item at the end. The ring grows exactly if it holds one item less than it has cells. */
    method AddTail(ptr: T)
      requires Valid()
      modifies this, data
      ensures Valid() && Items() == old(Items()) + [ptr] && (data == old(data) || fresh(data))
      ensures size == old(size) <==> |old(Items())| + 1 < old(size)
      ensures old(!Full()) ==>
        size == old(size) && data == old(data) && nextread == old(nextread) && nextwrite == Next(old(nextwrite), size)
      decreases if Full() then 2 else 0
    {
      RoomLeft(data[..], nextread, nextwrite);
      NextMod(nextwrite, size);
      var nextnext := (nextwrite + 1) % size;
      if nextnext == nextread {
        Grow(size + 1);
        NextMod(nextwrite, size);
        nextnext := (nextwrite + 1) % size;
      }
      UnrollAdd(data[..], nextread, nextwrite, ptr);
      data[nextwrite] := ptr;
      nextwrite := nextnext;
    }

    method RemHead() returns (ret: T)
      requires Valid() && Items() != []
      modifies this`nextread
      ensures Valid() && [ret] + Items() == old(Items())
    {
      UnrollStep(data[..], nextread, nextwrite);
      NextMod(nextread, size);
      ret := data[nextread];
      nextread := (nextread + 1) % size;
    }
  }

  /** The kernel's array of pointers. */
  class PtrArray<T(0)> {
    var num: nat
    var max: nat
    var v: array<T>

    ghost predicate Valid()
      reads this
    {
      num <= max == v.Length
    }

    ghost function Items(): (s: seq<T>)
      requires Valid()
      reads this, v
    {
      v[..num]
    }

    constructor ()
      ensures Valid() && Items() == [] && fresh(v)
    {
      num, max := 0, 0;
      v := new T[0];
    }

    method GetNum() returns (n: nat)
      requires Valid()
      ensures n == |Items()|
    {
      return num;
    }

    method GetGuy(index: nat) returns (guy: T)
      requires Valid() && index < |Items()|
      ensures guy == Items()[index]
    {
      return v[index];
    }

    method Preallocate(nguys: nat)
      requires Valid()
      modifies this
      ensures Valid() && Items() == old(Items()) && max >= nguys && fresh(v)
    {
      var newmax := max;
      while nguys > newmax
        invariant newmax >= max
        decreases nguys - newmax
      {
        newmax := (newmax + 1) * 2;
      }
      var newv := new T[newmax];
      for i := 0 to num
        invariant unchanged(this) && unchanged(v) && newv[..i] == v[..i]
      {
        newv[i] := v[i];
      }
      max := newmax;
      v := newv;
    }

    /** Growing keeps what is there; shrinking to nothing lets a large table go. */
    method SetSize(nguys: nat)
      requires Valid()
      modifies this
      ensures Valid() && num == nguys && (v == old(v) || fresh(v))
      ensures nguys >= old(num) ==> Items()[..old(num)] == old(Items())
      ensures nguys <= old(num) ==> Items() == old(Items())[..nguys]
    {
      if nguys > max {
        Preallocate(nguys);
      } else if nguys == 0 && max > 16 {
        v := new T[0];
        max := 0;
      }
      num := nguys;
    }

    method Add(guy: T)
      requires Valid()
      modifies this, v
      ensures Valid() && Items() == old(Items()) + [guy] && (v == old(v) || fresh(v))
    {
      var ix := num;
      SetSize(ix + 1);
      v[ix] := guy;
    }

    method Remove(index: nat)
      requires Valid() && index < |Items()|
      modifies this`num, v
      ensures Valid() && Items() == old(Items())[..index] + old(Items())[index + 1..]
    {
      var nmove := num - (index + 1);
      ghost var s := v[..];
      for k := 0 to nmove
        invariant num == old(num)
        invariant v[..index + k] == s[..index] + s[index + 1..index + 1 + k] && v[index + k..] == s[index + k..]
      {
        v[index + k] := v[index + k + 1];
      }
      num := num - 1;
    }
  }

  /** From i, going round, up to but not including j. */
  ghost function Unroll<T>(d: seq<T>, i: nat, j: nat): (s: seq<T>)
    requires i < |d| && j < |d|
    ensures |s| == if i <= j then j - i else j + |d| - i
  {
    if i <= j then d[i..j] else d[i..] + d[..j]
  }

  function Next(i: nat, n: nat): nat {
    if i + 1 == n then 0 else i + 1
  }

  lemma NextMod(i: nat, n: nat)
    requires i < n
    ensures (i + 1) % n == Next(i, n) < n
  {
    if i + 1 < n {
      SmallMod(i + 1, n);
    }
  }

  lemma SmallMod(a: nat, n: nat)
    requires a < n
    ensures a % n == a
  {
  }

  /** A ring has room for one item less than its size. */
  lemma RoomLeft<T>(d: seq<T>, i: nat, j: nat)
    requires i < |d| && j < |d|
    ensures |Unroll(d, i, j)| < |d| && (Next(j, |d|) == i <==> |Unroll(d, i, j)| == |d| - 1)
  {
  }

  lemma UnrollNone<T>(d: seq<T>, i: nat)
    requires i < |d|
    ensures Unroll(d, i, i) == []
  {
  }

  lemma UnrollStep<T>(d: seq<T>, i: nat, j: nat)
    requires i < |d| && j < |d| && i != j
    ensures Next(i, |d|) < |d| && Unroll(d, i, j) == [d[i]] + Unroll(d, Next(i, |d|), j)
  {
  }

  lemma UnrollAdd<T>(d: seq<T>, i: nat, j: nat, x: T)
    requires i < |d| && j < |d| && Next(j, |d|) != i
    ensures Next(j, |d|) < |d| && Unroll(d[j := x], i, Next(j, |d|)) == Unroll(d, i, j) + [x]
  {
  }
}
