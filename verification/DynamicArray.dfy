// dynamic_array<T, EXTRA_CAPACITY>: a growable buffer that refines a sequence,
// keeps a terminator when EXTRA_CAPACITY is 1, and grows at amortised cost.
module DynamicArray {
  class DynamicArray<T(0)> {
    const extra: nat  // EXTRA_CAPACITY
    const zero: T     // value_type{}
    var data: array<T>
    var capacity: nat
    var size: nat
    ghost var copied: nat  // elements moved by reserve so far

    // The elements are inside the buffer. Between size_force and reserve this is
    // all that holds.
    ghost predicate Sized()
      reads this
    {
      data.Length == capacity && size <= capacity
    }

    // Once allocated, there is room for the extra elements behind the size.
    ghost predicate Valid()
      reads this
    {
      Sized() && (capacity > 0 ==> size + extra <= capacity)
    }

    ghost function Contents(): seq<T>
      requires Sized()
      reads this, data
    {
      data[..size]
    }

    ghost predicate Terminated()
      requires Valid()
      reads this, data
    {
      extra == 1 && capacity > 0 ==> data[size] == zero
    }

    // The potential behind the cost bound, and the bound itself.
    ghost predicate Amortised()
      reads this
    {
      copied <= 2 * size && (capacity > 0 ==> copied + 2 * extra <= capacity)
    }

    constructor (extra: nat, zero: T)
      ensures Valid() && Contents() == [] && Terminated() && Amortised() && capacity == 0
      ensures this.extra == extra && this.zero == zero && fresh(data)
    {
      this.extra, this.zero, capacity, size, copied := extra, zero, 0, 0, 0;
      data := new T[0];
    }

    // dynamic_array(count): room for count elements, size 0.
    constructor WithRoom(extra: nat, zero: T, count: nat)
      requires count + extra > 0
      ensures Valid() && Contents() == [] && Terminated() && capacity == count + extra
      ensures this.extra == extra && this.zero == zero && fresh(data)
    {
      this.extra, this.zero, capacity, size, copied := extra, zero, count + extra, 0, 0;
      data := new T[count + extra](_ => zero);
    }

    // reserve: always moves to a fresh, zeroed buffer. A smaller one than before
    // is accepted; the invariant is kept exactly when the extra elements still
    // fit, or when nothing is left allocated.
    method Reserve(newCapacity: nat)
      requires Sized() && size <= newCapacity
      modifies this
      ensures Sized() && fresh(data) && Contents() == old(Contents()) && size == old(size)
      ensures capacity == if old(capacity) == 0 then newCapacity + extra else newCapacity
      ensures Valid() <==> old(capacity) == 0 || newCapacity == 0 || size + extra <= newCapacity
      ensures Valid() ==> Terminated()
      ensures copied == old(copied) + size
    {
      var newCap := newCapacity;
      if capacity == 0 {
        newCap := newCap + extra;
      }
      var newData := new T[newCap](_ => zero);
      ghost var blank := newData[size..];
      CopyFrom(newData, 0, data[..size]);
      assert newData[size..] == blank;
      assert size < newCap ==> newData[size] == blank[0];
      copied := copied + size;
      capacity := newCap;
      data := newData;
    }

    // memcpy of a block that does not overlap its target
    static method CopyFrom(target: array<T>, at: nat, src: seq<T>)
      requires at + |src| <= target.Length
      modifies target
      ensures target[..at + |src|] == old(target[..at]) + src
      ensures target[at + |src|..] == old(target[at + |src|..])
    {
      for i := 0 to |src|
        invariant target[..at + i] == old(target[..at]) + src[..i]
        invariant target[at + i..] == old(target[at + i..])
      {
        target[at + i] := src[i];
      }
    }

    // Room for count more elements; at least doubles when it grows.
    method ReserveForAppend(count: nat)
      requires Valid()
      modifies this
      ensures Valid() && Contents() == old(Contents()) && size == old(size)
      ensures size + count + extra <= capacity
      ensures (data == old(data) && capacity == old(capacity) && copied == old(copied)) || fresh(data)
      ensures old(Amortised()) ==> copied <= 2 * (size + count) && (capacity > 0 ==> copied + 2 * extra <= capacity)
      ensures capacity != old(capacity) ==> 2 * old(capacity) <= capacity
    {
      var needed := size + count + extra;
      if capacity < needed {
        var newCapacity := needed;
        var doubleCapacity := capacity * 2;
        if newCapacity < doubleCapacity {
          newCapacity := doubleCapacity;
        }
        Reserve(newCapacity);
      }
    }

    method PushBack(elem: T)
      requires Valid()
      modifies this, data
      ensures Valid() && Contents() == old(Contents()) + [elem] && Terminated()
      ensures data == old(data) || fresh(data)
      ensures old(Amortised()) ==> Amortised()
    {
      ReserveForAppend(1);
      data[size] := elem;
      size := size + 1;
      if extra == 1 {
        data[size] := zero;
      }
    }

    // append(other, n): copies n + extra elements, the extra ones for the
    // terminator behind them.
    method Append(other: seq<T>, n: nat)
      requires Valid() && n + extra <= |other|
      modifies this, data
      ensures Valid() && Contents() == old(Contents()) + other[..n]
      ensures extra == 1 && other[n] == zero ==> Terminated()
      ensures data == old(data) || fresh(data)
      ensures old(Amortised()) ==> Amortised()
    {
      ReserveForAppend(n);
      ghost var was := Contents();
      CopyFrom(data, size, other[..n + extra]);
      size := size + n;
      TakeShorter(data, size, size + extra, was + other[..n + extra]);
      assert (was + other[..n + extra])[..size] == was + other[..n];
    }

    // What the first elements of a buffer say about fewer of them.
    static lemma TakeShorter(a: array<T>, n: nat, m: nat, s: seq<T>)
      requires n <= m <= a.Length && a[..m] == s
      ensures a[..n] == s[..n] && (n < m ==> a[n] == s[n])
    {
    }

    // assign(other, n): a smaller buffer is replaced, its contents dropped.
    method Assign(other: seq<T>, n: nat)
      requires Valid() && n + extra <= |other|
      modifies this, data
      ensures Valid() && Contents() == other[..n]
      ensures extra == 1 && other[n] == zero ==> Terminated()
      ensures data == old(data) || fresh(data)
      ensures capacity >= old(capacity)
    {
      if n + extra > capacity {
        capacity := n + extra;
        data := new T[capacity](_ => zero);
      }
      CopyFrom(data, 0, other[..n + extra]);
      size := n;
      TakeShorter(data, size, size + extra, other[..n + extra]);
    }

    // size_force, behind a caller that wrote the elements itself.
    method SizeForce(count: nat)
      requires Sized() && count <= capacity
      modifies `size
      ensures Sized() && size == count
    {
      size := count;
    }
  }
}
