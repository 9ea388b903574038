/** The ring buffer of report results: an array that always holds the most recent
    pushes. */
module RingBuffer {

  /** The last `size` elements of `log`, or all of it. */
  function Latest<T>(log: seq<T>, size: nat): seq<T> {
    if |log| <= size then log else log[|log| - size..]
  }

  /** There are `size` of them once there were as many, and they are the last ones, in order. */
  lemma LatestAreLast<T>(log: seq<T>, size: nat)
    ensures var kept := Latest(log, size);
      && |kept| <= size && |kept| <= |log| && (|kept| == size || |kept| == |log|)
      && forall i :: 0 <= i < |kept| ==> kept[i] == log[|log| - |kept| + i]
  {
  }

  /** Keeping the latest after each push is keeping the latest of all pushes. */
  lemma LatestOfLatest<T>(log: seq<T>, v: T, size: nat)
    ensures Latest(Latest(log, size) + [v], size) == Latest(log + [v], size)
  {
  }

  lemma QuotientIsUnique(q: int, r: nat, s: int, t: nat, size: nat)
    requires size * q + r == size * s + t && r < size && t < size
    ensures q == s && r == t
  {
    assert size * (q - s) == t - r;
    assert q - s >= 1 ==> size * (q - s) >= size;
    assert q - s <= -1 ==> size * (q - s) <= 0 - size;
  }

  lemma Wrapped(start: nat, i: nat, size: nat)
    requires start < size && i <= size
    ensures (start + i) % size == Slot(start, i, size) < size
  {
    var q, r := (start + i) / size, (start + i) % size;
    var carry := if start + i < size then 0 else 1;
    QuotientIsUnique(q, r, carry, Slot(start, i, size), size);
  }

  /** Where the element `i` places after `start` sits, for a start and an `i` in range. */
  function Slot(start: nat, i: nat, size: nat): nat {
    if start + i < size then start + i else start + i - size
  }

  /** The index arithmetic of the buffer. */
  method Wrap(start: nat, i: nat, size: nat) returns (k: nat)
    requires start < size && i <= size
    ensures k == Slot(start, i, size) < size
  {
    Wrapped(start, i, size);
    k := (start + i) % size;
  }

  class RingBuffer<T(0)> {
    var data: array<T>
    var size: nat
    var start: nat
    var count: nat
    /** Every value ever pushed, oldest first. */
    ghost var log: seq<T>

    ghost predicate InRange()
      reads this
    {
      0 < size && data.Length == size && start < size && count <= size
    }

    function At(i: nat): T
      requires InRange() && i < count
      reads this, data
    {
      data[Slot(start, i, size)]
    }

    ghost predicate Valid()
      reads this, data
    {
      && InRange()
      && count == |Latest(log, size)|
      && forall i :: 0 <= i < count ==> At(i) == Latest(log, size)[i]
    }

    constructor (size: nat)
      requires size > 0
      ensures Valid() && this.size == size && log == [] && fresh(data)
    {
      data := new T[size];
      this.size, start, count, log := size, 0, 0, [];
    }

    method Push(v: T)
      requires Valid()
      modifies this`start, this`count, this`log, data
      ensures Valid() && log == old(log) + [v]
    {
      if count < size {
        Append(v);
      } else {
        Overwrite(v);
      }
    }

    /** There is room: store after the newest element. */
    method Append(v: T)
      requires Valid() && count < size
      modifies this`count, this`log, data
      ensures Valid() && log == old(log) + [v]
    {
      var next := Wrap(start, count, size);
      assert forall i :: 0 <= i < count ==> Slot(start, i, size) != next;
      data[next] := v;
      count := count + 1;
      log := log + [v];
    }

    /** There is none: replace the oldest element and make the next one the oldest. */
    method Overwrite(v: T)
      requires Valid() && count == size
      modifies this`start, this`log, data
      ensures Valid() && log == old(log) + [v]
    {
      ghost var kept, was := Latest(log, size), start;
      data[start] := v;
      start := Wrap(start, 1, size);
      log := log + [v];
      assert Latest(log, size) == kept[1..] + [v];
      forall i | 0 <= i < count
        ensures At(i) == Latest(log, size)[i]
      {
        if i + 1 < size {
          assert Slot(start, i, size) == Slot(was, i + 1, size) != was;
          assert old(At(i + 1)) == kept[i + 1];
        } else {
          assert Slot(start, i, size) == was;
        }
      }
    }

    /** The most recent pushes, oldest first. */
    method Values() returns (out: array<T>)
      requires Valid()
      ensures out[..] == Latest(log, size)
      ensures out.Length == if |log| < size then |log| else size
      ensures forall i :: 0 <= i < out.Length ==> out[i] == log[|log| - out.Length + i]
    {
      out := new T[count];
      var i := 0;
      while i < count
        invariant 0 <= i <= count
        invariant forall j :: 0 <= j < i ==> out[j] == At(j)
      {
        var from := Wrap(start, i, size);
        out[i] := data[from];
        i := i + 1;
      }
    }
  }
}
