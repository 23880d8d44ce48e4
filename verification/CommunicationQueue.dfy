/** The ring of the shared queue, its three indices and its slots. */
module CommunicationQueue {
  import Division

  datatype Ring<T> = Ring(head: nat, tail: nat, size: nat, item: seq<T>)

  ghost predicate Ok<T>(r: Ring<T>) {
    |r.item| > 0 && r.head < |r.item| && r.size <= |r.item| && r.tail == (r.head + r.size) % |r.item|
  }

  /** The queued values, oldest first. */
  ghost function Values<T>(r: Ring<T>): (s: seq<T>)
    requires |r.item| > 0
    ensures |s| == r.size
  {
    seq(r.size, i requires 0 <= i < r.size => r.item[(r.head + i) % |r.item|])
  }

  /** Two places of a ring that are less than its length apart are different slots. */
  lemma PlacesDiffer(head: nat, i: nat, j: nat, n: nat)
    requires i < j < i + n
    ensures (head + i) % n != (head + j) % n
  {
    var a, d := head + i, j - i;
    var r := a % n + d;
    if r < n {
      Division.Unique(a + d, a / n, r, n);
    } else {
      Division.Unique(a + d, a / n + 1, r - n, n);
    }
  }

  lemma NextPlace(head: nat, i: nat, n: nat)
    requires n > 0
    ensures ((head + 1) % n + i) % n == (head + (i + 1)) % n
  {
    var a := (head + 1) % n + i;
    var q := (head + 1) / n;
    Division.Unique(head + (i + 1), q + a / n, a % n, n);
  }

  lemma PushValues<T>(r: Ring<T>, v: T)
    requires Ok(r) && r.size < |r.item|
    ensures var r' := Ring(r.head, (r.tail + 1) % |r.item|, r.size + 1, r.item[r.tail := v]);
      Ok(r') && Values(r') == Values(r) + [v]
  {
    var n := |r.item|;
    var r' := Ring(r.head, (r.tail + 1) % n, r.size + 1, r.item[r.tail := v]);
    Division.Unique(r.head + r.size + 1, (r.head + r.size) / n + (r.tail + 1) / n, (r.tail + 1) % n, n);
    forall i | 0 <= i < r.size
      ensures Values(r')[i] == Values(r)[i]
    {
      PlacesDiffer(r.head, i, r.size, n);
    }
    assert Values(r') == Values(r) + [v];
  }

  lemma PopValues<T>(r: Ring<T>)
    requires Ok(r) && r.size > 0
    ensures var r' := Ring((r.head + 1) % |r.item|, r.tail, r.size - 1, r.item);
      Ok(r') && Values(r) == [r.item[r.head]] + Values(r')
  {
    var n := |r.item|;
    var r' := Ring((r.head + 1) % n, r.tail, r.size - 1, r.item);
    NextPlace(r.head, r.size - 1, n);
    Division.Unique(r.head, 0, r.head, n);
    forall i | 0 <= i < r.size - 1
      ensures Values(r')[i] == Values(r)[i + 1]
    {
      NextPlace(r.head, i, n);
    }
    assert Values(r) == [r.item[r.head]] + Values(r');
  }

  /** The queue in shared memory, used by one process at a time. */
  class Queue<T> {
    const capacity: nat
    var head: nat
    var tail: nat
    var size: nat
    const item: array<T>

    ghost function Snapshot(): Ring<T>
      reads this, item
    {
      Ring(head, tail, size, item[..])
    }

    ghost predicate Valid()
      reads this, item
    {
      item.Length == capacity && Ok(Snapshot())
    }

    ghost function Contents(): seq<T>
      requires Valid()
      reads this, item
    {
      Values(Snapshot())
    }

    constructor (capacity: nat, zero: T)
      requires capacity > 0
      ensures Valid() && this.capacity == capacity && Contents() == [] && fresh(item)
    {
      this.capacity := capacity;
      head, tail, size := 0, 0, 0;
      item := new T[capacity](_ => zero);
    }

    method Front() returns (v: T)
      requires Valid() && Contents() != []
      ensures v == Contents()[0]
    {
      PopValues(Snapshot());
      v := item[head];
    }

    method Pop()
      requires Valid() && Contents() != []
      modifies this
      ensures Valid() && Contents() == old(Contents())[1..]
    {
      PopValues(Snapshot());
      head := (head + 1) % capacity;
      size := size - 1;
    }

    method Push(v: T)
      requires Valid() && |Contents()| < capacity
      modifies this, item
      ensures Valid() && Contents() == old(Contents()) + [v]
    {
      PushValues(Snapshot(), v);
      item[tail] := v;
      tail := (tail + 1) % capacity;
      size := size + 1;
    }
  }
}
