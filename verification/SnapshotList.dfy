/** The live snapshots: a circular doubly linked list around a dummy head, oldest first. */
module SnapshotList {
  class Snapshot {
    const sequenceNumber: nat
    var prev: Snapshot?
    var next: Snapshot?

    constructor (sequenceNumber: nat)
      ensures this.sequenceNumber == sequenceNumber
    {
      this.sequenceNumber := sequenceNumber;
      prev, next := null, null;
    }
  }

  class SnapshotList {
    const head: Snapshot
    ghost var live: seq<Snapshot>  // in list order

    /** The members in list order, closed to a circle by the head on both sides. */
    ghost function Ring(live: seq<Snapshot>): (ring: seq<Snapshot>) {
      [head] + live + [head]
    }

    /** Neighbours on the circle point at each other. */
    ghost predicate Linked(live: seq<Snapshot>)
      reads head, live
    {
      forall i :: 0 <= i <= |live| ==>
        Ring(live)[i].next == Ring(live)[i + 1] && Ring(live)[i + 1].prev == Ring(live)[i]
    }

    ghost predicate Distinct(live: seq<Snapshot>) {
      head !in live && forall i, j :: 0 <= i < j < |live| ==> live[i] != live[j]
    }

    ghost predicate Ordered(live: seq<Snapshot>) {
      forall i, j :: 0 <= i < j < |live| ==> live[i].sequenceNumber <= live[j].sequenceNumber
    }

    ghost predicate Valid()
      reads this, head, live
    {
      Distinct(live) && Linked(live) && Ordered(live)
    }

    constructor ()
      ensures Valid() && live == [] && fresh(head)
    {
      head := new Snapshot(0);
      live := [];
      new;
      head.prev, head.next := head, head;
    }

    predicate Empty()
      reads head
    {
      head.next == head
    }

    lemma EmptyMeansNoneLive()
      requires Valid()
      ensures Empty() <==> live == []
    {
      assert Ring(live)[0].next == Ring(live)[1];
    }

    /** The oldest live snapshot: no live snapshot has a smaller sequence number. */
    method Oldest() returns (s: Snapshot)
      requires Valid() && live != []
      ensures s == live[0]
      ensures forall t :: t in live ==> s.sequenceNumber <= t.sequenceNumber
    {
      assert Ring(live)[0].next == Ring(live)[1];
      s := head.next;
    }

    /** The newest live snapshot: no live snapshot has a greater sequence number. */
    method Newest() returns (s: Snapshot)
      requires Valid() && live != []
      ensures s == live[|live| - 1]
      ensures forall t :: t in live ==> t.sequenceNumber <= s.sequenceNumber
    {
      assert Ring(live)[|live| + 1].prev == Ring(live)[|live|];
      s := head.prev;
    }

    /** Appends a snapshot; sequence numbers of snapshots never go down. */
    method New(sequenceNumber: nat) returns (s: Snapshot)
      requires Valid()
      requires live == [] || live[|live| - 1].sequenceNumber <= sequenceNumber
      modifies this, head, live
      ensures Valid() && fresh(s) && s.sequenceNumber == sequenceNumber
      ensures live == old(live) + [s]
    {
      ghost var n := |live|;
      assert Ring(live)[n + 1].prev == Ring(live)[n];
      s := new Snapshot(sequenceNumber);
      s.next := head;
      s.prev := head.prev;
      s.prev.next := s;
      s.next.prev := s;
      ghost var live0 := live;
      live := live + [s];
      forall i | 0 <= i <= |live|
        ensures Ring(live)[i].next == Ring(live)[i + 1] && Ring(live)[i + 1].prev == Ring(live)[i]
      {
        if i < n {
          assert old(Ring(live0)[i].next) == Ring(live0)[i + 1];
          assert old(Ring(live0)[i + 1].prev) == Ring(live0)[i];
        }
      }
    }

    /** Removes one member and leaves the others, in order. */
    method Delete(s: Snapshot) returns (ghost at: nat)
      requires Valid() && s in live
      modifies this, head, live
      ensures at < |old(live)| && s == old(live)[at]
      ensures Valid() && live == old(live)[..at] + old(live)[at + 1..]
    {
      at :| at < |live| && s == live[at];
      Unlink(s, at);
    }

    /** The circle without member `at` is the old circle with that place skipped. */
    lemma RingWithout(all: seq<Snapshot>, at: nat, i: nat)
      requires at < |all| && i <= |all|
      ensures Ring(all[..at] + all[at + 1..])[i] == Ring(all)[if i <= at then i else i + 1]
    {
    }

    /** Places on the circle hold different nodes, but for the head, which closes it. */
    lemma RingDistinct(all: seq<Snapshot>, i: nat, j: nat)
      requires Distinct(all) && i < j <= |all| + 1 && (i, j) != (0, |all| + 1)
      ensures Ring(all)[i] != Ring(all)[j]
    {
    }

    /** Places other than that of member `at` and the one before it differ from its neighbours. */
    lemma OtherPlaces(all: seq<Snapshot>, at: nat, i: nat)
      requires Distinct(all) && at < |all| && i <= |all| && i != at && i != at + 1
      ensures Ring(all)[i] != Ring(all)[at] && Ring(all)[i + 1] != Ring(all)[at + 2]
    {
      if i < at {
        RingDistinct(all, i, at);
        RingDistinct(all, i + 1, at + 2);
      } else {
        RingDistinct(all, at, i);
        RingDistinct(all, at + 2, i + 1);
      }
    }

    /** The circle is closed once the neighbours of member `at` point at each other. */
    lemma ClosedWithout(all: seq<Snapshot>, at: nat)
      requires at < |all| && Ring(all)[at].next == Ring(all)[at + 2] && Ring(all)[at + 2].prev == Ring(all)[at]
      requires forall i :: 0 <= i <= |all| && i != at && i != at + 1 ==>
                 Ring(all)[i].next == Ring(all)[i + 1] && Ring(all)[i + 1].prev == Ring(all)[i]
      ensures Linked(all[..at] + all[at + 1..])
    {
      var rest := all[..at] + all[at + 1..];
      forall i | 0 <= i <= |rest|
        ensures Ring(rest)[i].next == Ring(rest)[i + 1] && Ring(rest)[i + 1].prev == Ring(rest)[i]
      {
        RingWithout(all, at, i);
        RingWithout(all, at, i + 1);
      }
    }

    /** Makes the neighbours of member `at` point at each other. */
    method Unlink(s: Snapshot, ghost at: nat)
      requires Valid() && at < |live| && s == live[at]
      modifies this, head, live
      ensures Valid() && live == old(live)[..at] + old(live)[at + 1..]
    {
      ghost var live0 := live;
      assert Ring(live)[at + 1] == s;
      assert s.prev == Ring(live)[at] && s.next == Ring(live)[at + 2];
      s.prev.next := s.next;
      s.next.prev := s.prev;
      forall i | 0 <= i <= |live0| && i != at && i != at + 1
        ensures Ring(live0)[i].next == Ring(live0)[i + 1] && Ring(live0)[i + 1].prev == Ring(live0)[i]
      {
        OtherPlaces(live0, at, i);
        assert old(Ring(live0)[i].next) == Ring(live0)[i + 1] && old(Ring(live0)[i + 1].prev) == Ring(live0)[i];
      }
      live := live[..at] + live[at + 1..];
      ClosedWithout(live0, at);
    }
  }
}
