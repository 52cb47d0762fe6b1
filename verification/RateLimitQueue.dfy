/** The per-key queue of accepted requests: a singly linked chain with head, tail and length. */
module RateLimitQueue {

  /** The time stamps that are less than `duration` old, in order. */
  function Unexpired(stamps: seq<int>, now: int, duration: int): seq<int> {
    if stamps == [] then []
    else (if now - stamps[0] < duration then [stamps[0]] else []) + Unexpired(stamps[1..], now, duration)
  }

  ghost predicate Ordered(stamps: seq<int>) {
    forall i, j :: 0 <= i < j < |stamps| ==> stamps[i] <= stamps[j]
  }

  function DropExpired(stamps: seq<int>, now: int, duration: int): seq<int> {
    if stamps != [] && now - stamps[0] >= duration then DropExpired(stamps[1..], now, duration) else stamps
  }

  /** What `removeExpired` leaves, on any chain: an early return, the whole-queue shortcut on
      the tail, and otherwise a scan from the head that the tail stops. */
  function AfterRemoveExpired(stamps: seq<int>, now: int, duration: int): seq<int> {
    if stamps == [] || now - stamps[0] < duration then stamps
    else if now - stamps[|stamps| - 1] >= duration then []
    else DropExpired(stamps, now, duration)
  }

  lemma {:induction false} NoneUnexpired(stamps: seq<int>, now: int, duration: int)
    requires forall i :: 0 <= i < |stamps| ==> now - stamps[i] >= duration
    ensures Unexpired(stamps, now, duration) == []
  {
    if stamps != [] {
      NoneUnexpired(stamps[1..], now, duration);
    }
  }

  lemma {:induction false} AllUnexpired(stamps: seq<int>, now: int, duration: int)
    requires forall i :: 0 <= i < |stamps| ==> now - stamps[i] < duration
    ensures Unexpired(stamps, now, duration) == stamps
  {
    if stamps != [] {
      AllUnexpired(stamps[1..], now, duration);
    }
  }

  lemma {:induction false} DropExpiredKeepsUnexpired(stamps: seq<int>, now: int, duration: int)
    requires Ordered(stamps)
    ensures DropExpired(stamps, now, duration) == Unexpired(stamps, now, duration)
  {
    if stamps != [] {
      if now - stamps[0] >= duration {
        DropExpiredKeepsUnexpired(stamps[1..], now, duration);
      } else {
        AllUnexpired(stamps, now, duration);
      }
    }
  }

  /** On a time-ordered queue `removeExpired`, shortcut included, keeps exactly the requests
      that are still inside the window. */
  lemma RemoveExpiredKeepsExactlyUnexpired(stamps: seq<int>, now: int, duration: int)
    requires Ordered(stamps)
    ensures AfterRemoveExpired(stamps, now, duration) == Unexpired(stamps, now, duration)
  {
    if stamps == [] {
    } else if now - stamps[0] < duration {
      AllUnexpired(stamps, now, duration);
    } else if now - stamps[|stamps| - 1] >= duration {
      NoneUnexpired(stamps, now, duration);
    } else {
      DropExpiredKeepsUnexpired(stamps, now, duration);
    }
  }

  /** One accepted request. */
  class Request {
    var next: Request?
    const timestamp: int
    ghost const owner: Queue

    constructor (timestamp: int, ghost owner: Queue)
      ensures this.timestamp == timestamp && next == null && this.owner == owner
    {
      this.timestamp := timestamp;
      this.owner := owner;
      next := null;
    }
  }

  class Queue {
    var head: Request?
    var tail: Request?
    var length: int
    ghost var nodes: seq<Request>
    ghost var stamps: seq<int>

    /** `nodes` is the chain from head to tail, owned by this queue, with `stamps` in it. */
    ghost predicate Valid()
      reads this, nodes
    {
      && length == |nodes|
      && head == (if nodes == [] then null else nodes[0])
      && tail == (if nodes == [] then null else nodes[|nodes| - 1])
      && (forall i :: 0 <= i < |nodes| - 1 ==> nodes[i].next == nodes[i + 1])
      && (nodes != [] ==> nodes[|nodes| - 1].next == null)
      && (forall i, j :: 0 <= i < j < |nodes| ==> nodes[i] != nodes[j])
      && (forall n :: n in nodes ==> n.owner == this)
      && |stamps| == |nodes|
      && (forall i :: 0 <= i < |nodes| ==> nodes[i].timestamp == stamps[i])
    }

    constructor ()
      ensures Valid() && nodes == [] && stamps == []
    {
      head, tail, length := null, null, 0;
      nodes, stamps := [], [];
    }

    lemma TailIsLast()
      requires Valid() && nodes != []
      ensures tail == nodes[|nodes| - 1]
    {
    }

    method Append(timestamp: int)
      requires Valid()
      modifies this, nodes
      ensures Valid() && stamps == old(stamps) + [timestamp]
      ensures |nodes| == |old(nodes)| + 1 && nodes[..|old(nodes)|] == old(nodes) && fresh(nodes[|old(nodes)|])
    {
      var request := new Request(timestamp, this);
      if tail == null {
        head := request;
        tail := request;
      } else {
        tail.next := request;
        tail := request;
      }
      length := length + 1;
      nodes, stamps := nodes + [request], stamps + [timestamp];
    }

    method RemoveExpired(now: int, duration: int)
      requires Valid()
      modifies this, nodes
      ensures Valid() && stamps == AfterRemoveExpired(old(stamps), now, duration)
      ensures |nodes| <= |old(nodes)| && nodes == old(nodes)[|old(nodes)| - |nodes|..]
    {
      if head == null || now - head.timestamp < duration {
        return;
      }
      if now - tail.timestamp >= duration {
        Clear();
        return;
      }
      ghost var all, were := nodes, stamps;
      ghost var dropped := 0;
      while now - head.timestamp >= duration
        invariant 0 <= dropped < |all| && nodes == all[dropped..] && Valid()
        invariant stamps == were[dropped..] && were[|were| - 1] == all[|all| - 1].timestamp
        invariant DropExpired(were, now, duration) == DropExpired(stamps, now, duration)
        decreases |nodes|
      {
        DropHead();
        dropped := dropped + 1;
      }
    }

    method DropHead()
      requires Valid() && |nodes| > 1
      modifies this, head
      ensures Valid() && nodes == old(nodes)[1..] && stamps == old(stamps)[1..]
    {
      var expired := head;
      assert forall i :: 0 < i < |nodes| ==> nodes[i] != expired;
      assert expired.next == nodes[1];
      head := expired.next;
      expired.next := null;
      length := length - 1;
      nodes, stamps := nodes[1..], stamps[1..];
    }

    method Clear()
      modifies this
      ensures Valid() && nodes == [] && stamps == []
    {
      head, tail, length := null, null, 0;
      nodes, stamps := [], [];
    }
  }
}
