/** The limiter object: key index, LRU list and reservation counters over per-key queues. Each
    method is one critical section; `View` is the value-level state it is proved against. The
    instant a method reads from the clock is its `now` parameter. */
module RateLimiter {
  import opened RateLimitQueue
  import RateLimitState

  ghost predicate Distinct<T>(s: seq<T>) {
    forall i, j :: 0 <= i < j < |s| ==> s[i] != s[j]
  }

  /** `list.MoveToFront` on the element at position i. */
  function ToFront<T>(s: seq<T>, i: nat): seq<T>
    requires i < |s|
  {
    [s[i]] + s[..i] + s[i + 1..]
  }

  lemma ToFrontAt<T>(s: seq<T>, i: nat)
    requires i < |s|
    ensures |ToFront(s, i)| == |s|
    ensures forall j :: 0 <= j < |s| ==> ToFront(s, i)[j] == s[if j == 0 then i else if j <= i then j - 1 else j]
  {
  }

  lemma ToFrontKeepsElements<T>(s: seq<T>, i: nat)
    requires i < |s| && Distinct(s)
    ensures Distinct(ToFront(s, i)) && forall x :: x in ToFront(s, i) <==> x in s
  {
    var t := ToFront(s, i);
    ToFrontAt(s, i);
    forall x | x in s ensures x in t {
      var j :| 0 <= j < |s| && s[j] == x;
      assert t[if j == i then 0 else if j < i then j + 1 else j] == x;
    }
  }

  /** A bucket, and at the same time an element of the LRU list while `listed`. */
  class Entry {
    const key: string
    const requests: Queue
    var lastActive: int
    var listed: bool

    constructor (key: string, now: int)
      ensures this.key == key && lastActive == now && listed
      ensures fresh(requests) && requests.Valid() && requests.nodes == [] && requests.stamps == []
    {
      this.key := key;
      lastActive := now;
      listed := true;
      requests := new Queue();
    }

    ghost function Bucket(): RateLimitState.Bucket
      reads this, requests
    {
      RateLimitState.Bucket(key, lastActive, requests.stamps)
    }
  }

  /** The objects that make up a bucket. */
  ghost function Footprint(e: Entry): set<object>
    reads e.requests
  {
    {e, e.requests} + set n | n in e.requests.nodes
  }

  ghost predicate Sound(e: Entry)
    reads e, e.requests, e.requests.nodes
  {
    e.listed && e.requests.Valid()
  }

  /** A bucket none of whose objects changed is as sound as before, with the same objects. */
  twostate lemma SoundUnchanged(e: Entry)
    requires old(Sound(e)) && unchanged(e) && unchanged(e.requests)
    requires forall n :: n in old(e.requests.nodes) ==> unchanged(n)
    ensures Sound(e) && Footprint(e) == old(Footprint(e))
  {
    var nodes := e.requests.nodes;
    forall i | 0 <= i < |nodes| ensures nodes[i].next == old(nodes[i].next) {
      assert nodes[i] in old(e.requests.nodes);
    }
  }

  ghost function Queues(entries: seq<Entry>): set<Queue> {
    set i | 0 <= i < |entries| :: entries[i].requests
  }

  ghost function Buckets(entries: seq<Entry>): (buckets: seq<RateLimitState.Bucket>)
    reads entries, Queues(entries)
    ensures |buckets| == |entries|
    ensures forall i :: 0 <= i < |entries| ==> buckets[i] == entries[i].Bucket()
  {
    seq(|entries|, i requires 0 <= i < |entries| reads entries, Queues(entries) => entries[i].Bucket())
  }

  /** When only the front queue changed, only the front bucket did. */
  twostate lemma OnlyFrontChanged(entries: seq<Entry>)
    requires entries != [] && unchanged(entries[0])
    requires forall i :: 0 < i < |entries| ==> unchanged(entries[i]) && unchanged(entries[i].requests)
    ensures Buckets(entries) == RateLimitState.WithFront(old(Buckets(entries)), entries[0].requests.stamps)
  {
    assert forall i :: 0 < i < |entries| ==> entries[i].Bucket() == old(Buckets(entries))[i];
  }

  lemma BucketsToFront(entries: seq<Entry>, i: nat)
    requires i < |entries|
    ensures Buckets(ToFront(entries, i)) == ToFront(Buckets(entries), i)
  {
    ToFrontAt(entries, i);
    ToFrontAt(Buckets(entries), i);
  }

  lemma TouchMoves(buckets: seq<RateLimitState.Bucket>, key: string, now: int, i: nat)
    requires i < |buckets| && i == RateLimitState.IndexOf(buckets, key)
    ensures RateLimitState.Touch(buckets, key, now) == ToFront(buckets[i := buckets[i].(lastActive := now)], i)
  {
  }

  /** The key index and the LRU list hold the same entries, each under its own key. */
  ghost predicate Indexed(store: map<string, Entry>, lru: seq<Entry>) {
    && Distinct(lru)
    && (forall i :: 0 <= i < |lru| ==> lru[i].key in store && store[lru[i].key] == lru[i])
    && (forall k :: k in store ==> store[k] in lru && store[k].key == k)
  }

  /** No two buckets share a queue. */
  ghost predicate OwnQueues(store: map<string, Entry>) {
    forall j, k :: j in store && k in store && j != k ==> store[j].requests != store[k].requests
  }

  lemma PushIndexed(store: map<string, Entry>, lru: seq<Entry>, entry: Entry)
    requires Indexed(store, lru) && entry.key !in store
    requires OwnQueues(store) && forall k :: k in store ==> store[k].requests != entry.requests
    ensures Indexed(store[entry.key := entry], [entry] + lru) && OwnQueues(store[entry.key := entry])
  {
  }

  lemma MoveIndexed(store: map<string, Entry>, lru: seq<Entry>, i: nat)
    requires Indexed(store, lru) && i < |lru|
    ensures Indexed(store, ToFront(lru, i))
  {
    ToFrontKeepsElements(lru, i);
    assert forall j :: 0 <= j < |lru| ==> ToFront(lru, i)[j] in lru;
  }

  lemma DropIndexed(store: map<string, Entry>, lru: seq<Entry>)
    requires Indexed(store, lru) && lru != []
    ensures Indexed(store - {lru[|lru| - 1].key}, lru[..|lru| - 1])
  {
  }

  class Limiter {
    var store: map<string, Entry>
    var lru: seq<Entry>
    var reservations: map<string, int>
    const expiration: int
    ghost var repr: set<object>

    /** The index and the list hold the same entries, one per key, each with a queue of its own. */
    ghost predicate Valid()
      reads this, repr
      ensures Valid() ==> this in repr
    {
      && this in repr
      && (forall k :: k in store ==> store[k] in repr && store[k].requests in repr)
      && (forall k :: k in store ==> Footprint(store[k]) <= repr && Sound(store[k]))
      && OwnQueues(store)
      && Indexed(store, lru)
    }

    ghost function View(): RateLimitState.State
      reads this, lru, Queues(lru)
    {
      RateLimitState.State(Buckets(lru), reservations)
    }

    constructor (expiration: int)
      ensures Valid() && fresh(repr) && this.expiration == expiration
      ensures View() == RateLimitState.State([], map[])
    {
      store, lru, reservations := map[], [], map[];
      this.expiration := expiration;
      repr := {this};
    }

    method PushFront(entry: Entry)
      requires Valid() && entry.key !in store && Sound(entry)
      requires {entry, entry.requests} !! repr && entry.requests.nodes == []
      modifies this
      ensures Valid() && repr == old(repr) + {entry, entry.requests} && reservations == old(reservations)
      ensures lru == [entry] + old(lru)
    {
      hide Sound; hide Indexed; hide OwnQueues;
      PushIndexed(store, lru, entry);
      lru := [entry] + lru;
      store := store[entry.key := entry];
      repr := repr + {entry, entry.requests};
    }

    method MoveToFront(i: nat)
      requires Valid() && i < |lru|
      modifies this
      ensures Valid() && repr == old(repr) && reservations == old(reservations)
      ensures lru == ToFront(old(lru), i)
    {
      MoveIndexed(store, lru, i);
      lru := ToFront(lru, i);
    }

    /** The position of a key in the list is the position of its bucket. */
    lemma PositionOf(key: string)
      requires Valid()
      ensures var at := RateLimitState.IndexOf(Buckets(lru), key);
              if key in store then at < |lru| && lru[at] == store[key] else at == |lru|
    {
      var at := RateLimitState.IndexOf(Buckets(lru), key);
      if at < |lru| {
        assert lru[at].key == key;
      } else {
        assert forall j :: 0 <= j < |lru| ==> Buckets(lru)[j].key == lru[j].key;
      }
    }

    method SetActive(i: nat, now: int)
      requires Valid() && i < |lru|
      modifies lru[i]
      ensures Valid()
      ensures Buckets(lru) == var was := old(Buckets(lru)); was[i := was[i].(lastActive := now)]
    {
      hide Indexed; hide OwnQueues; hide Queue.Valid;
      Owned(i);
      OthersApart(i);
      lru[i].lastActive := now;
    }

    method TouchExisting(i: nat, now: int)
      requires Valid() && i < |lru|
      modifies this, lru[i]
      ensures Valid() && repr == old(repr) && reservations == old(reservations)
      ensures lru == ToFront(old(lru), i)
      ensures Buckets(lru) == var was := old(Buckets(lru)); ToFront(was[i := was[i].(lastActive := now)], i)
    {
      SetActive(i, now);
      BucketsToFront(lru, i);
      MoveToFront(i);
    }

    method PushNew(key: string, now: int) returns (entry: Entry)
      requires Valid() && key !in store
      modifies this
      ensures Valid() && fresh(repr - old(repr)) && reservations == old(reservations)
      ensures lru == [entry] + old(lru)
      ensures Buckets(lru) == [RateLimitState.Bucket(key, now, [])] + old(Buckets(lru))
    {
      hide Indexed; hide Queue.Valid;
      ghost var was := Buckets(lru);
      entry := new Entry(key, now);
      assert Buckets(lru) == was;
      PushFront(entry);
    }

    method TouchEntry(key: string, now: int) returns (entry: Entry)
      requires Valid()
      modifies repr
      ensures Valid() && fresh(repr - old(repr)) && reservations == old(reservations)
      ensures lru != [] && entry == lru[0]
      ensures Buckets(lru) == RateLimitState.Touch(old(Buckets(lru)), key, now)
    {
      PositionOf(key);
      ghost var was := Buckets(lru);
      if key !in store {
        entry := PushNew(key, now);
      } else {
        entry := store[key];
        var i :| 0 <= i < |lru| && lru[i] == entry;
        TouchMoves(was, key, now, i);
        TouchExisting(i, now);
      }
    }

    lemma Owned(i: nat)
      requires Valid() && i < |lru|
      ensures lru[i] in repr && lru[i].requests in repr && forall n :: n in lru[i].requests.nodes ==> n in repr
      ensures lru[i].requests.length == |lru[i].requests.stamps|
    {
      assert Footprint(store[lru[i].key]) <= repr;
    }

    /** Other buckets are untouched by work on the queue of the i-th one. */
    lemma OthersApart(i: nat)
      requires Valid() && i < |lru|
      ensures lru[i].key in store && store[lru[i].key] == lru[i]
      ensures forall k :: k in store && k != lru[i].key ==>
                && store[k] != lru[i] && store[k].requests != lru[i].requests
                && forall n :: n in store[k].requests.nodes ==> n !in lru[i].requests.nodes
      ensures forall j :: 0 <= j < |lru| && j != i ==> lru[j] != lru[i] && lru[j].requests != lru[i].requests
    {
      forall j | 0 <= j < |lru| && j != i ensures lru[j] != lru[i] && lru[j].requests != lru[i].requests {
        assert lru[j].key != lru[i].key;
      }
    }

    method ExpireFront(now: int, duration: int)
      requires Valid() && lru != []
      modifies lru[0].requests, lru[0].requests.nodes
      ensures Valid()
      ensures Buckets(lru) == var was := old(Buckets(lru));
                RateLimitState.WithFront(was, AfterRemoveExpired(was[0].stamps, now, duration))
    {
      hide Queue.Valid; hide Indexed; hide OwnQueues; hide RateLimitState.WithFront; hide AfterRemoveExpired;
      OthersApart(0);
      var queue := lru[0].requests;
      queue.RemoveExpired(now, duration);
      forall k | k in store ensures Footprint(store[k]) <= repr && Sound(store[k]) {
        if k != lru[0].key {
          SoundUnchanged(store[k]);
        }
      }
      OnlyFrontChanged(lru);
    }

    /** The queue grows by a node that `repr` does not know of yet. */
    method AppendToFrontQueue(stamp: int)
      requires Valid() && lru != []
      modifies lru[0].requests, lru[0].requests.nodes
      ensures forall k :: k in store ==> Footprint(store[k]) <= repr + {lru[0].requests.tail} && Sound(store[k])
      ensures lru[0].requests.tail != null && fresh(lru[0].requests.tail)
      ensures Buckets(lru) == var was := old(Buckets(lru)); RateLimitState.WithFront(was, was[0].stamps + [stamp])
    {
      hide Queue.Valid; hide Indexed; hide OwnQueues; hide RateLimitState.WithFront;
      OthersApart(0);
      var queue := lru[0].requests;
      queue.Append(stamp);
      queue.TailIsLast();
      forall k | k in store ensures Footprint(store[k]) <= repr + {queue.tail} && Sound(store[k]) {
        if k != lru[0].key {
          SoundUnchanged(store[k]);
        }
      }
      OnlyFrontChanged(lru);
    }

    method AppendFront(stamp: int)
      requires Valid() && lru != []
      modifies this, lru[0].requests, lru[0].requests.nodes
      ensures Valid() && fresh(repr - old(repr)) && lru == old(lru) && reservations == old(reservations)
      ensures Buckets(lru) == var was := old(Buckets(lru)); RateLimitState.WithFront(was, was[0].stamps + [stamp])
    {
      hide Sound; hide Footprint; hide Indexed; hide OwnQueues; hide RateLimitState.WithFront;
      AppendToFrontQueue(stamp);
      ghost var buckets := Buckets(lru);
      repr := repr + {lru[0].requests.tail};
      assert Buckets(lru) == buckets;
    }

    method SetReserved(key: string, count: int, keep: bool)
      requires Valid()
      modifies this`reservations
      ensures Valid() && reservations == if keep then old(reservations)[key := count] else old(reservations) - {key}
      ensures Buckets(lru) == old(Buckets(lru))
    {
      reservations := if keep then reservations[key := count] else reservations - {key};
    }

    /** Mutex-protected body of Request; the answer and the whole new state are the model's. */
    method Request(key: string, maxRequests: int, duration: int, now: int) returns (allowed: bool)
      requires Valid()
      modifies repr
      ensures Valid() && fresh(repr - old(repr))
      ensures (View(), allowed) == RateLimitState.Request(old(View()), key, maxRequests, duration, now)
    {
      hide Limiter.Valid; hide Buckets; hide RateLimitState.Touch; hide RateLimitState.WithFront; hide AfterRemoveExpired;
      var entry := TouchEntry(key, now);
      Owned(0);
      ExpireFront(RateLimitState.Unix(now), duration);
      Owned(0);
      allowed := entry.requests.length < maxRequests;
      if allowed {
        AppendFront(RateLimitState.Unix(now));
      }
    }

    /** Mutex-protected body of Reserve; null when the key is saturated. */
    method Reserve(key: string, maxRequests: int, duration: int, now: int) returns (reservation: Reservation?)
      requires Valid()
      modifies repr
      ensures Valid() && fresh(repr - old(repr))
      ensures (View(), reservation != null) == RateLimitState.Reserve(old(View()), key, maxRequests, duration, now)
      ensures reservation != null ==>
                && fresh(reservation) && reservation !in repr
                && reservation.limiter == this && reservation.key == key && !reservation.done
    {
      hide Limiter.Valid; hide Buckets; hide RateLimitState.Touch; hide RateLimitState.WithFront; hide AfterRemoveExpired;
      var entry := TouchEntry(key, now);
      Owned(0);
      ExpireFront(RateLimitState.Unix(now), duration);
      assert entry.requests.stamps == Buckets(lru)[0].stamps;
      var reserved := RateLimitState.ReservedFor(reservations, key);
      Owned(0);
      if entry.requests.length + reserved >= maxRequests {
        return null;
      }
      SetReserved(key, reserved + 1, true);
      ghost var view := View();
      reservation := new Reservation(this, key);
      assert View() == view;
    }

    /** What a reservation's `once` runs under the mutex. */
    method Release(key: string, success: bool, now: int)
      requires Valid()
      modifies repr
      ensures Valid() && fresh(repr - old(repr))
      ensures View() == RateLimitState.Complete(old(View()), key, success, now)
    {
      hide Limiter.Valid; hide Buckets; hide RateLimitState.Touch; hide RateLimitState.WithFront; hide AfterRemoveExpired;
      var left := RateLimitState.ReservedFor(reservations, key) - 1;
      SetReserved(key, left, left != 0);
      if success {
        var entry := TouchEntry(key, now);
        Owned(0);
        AppendFront(RateLimitState.Unix(now));
      }
    }

    /** Drop the entry at the back of the list: `delete`, `lru.Remove`, and clearing its queue. */
    method RemoveBack()
      requires Valid() && lru != []
      modifies this, lru[|lru| - 1], lru[|lru| - 1].requests
      ensures Valid() && repr == old(repr) && reservations == old(reservations)
      ensures lru == old(lru)[..|old(lru)| - 1] && Buckets(lru) == old(Buckets(lru))[..|old(lru)| - 1]
    {
      hide Queue.Valid; hide Indexed;
      assert OwnQueues(store - {lru[|lru| - 1].key});
      hide OwnQueues;
      var entry := lru[|lru| - 1];
      OthersApart(|lru| - 1);
      DropIndexed(store, lru);
      store := store - {entry.key};
      lru := lru[..|lru| - 1];
      entry.listed := false;
      entry.requests.Clear();
      forall k | k in store ensures Footprint(store[k]) <= repr && Sound(store[k]) {
        SoundUnchanged(store[k]);
      }
    }

    method DeleteExpiredEntries(now: int)
      requires Valid()
      modifies repr
      ensures Valid() && repr == old(repr)
      ensures View() == RateLimitState.Evict(old(View()), now, expiration)
    {
      if expiration <= 0 {
        return;
      }
      ghost var was := Buckets(lru);
      while lru != [] && now - lru[|lru| - 1].lastActive >= expiration
        invariant Valid() && repr == old(repr) && reservations == old(reservations)
        invariant RateLimitState.EvictFromBack(was, now, expiration) == RateLimitState.EvictFromBack(Buckets(lru), now, expiration)
        decreases |lru|
      {
        RemoveBack();
      }
    }
  }

  /** A slot held for an active request; `done` is its `sync.Once`. */
  class Reservation {
    const limiter: Limiter
    const key: string
    var done: bool

    constructor (limiter: Limiter, key: string)
      ensures this.limiter == limiter && this.key == key && !done
    {
      this.limiter, this.key, done := limiter, key, false;
    }

    /** The first completion releases the slot; any later one changes nothing at all. */
    method Complete(success: bool, now: int)
      requires limiter.Valid() && this !in limiter.repr
      modifies this, limiter.repr
      ensures limiter.Valid() && done && fresh(limiter.repr - old(limiter.repr))
      ensures limiter.View() == if old(done) then old(limiter.View())
                                else RateLimitState.Complete(old(limiter.View()), key, success, now)
    {
      hide Limiter.Valid; hide Buckets;
      if !done {
        done := true;
        assert limiter.View() == old(limiter.View());
        limiter.Release(key, success, now);
      }
    }
  }
}
