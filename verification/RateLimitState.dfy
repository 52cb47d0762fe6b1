/** The limiter's state as a value, the effect of each locked operation on it, and the
    structural facts those operations keep. Instants are nanoseconds, stamps are seconds. */
module RateLimitState {
  import opened RateLimitQueue

  const NANOS := 1_000_000_000

  /** `time.Time.Unix`: whole seconds, rounded down. */
  function Unix(instant: int): int {
    instant / NANOS
  }

  datatype Bucket = Bucket(key: string, lastActive: int, stamps: seq<int>)

  /** `buckets` is the LRU list, front first; the key index is the set of its keys. */
  datatype State = State(buckets: seq<Bucket>, reservations: map<string, int>)

  function IndexOf(buckets: seq<Bucket>, key: string): (i: nat)
    ensures i <= |buckets|
    ensures i < |buckets| ==> buckets[i].key == key
    ensures forall j :: 0 <= j < i ==> buckets[j].key != key
  {
    if buckets == [] || buckets[0].key == key then 0 else 1 + IndexOf(buckets[1..], key)
  }

  /** The stamps queued under a key; none when the key has no bucket. */
  function StampsOf(buckets: seq<Bucket>, key: string): seq<int> {
    var i := IndexOf(buckets, key);
    if i < |buckets| then buckets[i].stamps else []
  }

  /** `touchEntry`. */
  function Touch(buckets: seq<Bucket>, key: string, now: int): (touched: seq<Bucket>)
    ensures touched != [] && touched[0].key == key && touched[0].lastActive == now
  {
    var i := IndexOf(buckets, key);
    if i < |buckets| then [buckets[i].(lastActive := now)] + buckets[..i] + buckets[i + 1..]
    else [Bucket(key, now, [])] + buckets
  }

  function WithFront(buckets: seq<Bucket>, stamps: seq<int>): seq<Bucket>
    requires buckets != []
  {
    [buckets[0].(stamps := stamps)] + buckets[1..]
  }

  /** Touch the key and expire its queue: the common start of Request and Reserve. */
  function Refresh(buckets: seq<Bucket>, key: string, now: int, duration: int): (after: seq<Bucket>)
    ensures after != [] && after[0].key == key && after[0].lastActive == now
  {
    var touched := Touch(buckets, key, now);
    WithFront(touched, AfterRemoveExpired(touched[0].stamps, Unix(now), duration))
  }

  function ReservedFor(reservations: map<string, int>, key: string): int {
    if key in reservations then reservations[key] else 0
  }

  function Request(st: State, key: string, maxRequests: int, duration: int, now: int): (State, bool) {
    var buckets := Refresh(st.buckets, key, now, duration);
    var allowed := |buckets[0].stamps| < maxRequests;
    (st.(buckets := if allowed then WithFront(buckets, buckets[0].stamps + [Unix(now)]) else buckets), allowed)
  }

  function Reserve(st: State, key: string, maxRequests: int, duration: int, now: int): (State, bool) {
    var buckets := Refresh(st.buckets, key, now, duration);
    var reserved := ReservedFor(st.reservations, key);
    if |buckets[0].stamps| + reserved >= maxRequests then (st.(buckets := buckets), false)
    else (State(buckets, st.reservations[key := reserved + 1]), true)
  }

  /** The body a reservation runs once. */
  function Complete(st: State, key: string, success: bool, now: int): State {
    var left := ReservedFor(st.reservations, key) - 1;
    var reservations := if left == 0 then st.reservations - {key} else st.reservations[key := left];
    if !success then State(st.buckets, reservations)
    else
      var touched := Touch(st.buckets, key, now);
      State(WithFront(touched, touched[0].stamps + [Unix(now)]), reservations)
  }

  function Idle(b: Bucket, now: int, expiration: int): bool {
    now - b.lastActive >= expiration
  }

  /** `deleteExpiredEntries`: from the back, stopping at the first active entry. */
  function EvictFromBack(buckets: seq<Bucket>, now: int, expiration: int): seq<Bucket> {
    if buckets != [] && Idle(buckets[|buckets| - 1], now, expiration)
    then EvictFromBack(buckets[..|buckets| - 1], now, expiration)
    else buckets
  }

  function Evict(st: State, now: int, expiration: int): State {
    if expiration <= 0 then st else st.(buckets := EvictFromBack(st.buckets, now, expiration))
  }

  /** The entries a scan of the whole list would keep. */
  function Active(buckets: seq<Bucket>, now: int, expiration: int): seq<Bucket> {
    if buckets == [] then []
    else Active(buckets[..|buckets| - 1], now, expiration)
         + (if Idle(buckets[|buckets| - 1], now, expiration) then [] else [buckets[|buckets| - 1]])
  }

  /** No stamp is later than the last use of its bucket, and stamps are in time order. */
  ghost predicate BucketOk(b: Bucket) {
    Ordered(b.stamps) && forall i :: 0 <= i < |b.stamps| ==> b.stamps[i] <= Unix(b.lastActive)
  }

  /** One bucket per key, most recently used first, none used after `clock`. */
  ghost predicate WellFormed(buckets: seq<Bucket>, clock: int) {
    && (forall i :: 0 <= i < |buckets| ==> BucketOk(buckets[i]) && buckets[i].lastActive <= clock)
    && (forall i, j :: 0 <= i < j < |buckets| ==> buckets[i].key != buckets[j].key)
    && (forall i, j :: 0 <= i < j < |buckets| ==> buckets[i].lastActive >= buckets[j].lastActive)
  }

  lemma {:induction false} AllActive(buckets: seq<Bucket>, now: int, expiration: int)
    requires forall i :: 0 <= i < |buckets| ==> !Idle(buckets[i], now, expiration)
    ensures Active(buckets, now, expiration) == buckets
  {
    if buckets != [] {
      AllActive(buckets[..|buckets| - 1], now, expiration);
    }
  }

  /** Stopping at the first active entry evicts exactly the idle keys. */
  lemma {:induction false} EvictsExactlyTheIdle(buckets: seq<Bucket>, now: int, expiration: int, clock: int)
    requires WellFormed(buckets, clock)
    ensures EvictFromBack(buckets, now, expiration) == Active(buckets, now, expiration)
  {
    if buckets != [] {
      if Idle(buckets[|buckets| - 1], now, expiration) {
        EvictsExactlyTheIdle(buckets[..|buckets| - 1], now, expiration, clock);
      } else {
        AllActive(buckets, now, expiration);
      }
    }
  }

  /** Eviction keeps a front part of the list, and everything cut off was idle. */
  lemma {:induction false} EvictKeepsFront(buckets: seq<Bucket>, now: int, expiration: int)
    ensures var kept := EvictFromBack(buckets, now, expiration);
            && |kept| <= |buckets| && kept == buckets[..|kept|]
            && forall i :: |kept| <= i < |buckets| ==> Idle(buckets[i], now, expiration)
  {
    if buckets != [] && Idle(buckets[|buckets| - 1], now, expiration) {
      EvictKeepsFront(buckets[..|buckets| - 1], now, expiration);
    }
  }

  lemma IndexIsUnique(buckets: seq<Bucket>, i: nat, clock: int)
    requires WellFormed(buckets, clock) && i < |buckets|
    ensures IndexOf(buckets, buckets[i].key) == i
  {
  }

  lemma RemoveAtWellFormed(buckets: seq<Bucket>, i: nat, clock: int)
    requires WellFormed(buckets, clock) && i < |buckets|
    ensures var rest := buckets[..i] + buckets[i + 1..];
            WellFormed(rest, clock) && forall m :: 0 <= m < |rest| ==> rest[m].key != buckets[i].key
  {
    var rest := buckets[..i] + buckets[i + 1..];
    assert forall m :: 0 <= m < |rest| ==> rest[m] == buckets[if m < i then m else m + 1];
  }

  lemma PushFrontWellFormed(rest: seq<Bucket>, b: Bucket, clock: int)
    requires WellFormed(rest, clock) && BucketOk(b) && clock <= b.lastActive
    requires forall m :: 0 <= m < |rest| ==> rest[m].key != b.key
    ensures WellFormed([b] + rest, b.lastActive)
  {
    var all := [b] + rest;
    assert forall m :: 0 < m < |all| ==> all[m] == rest[m - 1];
  }

  lemma TouchWellFormed(buckets: seq<Bucket>, key: string, now: int, clock: int)
    requires WellFormed(buckets, clock) && clock <= now
    ensures WellFormed(Touch(buckets, key, now), now)
  {
    var i := IndexOf(buckets, key);
    if i < |buckets| {
      RemoveAtWellFormed(buckets, i, clock);
      PushFrontWellFormed(buckets[..i] + buckets[i + 1..], buckets[i].(lastActive := now), clock);
      assert Touch(buckets, key, now) == [buckets[i].(lastActive := now)] + (buckets[..i] + buckets[i + 1..]);
    } else {
      PushFrontWellFormed(buckets, Bucket(key, now, []), clock);
    }
  }

  lemma StampsAt(buckets: seq<Bucket>, i: nat, clock: int)
    requires WellFormed(buckets, clock) && i < |buckets|
    ensures StampsOf(buckets, buckets[i].key) == buckets[i].stamps
  {
    IndexIsUnique(buckets, i, clock);
  }

  lemma NoStamps(buckets: seq<Bucket>, key: string)
    requires forall i :: 0 <= i < |buckets| ==> buckets[i].key != key
    ensures StampsOf(buckets, key) == []
  {
  }

  lemma TouchStamps(buckets: seq<Bucket>, key: string, now: int, clock: int, k: string)
    requires WellFormed(buckets, clock) && clock <= now
    ensures StampsOf(Touch(buckets, key, now), k) == StampsOf(buckets, k)
  {
    TouchWellFormed(buckets, key, now, clock);
    hide WellFormed; hide StampsOf;
    var j := IndexOf(buckets, k);
    if j < |buckets| {
      var at := TouchedAt(buckets, key, now, j);
      hide Touch;
      StampsAt(Touch(buckets, key, now), at, now);
      StampsAt(buckets, j, clock);
    } else {
      NoStamps(buckets, k);
      TouchedNew(buckets, key, now, k);
      hide Touch;
      if k == key {
        StampsAt(Touch(buckets, key, now), 0, now);
      } else {
        NoStamps(Touch(buckets, key, now), k);
      }
    }
  }

  /** Where a bucket is after touching. */
  lemma TouchedAt(buckets: seq<Bucket>, key: string, now: int, j: nat) returns (at: nat)
    requires j < |buckets|
    requires j == IndexOf(buckets, buckets[j].key)
    ensures var touched := Touch(buckets, key, now);
            at < |touched| && touched[at].key == buckets[j].key && touched[at].stamps == buckets[j].stamps
  {
    hide IndexOf;
    var i := IndexOf(buckets, key);
    if buckets[j].key == key {
      at := 0;
    } else if j < i {
      at := j + 1;
    } else {
      at := j;
    }
  }

  lemma TouchedNew(buckets: seq<Bucket>, key: string, now: int, k: string)
    requires forall i :: 0 <= i < |buckets| ==> buckets[i].key != k
    ensures var touched := Touch(buckets, key, now);
            && touched != [] && touched[0].key == key
            && (if k == key then touched[0].stamps == [] else forall m :: 0 <= m < |touched| ==> touched[m].key != k)
  {
  }

  /** Touching moves one bucket to the front; no key's stamps change. */
  lemma TouchKeeps(buckets: seq<Bucket>, key: string, now: int, clock: int)
    requires WellFormed(buckets, clock) && clock <= now
    ensures WellFormed(Touch(buckets, key, now), now)
    ensures Touch(buckets, key, now)[0].stamps == StampsOf(buckets, key)
    ensures forall k :: StampsOf(Touch(buckets, key, now), k) == StampsOf(buckets, k)
  {
    TouchWellFormed(buckets, key, now, clock);
    forall k ensures StampsOf(Touch(buckets, key, now), k) == StampsOf(buckets, k) {
      TouchStamps(buckets, key, now, clock, k);
    }
  }

  lemma WithFrontKeeps(buckets: seq<Bucket>, stamps: seq<int>, clock: int)
    requires buckets != [] && WellFormed(buckets, clock)
    requires BucketOk(buckets[0].(stamps := stamps))
    ensures WellFormed(WithFront(buckets, stamps), clock)
    ensures StampsOf(WithFront(buckets, stamps), buckets[0].key) == stamps
    ensures forall k :: k != buckets[0].key ==> StampsOf(WithFront(buckets, stamps), k) == StampsOf(buckets, k)
  {
    var after := WithFront(buckets, stamps);
    assert after[1..] == buckets[1..];
  }

  /** The kept stamps are the end of the queue, and exactly what is before them has expired. */
  ghost predicate KeptEnd(stamps: seq<int>, kept: seq<int>, now: int, duration: int) {
    && |kept| <= |stamps| && kept == stamps[|stamps| - |kept|..]
    && (forall i :: 0 <= i < |stamps| - |kept| ==> now - stamps[i] >= duration)
    && (forall i :: |stamps| - |kept| <= i < |stamps| ==> now - stamps[i] < duration)
  }

  lemma KeptEndOfMore(stamps: seq<int>, kept: seq<int>, now: int, duration: int)
    requires stamps != [] && now - stamps[0] >= duration && KeptEnd(stamps[1..], kept, now, duration)
    ensures KeptEnd(stamps, kept, now, duration)
  {
    assert forall i :: 1 <= i < |stamps| ==> stamps[i] == stamps[1..][i - 1];
  }

  lemma {:induction false} UnexpiredSuffix(stamps: seq<int>, now: int, duration: int)
    requires Ordered(stamps)
    ensures KeptEnd(stamps, Unexpired(stamps, now, duration), now, duration)
  {
    if stamps == [] {
    } else if now - stamps[0] < duration {
      AllUnexpired(stamps, now, duration);
    } else {
      hide KeptEnd;
      assert Unexpired(stamps, now, duration) == Unexpired(stamps[1..], now, duration);
      hide Unexpired;
      UnexpiredSuffix(stamps[1..], now, duration);
      KeptEndOfMore(stamps, Unexpired(stamps[1..], now, duration), now, duration);
    }
  }

  /** What Refresh does to every key: the named key keeps its unexpired stamps, others all. */
  lemma RefreshKeeps(buckets: seq<Bucket>, key: string, now: int, duration: int, clock: int)
    requires WellFormed(buckets, clock) && clock <= now
    ensures var after := Refresh(buckets, key, now, duration);
            && WellFormed(after, now)
            && after[0].stamps == StampsOf(after, key) == Unexpired(StampsOf(buckets, key), Unix(now), duration)
            && forall k :: k != key ==> StampsOf(after, k) == StampsOf(buckets, k)
  {
    TouchKeeps(buckets, key, now, clock);
    var touched := Touch(buckets, key, now);
    var stamps := touched[0].stamps;
    RemoveExpiredKeepsExactlyUnexpired(stamps, Unix(now), duration);
    UnexpiredSuffix(stamps, Unix(now), duration);
    WithFrontKeeps(touched, Unexpired(stamps, Unix(now), duration), now);
  }

  /** Appending the current second to the front bucket. */
  lemma AcceptKeeps(buckets: seq<Bucket>, now: int)
    requires buckets != [] && WellFormed(buckets, now) && buckets[0].lastActive == now
    ensures var after := WithFront(buckets, buckets[0].stamps + [Unix(now)]);
            && WellFormed(after, now)
            && StampsOf(after, buckets[0].key) == StampsOf(buckets, buckets[0].key) + [Unix(now)]
            && forall k :: k != buckets[0].key ==> StampsOf(after, k) == StampsOf(buckets, k)
  {
    WithFrontKeeps(buckets, buckets[0].stamps + [Unix(now)], now);
  }

  /** The whole effect of Request: it counts the unexpired stamps of its key and touches no other. */
  lemma RequestEffect(st: State, key: string, maxRequests: int, duration: int, now: int, clock: int)
    requires WellFormed(st.buckets, clock) && clock <= now
    ensures var (after, allowed) := Request(st, key, maxRequests, duration, now);
            var kept := Unexpired(StampsOf(st.buckets, key), Unix(now), duration);
            && WellFormed(after.buckets, now) && after.reservations == st.reservations
            && allowed == (|kept| < maxRequests)
            && StampsOf(after.buckets, key) == (if allowed then kept + [Unix(now)] else kept)
            && forall k :: k != key ==> StampsOf(after.buckets, k) == StampsOf(st.buckets, k)
  {
    RefreshKeeps(st.buckets, key, now, duration, clock);
    AcceptKeeps(Refresh(st.buckets, key, now, duration), now);
  }

  /** The whole effect of Reserve: it also counts the key's reservations, and adds one if admitted. */
  lemma ReserveEffect(st: State, key: string, maxRequests: int, duration: int, now: int, clock: int)
    requires WellFormed(st.buckets, clock) && clock <= now
    ensures var (after, admitted) := Reserve(st, key, maxRequests, duration, now);
            var kept := Unexpired(StampsOf(st.buckets, key), Unix(now), duration);
            && WellFormed(after.buckets, now)
            && admitted == (|kept| + ReservedFor(st.reservations, key) < maxRequests)
            && StampsOf(after.buckets, key) == kept
            && (forall k :: k != key ==> StampsOf(after.buckets, k) == StampsOf(st.buckets, k))
            && after.reservations
               == (if admitted then st.reservations[key := ReservedFor(st.reservations, key) + 1] else st.reservations)
  {
    RefreshKeeps(st.buckets, key, now, duration, clock);
  }

  /** The whole effect of a first completion: one reservation less, one stamp more on success. */
  lemma CompleteEffect(st: State, key: string, success: bool, now: int, clock: int)
    requires WellFormed(st.buckets, clock) && clock <= now
    ensures var after := Complete(st, key, success, now);
            && WellFormed(after.buckets, now)
            && StampsOf(after.buckets, key) == StampsOf(st.buckets, key) + (if success then [Unix(now)] else [])
            && (forall k :: k != key ==> StampsOf(after.buckets, k) == StampsOf(st.buckets, k))
            && (forall k :: k != key ==> (k in after.reservations <==> k in st.reservations))
            && (forall k :: ReservedFor(after.reservations, k) == ReservedFor(st.reservations, k) - (if k == key then 1 else 0))
            && (key in after.reservations <==> ReservedFor(after.reservations, key) != 0)
  {
    TouchKeeps(st.buckets, key, now, clock);
    AcceptKeeps(Touch(st.buckets, key, now), now);
  }

  /** Eviction keeps the list well formed, leaves surviving keys alone and empties idle ones. */
  function Later(a: int, b: int): int {
    if a < b then b else a
  }

  /** The instant of an eviction may lie before the last use: a tick is read before the mutex is
      taken. */
  lemma EvictKeeps(buckets: seq<Bucket>, now: int, expiration: int, clock: int)
    requires WellFormed(buckets, clock)
    ensures var after := EvictFromBack(buckets, now, expiration);
            && WellFormed(after, Later(clock, now))
            && forall k :: StampsOf(after, k)
                 == (var i := IndexOf(buckets, k);
                     if i < |buckets| && Idle(buckets[i], now, expiration) then [] else StampsOf(buckets, k))
  {
    var after := EvictFromBack(buckets, now, expiration);
    EvictKeepsFront(buckets, now, expiration);
    assert WellFormed(after, Later(clock, now));
    forall k ensures StampsOf(after, k)
                 == (var i := IndexOf(buckets, k);
                     if i < |buckets| && Idle(buckets[i], now, expiration) then [] else StampsOf(buckets, k)) {
      EvictStamps(buckets, now, expiration, clock, k);
    }
  }

  lemma EvictStamps(buckets: seq<Bucket>, now: int, expiration: int, clock: int, k: string)
    requires WellFormed(buckets, clock)
    ensures StampsOf(EvictFromBack(buckets, now, expiration), k)
         == (var i := IndexOf(buckets, k);
             if i < |buckets| && Idle(buckets[i], now, expiration) then [] else StampsOf(buckets, k))
  {
    hide StampsOf; hide EvictFromBack;
    var after := EvictFromBack(buckets, now, expiration);
    var i := IndexOf(buckets, k);
    EvictKeepsFront(buckets, now, expiration);
    EvictStops(buckets, now, expiration);
    if i < |after| {
      assert buckets[i].lastActive >= buckets[|after| - 1].lastActive;
      assert after[i] == buckets[i] && WellFormed(after, clock);
      StampsAt(after, i, clock);
      StampsAt(buckets, i, clock);
    } else {
      NoStamps(after, k);
      if i == |buckets| {
        NoStamps(buckets, k);
      }
    }
  }

  lemma {:induction false} EvictStops(buckets: seq<Bucket>, now: int, expiration: int)
    ensures var kept := EvictFromBack(buckets, now, expiration);
            kept != [] ==> !Idle(kept[|kept| - 1], now, expiration)
  {
    if buckets != [] && Idle(buckets[|buckets| - 1], now, expiration) {
      EvictStops(buckets[..|buckets| - 1], now, expiration);
    }
  }

  /** How many of these seconds lie less than the duration back. */
  function Recent(stamps: seq<int>, now: int, duration: int): nat {
    if stamps == [] then 0
    else Recent(stamps[..|stamps| - 1], now, duration) + (if now - stamps[|stamps| - 1] < duration then 1 else 0)
  }

  lemma {:induction false} UnexpiredCounts(stamps: seq<int>, now: int, duration: int)
    ensures |Unexpired(stamps, now, duration)| == Recent(stamps, now, duration)
  {
    if stamps != [] {
      var n := |stamps| - 1;
      UnexpiredCounts(stamps[..n], now, duration);
      UnexpiredOneMore(stamps[..n], stamps[n], now, duration);
      assert stamps[..n] + [stamps[n]] == stamps;
    }
  }

  lemma {:induction false} UnexpiredOneMore(stamps: seq<int>, last: int, now: int, duration: int)
    ensures Unexpired(stamps + [last], now, duration)
         == Unexpired(stamps, now, duration) + (if now - last < duration then [last] else [])
    decreases |stamps|
  {
    if stamps == [] {
      assert stamps + [last] == [last];
    } else {
      assert (stamps + [last])[1..] == stamps[1..] + [last];
      UnexpiredOneMore(stamps[1..], last, now, duration);
    }
  }

  /** What admission counts: the key's seconds that lie less than the duration back, and for a
      reservation those already handed out. */
  lemma AdmittedByCount(st: State, key: string, maxRequests: int, duration: int, now: int, clock: int)
    requires WellFormed(st.buckets, clock) && clock <= now
    ensures Request(st, key, maxRequests, duration, now).1
       <==> Recent(StampsOf(st.buckets, key), Unix(now), duration) < maxRequests
    ensures Reserve(st, key, maxRequests, duration, now).1
       <==> Recent(StampsOf(st.buckets, key), Unix(now), duration) + (if key in st.reservations then st.reservations[key] else 0) < maxRequests
  {
    RequestEffect(st, key, maxRequests, duration, now, clock);
    ReserveEffect(st, key, maxRequests, duration, now, clock);
    UnexpiredCounts(StampsOf(st.buckets, key), Unix(now), duration);
    hide WellFormed; hide Request; hide Reserve; hide Recent; hide StampsOf; hide Unexpired;
  }

  /** Instants are nanoseconds, stamps whole seconds. */
  lemma UnixIsSeconds(second: int, rest: int)
    requires 0 <= rest < 1_000_000_000
    ensures Unix(1_000_000_000 * second + rest) == second
  {
  }

  /** Which buckets an eviction leaves, as they were and in their order: those last used less than
      the expiration ago; all of them when it is not positive. */
  lemma EvictionExactly(st: State, now: int, expiration: int, clock: int)
    requires WellFormed(st.buckets, clock)
    ensures var after := Evict(st, now, expiration);
            && after.reservations == st.reservations && after.buckets <= st.buckets
            && forall b :: b in after.buckets <==> b in st.buckets && (expiration <= 0 || now - b.lastActive < expiration)
  {
    EvictsExactlyTheIdle(st.buckets, now, expiration, clock);
    ActiveExactly(st.buckets, now, expiration);
    EvictKeepsFront(st.buckets, now, expiration);
  }

  lemma {:induction false} ActiveExactly(buckets: seq<Bucket>, now: int, expiration: int)
    ensures forall b :: b in Active(buckets, now, expiration) <==> b in buckets && now - b.lastActive < expiration
  {
    if buckets != [] {
      var n := |buckets| - 1;
      ActiveExactly(buckets[..n], now, expiration);
      assert buckets == buckets[..n] + [buckets[n]];
    }
  }
}
