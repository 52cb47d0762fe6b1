/** Admission of plugin-protocol observations in four scopes at once: a global counter and three
    counting maps that are incremented in turn and rolled back when a later scope is full. */
module ObservationLimiter {
  import Text

  function Get<K>(m: map<K, int>, k: K): int {
    if k in m then m[k] else 0
  }

  /** `m[k]--`, then `delete` at zero. */
  function Lowered<K>(m: map<K, int>, k: K): map<K, int> {
    var left := Get(m, k) - 1;
    if left == 0 then m - {k} else m[k := left]
  }

  function Raised<K>(m: map<K, int>, k: K): map<K, int> {
    m[k := Get(m, k) + 1]
  }

  function Count<K(==)>(keys: seq<K>, k: K): nat {
    if keys == [] then 0
    else Count(keys[..|keys| - 1], k) + if keys[|keys| - 1] == k then 1 else 0
  }

  /** A counting map without zero entries. */
  ghost predicate Counts<K(!new)>(m: map<K, int>, keys: seq<K>) {
    forall k :: Get(m, k) == Count(keys, k) && (k in m ==> m[k] > 0)
  }

  ghost function Sum<K>(m: map<K, int>): int {
    if m == map[] then 0 else var k :| k in m; m[k] + Sum(m - {k})
  }

  lemma {:induction false} SumWithout<K>(m: map<K, int>, k: K)
    requires k in m
    ensures Sum(m) == m[k] + Sum(m - {k})
    decreases |m|
  {
    var first :| first in m && Sum(m) == m[first] + Sum(m - {first});
    if first != k {
      SumWithout(m - {first}, k);
      SumWithout(m - {k}, first);
      assert m - {first} - {k} == m - {k} - {first};
    }
  }

  lemma SumRaised<K>(m: map<K, int>, k: K)
    ensures Sum(Raised(m, k)) == Sum(m) + 1
  {
    var r := Raised(m, k);
    SumWithout(r, k);
    if k in m {
      SumWithout(m, k);
      assert r - {k} == m - {k};
    } else {
      assert r - {k} == m;
    }
  }

  lemma {:induction false} CountConcat<K>(a: seq<K>, b: seq<K>, k: K)
    ensures Count(a + b, k) == Count(a, k) + Count(b, k)
    decreases |b|
  {
    if b == [] {
      assert a + b == a;
    } else {
      assert (a + b)[..|a + b| - 1] == a + b[..|b| - 1];
      CountConcat(a, b[..|b| - 1], k);
    }
  }

  /** Two maps that count the same keys are the same map. */
  lemma CountsIsUnique<K(!new)>(m: map<K, int>, n: map<K, int>, keys: seq<K>)
    requires Counts(m, keys) && Counts(n, keys)
    ensures m == n
  {
    forall k ensures (k in m <==> k in n) && (k in m ==> m[k] == n[k]) {
      assert Get(m, k) == Get(n, k);
    }
  }

  lemma RaisedCounts<K(!new)>(m: map<K, int>, keys: seq<K>, k: K)
    requires Counts(m, keys)
    ensures Counts(Raised(m, k), keys + [k])
  {
    var r := Raised(m, k);
    forall j ensures Get(r, j) == Count(keys + [k], j) && (j in r ==> r[j] > 0) {
      CountConcat(keys, [k], j);
      assert Get(m, j) == Count(keys, j);
    }
  }

  lemma LoweredCounts<K(!new)>(m: map<K, int>, keys: seq<K>, i: nat)
    requires Counts(m, keys) && i < |keys|
    ensures Counts(Lowered(m, keys[i]), keys[..i] + keys[i + 1..])
  {
    var l, rest := Lowered(m, keys[i]), keys[..i] + keys[i + 1..];
    forall j ensures Get(l, j) == Count(rest, j) && (j in l ==> l[j] > 0) {
      assert keys == keys[..i] + ([keys[i]] + keys[i + 1..]);
      CountConcat(keys[..i], [keys[i]] + keys[i + 1..], j);
      CountConcat([keys[i]], keys[i + 1..], j);
      CountConcat(keys[..i], keys[i + 1..], j);
      assert Get(m, j) == Count(keys, j) && Get(m, keys[i]) == Count(keys, keys[i]);
      assert Count([keys[i]], j) == if keys[i] == j then 1 else 0;
    }
  }

  /** A counting map adds up to the number of keys it counts. */
  lemma {:induction false} SumOfCounts<K(!new)>(m: map<K, int>, keys: seq<K>)
    requires Counts(m, keys)
    ensures Sum(m) == |keys|
  {
    if keys == [] {
      forall k ensures k !in m {
        assert Get(m, k) == Count(keys, k);
      }
    } else {
      var n := |keys| - 1;
      var before := Lowered(m, keys[n]);
      LoweredCounts(m, keys, n);
      assert keys[..n] + keys[n + 1..] == keys[..n];
      SumOfCounts(before, keys[..n]);
      SumRaised(before, keys[n]);
      RaisedCounts(before, keys[..n], keys[n]);
      assert keys[..n] + [keys[n]] == keys;
      CountsIsUnique(Raised(before, keys[n]), m, keys);
    }
  }

  /** Raising and lowering again is the rollback: it restores a counting map exactly. */
  lemma RollbackRestores<K(!new)>(m: map<K, int>, keys: seq<K>, k: K)
    requires Counts(m, keys)
    ensures Lowered(Raised(m, k), k) == m
  {
    assert Get(m, k) == Count(keys, k);
  }

  datatype Limits = Limits(global: int, perPlugin: int, perUser: int, perToken: int)

  datatype Scope = Global | Plugin | User | Token

  datatype Refusal = PluginKeyRequired | UserIdRequired | TokenIdRequired | Exceeded(scope: Scope, limit: int)

  datatype Outcome = Admitted | Refused(why: Refusal)

  /** What admission should depend on: the outstanding leases in each scope, in this order. */
  function Decide(limits: Limits, global: int, ofPlugin: int, ofUser: int, ofToken: int): Outcome {
    if global >= limits.global then Refused(Exceeded(Global, limits.global))
    else if ofPlugin >= limits.perPlugin then Refused(Exceeded(Plugin, limits.perPlugin))
    else if ofUser >= limits.perUser then Refused(Exceeded(User, limits.perUser))
    else if ofToken >= limits.perToken then Refused(Exceeded(Token, limits.perToken))
    else Admitted
  }

  /** One outstanding admission; `released` is the `once` of its release closure. */
  class Lease {
    const plugin: string
    const user: nat
    const token: nat
    const limiter: Limiter
    var released: bool

    constructor (limiter: Limiter, plugin: string, user: nat, token: nat)
      ensures this.limiter == limiter && this.plugin == plugin && this.user == user && this.token == token && !released
    {
      this.limiter, this.plugin, this.user, this.token, released := limiter, plugin, user, token, false;
    }

    /** The release closure: the first call gives everything back, later ones do nothing. */
    method Release()
      requires limiter.Valid() && (!released ==> this in limiter.open)
      modifies this, limiter
      ensures limiter.Valid() && released
      ensures old(released) ==> limiter.Same(old(limiter.global), old(limiter.plugin), old(limiter.user), old(limiter.token), old(limiter.open))
      ensures !old(released) ==> Removed(old(limiter.open), limiter.open, this)
    {
      if released {
        return;
      }
      released := true;
      limiter.GiveBack(this);
    }
  }

  ghost function PluginKeys(open: seq<Lease>): (keys: seq<string>)
    ensures |keys| == |open|
    ensures forall i :: 0 <= i < |open| ==> keys[i] == open[i].plugin
  {
    seq(|open|, i requires 0 <= i < |open| => open[i].plugin)
  }

  ghost function UserKeys(open: seq<Lease>): (keys: seq<nat>)
    ensures |keys| == |open|
    ensures forall i :: 0 <= i < |open| ==> keys[i] == open[i].user
  {
    seq(|open|, i requires 0 <= i < |open| => open[i].user)
  }

  ghost function TokenKeys(open: seq<Lease>): (keys: seq<nat>)
    ensures |keys| == |open|
    ensures forall i :: 0 <= i < |open| ==> keys[i] == open[i].token
  {
    seq(|open|, i requires 0 <= i < |open| => open[i].token)
  }

  /** One lease has gone, the others kept their order. */
  ghost predicate Removed(before: seq<Lease>, after: seq<Lease>, lease: Lease) {
    exists i :: 0 <= i < |before| && before[i] == lease && after == before[..i] + before[i + 1..]
  }

  lemma RemovedAt(before: seq<Lease>, i: nat)
    requires i < |before|
    ensures Removed(before, before[..i] + before[i + 1..], before[i])
  {
  }

  /** Each counter is the number of outstanding leases in its scope. */
  ghost predicate Tracks(global: int, plugin: map<string, int>, user: map<nat, int>, token: map<nat, int>, open: seq<Lease>) {
    && global == |open|
    && Counts(plugin, PluginKeys(open)) && Counts(user, UserKeys(open)) && Counts(token, TokenKeys(open))
  }

  /** No scope holds more than its limit. */
  ghost predicate WithinLimits(limits: Limits, global: int, plugin: map<string, int>, user: map<nat, int>, token: map<nat, int>) {
    && (global > 0 ==> global <= limits.global)
    && (forall k :: k in plugin ==> 0 < plugin[k] <= limits.perPlugin)
    && (forall k :: k in user ==> 0 < user[k] <= limits.perUser)
    && (forall k :: k in token ==> 0 < token[k] <= limits.perToken)
  }

  /** In every state the limiter can reach, the global counter equals the sum of each map. */
  lemma CountersAgree(global: int, plugin: map<string, int>, user: map<nat, int>, token: map<nat, int>, open: seq<Lease>)
    requires Tracks(global, plugin, user, token, open)
    ensures global == Sum(plugin) == Sum(user) == Sum(token) == |open|
  {
    SumOfCounts(plugin, PluginKeys(open));
    SumOfCounts(user, UserKeys(open));
    SumOfCounts(token, TokenKeys(open));
  }

  /** The verdict, from the request and the outstanding leases alone. */
  ghost function Verdict(limits: Limits, open: seq<Lease>, pluginKey: string, userId: int, tokenId: int): Outcome {
    var key := Text.TrimSpace(pluginKey);
    if key == "" then Refused(PluginKeyRequired)
    else if userId <= 0 then Refused(UserIdRequired)
    else if tokenId <= 0 then Refused(TokenIdRequired)
    else
      var u: nat, t: nat := userId, tokenId;
      Decide(limits, |open|, Count(PluginKeys(open), key), Count(UserKeys(open), u), Count(TokenKeys(open), t))
  }

  lemma OneMoreHeld(open: seq<Lease>, limiter: Limiter, lease: Lease)
    requires Held(open, limiter) && lease !in open && lease.limiter == limiter && !lease.released
    ensures Held(open + [lease], limiter)
  {
  }

  lemma AdmittedWithin(limits: Limits, global: int, plugin: map<string, int>, user: map<nat, int>, token: map<nat, int>, key: string, u: nat, t: nat)
    requires WithinLimits(limits, global, plugin, user, token) && global >= 0
    requires global < limits.global && Get(plugin, key) < limits.perPlugin && Get(user, u) < limits.perUser && Get(token, t) < limits.perToken
    ensures WithinLimits(limits, global + 1, Raised(plugin, key), Raised(user, u), Raised(token, t))
  {
  }

  lemma AdmittedTracks(global: int, plugin: map<string, int>, user: map<nat, int>, token: map<nat, int>, open: seq<Lease>, lease: Lease)
    requires Tracks(global, plugin, user, token, open)
    ensures Tracks(global + 1, Raised(plugin, lease.plugin), Raised(user, lease.user), Raised(token, lease.token), open + [lease])
  {
    RaisedCounts(plugin, PluginKeys(open), lease.plugin);
    RaisedCounts(user, UserKeys(open), lease.user);
    RaisedCounts(token, TokenKeys(open), lease.token);
    assert PluginKeys(open + [lease]) == PluginKeys(open) + [lease.plugin];
    assert UserKeys(open + [lease]) == UserKeys(open) + [lease.user];
    assert TokenKeys(open + [lease]) == TokenKeys(open) + [lease.token];
  }

  lemma ReleasedTracks(global: int, plugin: map<string, int>, user: map<nat, int>, token: map<nat, int>, open: seq<Lease>, i: nat)
    requires Tracks(global, plugin, user, token, open) && i < |open|
    ensures Tracks(global - 1, Lowered(plugin, open[i].plugin), Lowered(user, open[i].user), Lowered(token, open[i].token),
                   open[..i] + open[i + 1..])
  {
    LoweredCounts(plugin, PluginKeys(open), i);
    LoweredCounts(user, UserKeys(open), i);
    LoweredCounts(token, TokenKeys(open), i);
    var rest := open[..i] + open[i + 1..];
    assert PluginKeys(rest) == PluginKeys(open)[..i] + PluginKeys(open)[i + 1..];
    assert UserKeys(rest) == UserKeys(open)[..i] + UserKeys(open)[i + 1..];
    assert TokenKeys(rest) == TokenKeys(open)[..i] + TokenKeys(open)[i + 1..];
  }

  lemma LoweredWithin<K(!new)>(m: map<K, int>, keys: seq<K>, k: K, limit: int)
    requires Counts(m, keys) && k in m && forall j :: j in m ==> 0 < m[j] <= limit
    ensures forall j :: j in Lowered(m, k) ==> 0 < Lowered(m, k)[j] <= limit
  {
  }

  /** Outstanding leases are distinct, unreleased and of this limiter. */
  ghost predicate Held(open: seq<Lease>, limiter: Limiter)
    reads open
  {
    && (forall i :: 0 <= i < |open| ==> open[i].limiter == limiter && !open[i].released)
    && (forall i, j :: 0 <= i < j < |open| ==> open[i] != open[j])
  }

  /** The same for all but one, which has just been marked released. */
  ghost predicate HeldBut(open: seq<Lease>, limiter: Limiter, lease: Lease)
    reads open
  {
    && (forall i :: 0 <= i < |open| ==> open[i].limiter == limiter && (open[i] != lease ==> !open[i].released))
    && (forall i, j :: 0 <= i < j < |open| ==> open[i] != open[j])
  }

  class Limiter {
    const limits: Limits
    var global: int
    var plugin: map<string, int>
    var user: map<nat, int>
    var token: map<nat, int>
    ghost var open: seq<Lease>

    ghost predicate Valid()
      reads this, open
    {
      && Tracks(global, plugin, user, token, open)
      && WithinLimits(limits, global, plugin, user, token)
      && Held(open, this)
    }

    ghost predicate Same(g: int, p: map<string, int>, u: map<nat, int>, t: map<nat, int>, o: seq<Lease>)
      reads this
    {
      global == g && plugin == p && user == u && token == t && open == o
    }

    constructor (limits: Limits)
      ensures Valid() && open == [] && this.limits == limits
    {
      this.limits := limits;
      global, plugin, user, token, open := 0, map[], map[], map[], [];
    }

    /** Admit, or refuse leaving every counter as it was. */
    method Acquire(pluginKey: string, userId: int, tokenId: int) returns (outcome: Outcome, lease: Lease?)
      requires Valid()
      modifies this
      ensures Valid()
      ensures lease != null <==> outcome.Admitted?
      ensures outcome == Verdict(limits, old(open), pluginKey, userId, tokenId)
      ensures outcome.Refused? ==> Same(old(global), old(plugin), old(user), old(token), old(open))
      ensures outcome.Admitted? ==> fresh(lease) && !lease.released && lease.limiter == this && open == old(open) + [lease]
      ensures outcome.Admitted? ==> lease.plugin == Text.TrimSpace(pluginKey) && lease.user == userId && lease.token == tokenId
    {
      hide Counts; hide Text.TrimSpace; hide Tracks; hide Count; hide PluginKeys; hide UserKeys; hide TokenKeys;
      hide Raised; hide Lowered; hide WithinLimits; hide Held;
      lease := null;
      var key := Text.TrimSpace(pluginKey);
      if key == "" {
        return Refused(PluginKeyRequired), null;
      }
      if userId <= 0 {
        return Refused(UserIdRequired), null;
      }
      if tokenId <= 0 {
        return Refused(TokenIdRequired), null;
      }
      var u: nat, t: nat := userId, tokenId;
      Scopes(key, u, t);
      if global >= limits.global {
        return Refused(Exceeded(Global, limits.global)), null;
      }
      global := global + 1;
      if Get(plugin, key) >= limits.perPlugin {
        global := global - 1;
        return Refused(Exceeded(Plugin, limits.perPlugin)), null;
      }
      plugin := Raised(plugin, key);
      if Get(user, u) >= limits.perUser {
        global := global - 1;
        plugin := Lowered(plugin, key);
        return Refused(Exceeded(User, limits.perUser)), null;
      }
      user := Raised(user, u);
      if Get(token, t) >= limits.perToken {
        global := global - 1;
        plugin := Lowered(plugin, key);
        user := Lowered(user, u);
        return Refused(Exceeded(Token, limits.perToken)), null;
      }
      token := Raised(token, t);
      lease := new Lease(this, key, u, t);
      AdmittedTracks(old(global), old(plugin), old(user), old(token), old(open), lease);
      AdmittedWithin(limits, old(global), old(plugin), old(user), old(token), key, u, t);
      OneMoreHeld(open, this, lease);
      open := open + [lease];
      outcome := Admitted;
    }

    /** Each map entry is the number of outstanding leases under its key, and rolls back. */
    lemma Scopes(key: string, u: nat, t: nat)
      requires Valid()
      ensures global == |open|
      ensures Get(plugin, key) == Count(PluginKeys(open), key) && Get(user, u) == Count(UserKeys(open), u) && Get(token, t) == Count(TokenKeys(open), t)
      ensures Lowered(Raised(plugin, key), key) == plugin && Lowered(Raised(user, u), u) == user
    {
      RollbackRestores(plugin, PluginKeys(open), key);
      RollbackRestores(user, UserKeys(open), u);
    }

    /** What a release closure runs under the mutex. */
    method GiveBack(lease: Lease)
      requires Tracks(global, plugin, user, token, open) && WithinLimits(limits, global, plugin, user, token)
      requires lease in open && lease.released && HeldBut(open, this, lease)
      modifies this
      ensures Valid()
      ensures Removed(old(open), open, lease)
    {
      hide Tracks; hide WithinLimits; hide Lowered; hide Removed; hide Held; hide HeldBut;
      ghost var rest := LeaseGone(lease);
      global := global - 1;
      plugin := Lowered(plugin, lease.plugin);
      user := Lowered(user, lease.user);
      token := Lowered(token, lease.token);
      open := rest;
    }

    lemma LeaseGone(lease: Lease) returns (rest: seq<Lease>)
      requires Tracks(global, plugin, user, token, open) && WithinLimits(limits, global, plugin, user, token)
      requires lease in open && HeldBut(open, this, lease)
      ensures Removed(open, rest, lease) && Held(rest, this)
      ensures var p, u, t := Lowered(plugin, lease.plugin), Lowered(user, lease.user), Lowered(token, lease.token);
              Tracks(global - 1, p, u, t, rest) && WithinLimits(limits, global - 1, p, u, t)
    {
      var i :| 0 <= i < |open| && open[i] == lease;
      RemovedAt(open, i);
      hide Tracks; hide WithinLimits; hide Lowered; hide Held; hide HeldBut; hide Removed;
      rest := open[..i] + open[i + 1..];
      ReleaseKeeps(limits, global, plugin, user, token, open, i);
      RestHeld(open, this, i);
    }
  }

  /** What is left when the released lease goes. */
  lemma RestHeld(open: seq<Lease>, limiter: Limiter, i: nat)
    requires i < |open| && HeldBut(open, limiter, open[i])
    ensures Held(open[..i] + open[i + 1..], limiter)
  {
    var rest := open[..i] + open[i + 1..];
    assert forall j :: 0 <= j < |rest| ==> rest[j] == open[if j < i then j else j + 1];
  }

  lemma ReleaseKeeps(limits: Limits, global: int, plugin: map<string, int>, user: map<nat, int>, token: map<nat, int>, open: seq<Lease>, i: nat)
    requires Tracks(global, plugin, user, token, open) && WithinLimits(limits, global, plugin, user, token) && i < |open|
    ensures var p, u, t := Lowered(plugin, open[i].plugin), Lowered(user, open[i].user), Lowered(token, open[i].token);
            Tracks(global - 1, p, u, t, open[..i] + open[i + 1..]) && WithinLimits(limits, global - 1, p, u, t)
  {
    ReleasedTracks(global, plugin, user, token, open, i);
    InEveryScope(global, plugin, user, token, open, i);
    LoweredWithin(plugin, PluginKeys(open), open[i].plugin, limits.perPlugin);
    LoweredWithin(user, UserKeys(open), open[i].user, limits.perUser);
    LoweredWithin(token, TokenKeys(open), open[i].token, limits.perToken);
    hide Counts; hide Tracks; hide Lowered;
  }

  /** An outstanding lease has an entry in every map. */
  lemma InEveryScope(global: int, plugin: map<string, int>, user: map<nat, int>, token: map<nat, int>, open: seq<Lease>, i: nat)
    requires Tracks(global, plugin, user, token, open) && i < |open|
    ensures open[i].plugin in plugin && open[i].user in user && open[i].token in token && global > 0
  {
    CountedIn(plugin, PluginKeys(open), i);
    CountedIn(user, UserKeys(open), i);
    CountedIn(token, TokenKeys(open), i);
  }

  lemma CountedIn<K(!new)>(m: map<K, int>, keys: seq<K>, i: nat)
    requires Counts(m, keys) && i < |keys|
    ensures keys[i] in m
  {
    assert keys == keys[..i] + ([keys[i]] + keys[i + 1..]);
    CountConcat(keys[..i], [keys[i]] + keys[i + 1..], keys[i]);
    CountConcat([keys[i]], keys[i + 1..], keys[i]);
    assert Count([keys[i]], keys[i]) == 1;
    assert Get(m, keys[i]) == Count(keys, keys[i]);
  }

  ghost function PluginLeases(open: seq<Lease>, key: string): nat {
    if open == [] then 0 else PluginLeases(open[..|open| - 1], key) + (if open[|open| - 1].plugin == key then 1 else 0)
  }

  ghost function UserLeases(open: seq<Lease>, user: nat): nat {
    if open == [] then 0 else UserLeases(open[..|open| - 1], user) + (if open[|open| - 1].user == user then 1 else 0)
  }

  ghost function TokenLeases(open: seq<Lease>, token: nat): nat {
    if open == [] then 0 else TokenLeases(open[..|open| - 1], token) + (if open[|open| - 1].token == token then 1 else 0)
  }

  lemma {:induction false} CountsAreLeases(open: seq<Lease>, key: string, user: nat, token: nat)
    ensures Count(PluginKeys(open), key) == PluginLeases(open, key)
    ensures Count(UserKeys(open), user) == UserLeases(open, user)
    ensures Count(TokenKeys(open), token) == TokenLeases(open, token)
  {
    if open != [] {
      var n := |open| - 1;
      CountsAreLeases(open[..n], key, user, token);
      assert PluginKeys(open)[..n] == PluginKeys(open[..n]);
      assert UserKeys(open)[..n] == UserKeys(open[..n]);
      assert TokenKeys(open)[..n] == TokenKeys(open[..n]);
    }
  }

  /** Who is admitted: a request with a plugin, a user and a token, of each of which there are fewer
      outstanding leases than its limit, as there are altogether. */
  lemma AdmittedExactly(limits: Limits, open: seq<Lease>, pluginKey: string, userId: int, tokenId: int)
    ensures var verdict, key := Verdict(limits, open, pluginKey, userId, tokenId), Text.TrimSpace(pluginKey);
            (verdict == Admitted
             <==> && key != "" && userId > 0 && tokenId > 0
                  && |open| < limits.global && PluginLeases(open, key) < limits.perPlugin
                  && UserLeases(open, userId) < limits.perUser && TokenLeases(open, tokenId) < limits.perToken)
  {
    hide Count; hide PluginLeases; hide UserLeases; hide TokenLeases;
    if userId > 0 && tokenId > 0 {
      CountsAreLeases(open, Text.TrimSpace(pluginKey), userId, tokenId);
    }
  }

  /** What a refusal says: the first thing that is missing or used up, in this order, with its limit. */
  lemma RefusedExactly(limits: Limits, open: seq<Lease>, pluginKey: string, userId: int, tokenId: int)
    ensures var verdict, key := Verdict(limits, open, pluginKey, userId, tokenId), Text.TrimSpace(pluginKey);
            && (verdict == Refused(PluginKeyRequired) <==> key == "")
            && (verdict == Refused(UserIdRequired) <==> key != "" && userId <= 0)
            && (verdict == Refused(TokenIdRequired) <==> key != "" && userId > 0 && tokenId <= 0)
            && (key != "" && userId > 0 && tokenId > 0 ==>
                  && (|open| >= limits.global ==> verdict == Refused(Exceeded(Global, limits.global)))
                  && (|open| < limits.global && PluginLeases(open, key) >= limits.perPlugin ==> verdict == Refused(Exceeded(Plugin, limits.perPlugin)))
                  && (|open| < limits.global && PluginLeases(open, key) < limits.perPlugin && UserLeases(open, userId) >= limits.perUser ==>
                        verdict == Refused(Exceeded(User, limits.perUser)))
                  && ((|open| < limits.global && PluginLeases(open, key) < limits.perPlugin && UserLeases(open, userId) < limits.perUser
                       && TokenLeases(open, tokenId) >= limits.perToken) ==> verdict == Refused(Exceeded(Token, limits.perToken))))
  {
    hide Count; hide PluginLeases; hide UserLeases; hide TokenLeases;
    if userId > 0 && tokenId > 0 {
      CountsAreLeases(open, Text.TrimSpace(pluginKey), userId, tokenId);
    }
  }
}
