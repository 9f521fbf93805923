// The cache of resource managers under concurrent callers. A caller looks its
// key up under the read lock; if it missed, it later builds a manager and
// stores it under the write lock, without looking again. Each locked section is
// one step; callers interleave freely between them.
module ManagerCache {
  import opened Base

  datatype Call = Call(account: string, region: string, roleArn: string)

  /** `id` tells apart managers built at different times. */
  datatype Manager = Manager(id: nat, account: string, region: string)

  function KeyOf(c: Call): string {
    c.account + "/" + (c.region + "/" + c.roleArn)
  }

  /** `waiting` holds the callers that have missed and not yet stored. */
  datatype State = State(cache: map<string, Manager>, waiting: map<nat, Call>, nextId: nat)

  datatype Event =
    | Hit(caller: nat, call: Call, manager: Manager)     // found: returned at once
    | Miss(caller: nat, call: Call)                      // not found: will build
    | Stored(caller: nat, call: Call, manager: Manager)  // built, stored, returned

  ghost predicate Step(s: State, e: Event, t: State) {
    match e
    case Hit(i, c, m) => i !in s.waiting && KeyOf(c) in s.cache && m == s.cache[KeyOf(c)] && t == s
    case Miss(i, c) => i !in s.waiting && KeyOf(c) !in s.cache && t == s.(waiting := s.waiting[i := c])
    case Stored(i, c, m) =>
      && i in s.waiting && c == s.waiting[i] && m == Manager(s.nextId, c.account, c.region)
      && t == State(s.cache[KeyOf(c) := m], s.waiting - {i}, s.nextId + 1)
  }

  ghost predicate Run(tr: seq<State>, evs: seq<Event>) {
    |tr| == |evs| + 1 && forall i :: 0 <= i < |evs| ==> Step(tr[i], evs[i], tr[i + 1])
  }

  const START := State(map[], map[], 0)

  // ---- keys ----

  predicate SlashFree(c: Call) {
    '/' !in c.account && '/' !in c.region
  }

  lemma SlashInside(a: string, x: string, b: string, y: string)
    requires a + "/" + x == b + "/" + y && |a| < |b|
    ensures '/' in b
  {
    assert b[|a|] == (b + "/" + y)[|a|] == (a + "/" + x)[|a|];
  }

  lemma FirstSlash(a: string, x: string, b: string, y: string)
    requires a + "/" + x == b + "/" + y && '/' !in a && '/' !in b
    ensures a == b && x == y
  {
    if |a| < |b| {
      SlashInside(a, x, b, y);
    } else if |b| < |a| {
      SlashInside(b, y, a, x);
    } else {
      var s, t := a + "/" + x, b + "/" + y;
      assert a == s[..|a|] == t[..|a|] == b;
      assert x == s[|a| + 1..] == t[|a| + 1..] == y;
    }
  }

  /** Keys of calls whose account and region have no '/' determine the call; the
      role ARN may contain any number of them. */
  lemma KeyIsInjective(c: Call, d: Call)
    requires SlashFree(c) && SlashFree(d) && KeyOf(c) == KeyOf(d)
    ensures c == d
  {
    FirstSlash(c.account, c.region + "/" + c.roleArn, d.account, d.region + "/" + d.roleArn);
    FirstSlash(c.region, c.roleArn, d.region, d.roleArn);
  }

  // ---- who gets which manager ----

  predicate For(m: Manager, c: Call) {
    m.account == c.account && m.region == c.region
  }

  /** Every call that was answered got a manager of its account and region. */
  ghost predicate AllMatch(evs: seq<Event>) {
    forall e :: e in evs && !e.Miss? ==> For(e.manager, e.call)
  }

  ghost predicate CallsIn(evs: seq<Event>, calls: iset<Call>) {
    forall e :: e in evs ==> e.call in calls
  }

  /** Among these calls the key tells the account and the region. */
  ghost predicate KeysTell(calls: iset<Call>) {
    forall c, d :: c in calls && d in calls && KeyOf(c) == KeyOf(d) ==> c.account == d.account && c.region == d.region
  }

  ghost predicate Belongs(m: Manager, key: string, calls: iset<Call>) {
    exists c :: c in calls && KeyOf(c) == key && For(m, c)
  }

  ghost predicate Inv(s: State, calls: iset<Call>) {
    && (forall key :: key in s.cache ==> Belongs(s.cache[key], key, calls))
    && (forall i :: i in s.waiting ==> s.waiting[i] in calls)
  }

  lemma StepKeepsInv(s: State, e: Event, t: State, calls: iset<Call>)
    requires Inv(s, calls) && Step(s, e, t) && e.call in calls && KeysTell(calls)
    ensures Inv(t, calls)
    ensures !e.Miss? ==> For(e.manager, e.call)
  {
    if e.Stored? {
      assert Belongs(e.manager, KeyOf(e.call), calls);
    }
  }

  lemma {:induction false} RunKeepsInv(tr: seq<State>, evs: seq<Event>, calls: iset<Call>)
    requires Run(tr, evs) && tr[0] == START && CallsIn(evs, calls) && KeysTell(calls)
    ensures Inv(tr[|evs|], calls) && AllMatch(evs)
    decreases |evs|
  {
    var n := |evs|;
    if n == 0 {
    } else {
      assert evs == evs[..n - 1] + [evs[n - 1]] && evs[n - 1] in evs;
      RunKeepsInv(tr[..n], evs[..n - 1], calls);
      StepKeepsInv(tr[n - 1], evs[n - 1], tr[n], calls);
    }
  }

  /** Two calls that share a key, one after the other: the second gets the
      manager of the first. */
  lemma SecondGetsTheFirst(c: Call, d: Call) returns (tr: seq<State>, evs: seq<Event>)
    requires KeyOf(c) == KeyOf(d)
    ensures Run(tr, evs) && tr[0] == START
    ensures var m := Manager(0, c.account, c.region); evs == [Miss(0, c), Stored(0, c, m), Hit(0, d, m)]
  {
    var m := Manager(0, c.account, c.region);
    var s1 := START.(waiting := map[0 := c]);
    var s2 := State(map[KeyOf(c) := m], s1.waiting - {0}, 1);
    tr, evs := [START, s1, s2, s2], [Miss(0, c), Stored(0, c, m), Hit(0, d, m)];
    assert START.waiting[0 := c] == s1.waiting;
    assert Step(tr[0], evs[0], tr[1]) && Step(tr[1], evs[1], tr[2]) && Step(tr[2], evs[2], tr[3]);
  }

  ghost predicate AlwaysMatch(calls: iset<Call>) {
    forall tr, evs :: Run(tr, evs) && tr[0] == START && CallsIn(evs, calls) ==> AllMatch(evs)
  }

  /** For any set of calls: every interleaving of them hands each call a manager
      of its account and region exactly when no two of them share a key and
      differ in one of these. */
  lemma ManagersMatchExactlyWhenKeysTell(calls: iset<Call>)
    ensures AlwaysMatch(calls) <==> KeysTell(calls)
  {
    if KeysTell(calls) {
      forall tr, evs | Run(tr, evs) && tr[0] == START && CallsIn(evs, calls) ensures AllMatch(evs) {
        RunKeepsInv(tr, evs, calls);
      }
    }
    if AlwaysMatch(calls) {
      forall c, d | c in calls && d in calls && KeyOf(c) == KeyOf(d)
        ensures c.account == d.account && c.region == d.region
      {
        var tr, evs := SecondGetsTheFirst(c, d);
        assert CallsIn(evs, calls);
        assert evs[2] in evs && AllMatch(evs);
      }
    }
  }

  /** So calls whose account and region have no '/' always get their own. */
  lemma SlashFreeCallsMatch()
    ensures AlwaysMatch(iset c | SlashFree(c))
  {
    var calls := iset c | SlashFree(c);
    forall c, d | c in calls && d in calls && KeyOf(c) == KeyOf(d) ensures c == d {
      KeyIsInjective(c, d);
    }
    ManagersMatchExactlyWhenKeysTell(calls);
  }

  /** With a '/' in the region or the account, a call can receive a manager of
      another account. */
  lemma SlashesMixKeysUp()
    ensures var c, d := Call("a", "b/c", ""), Call("a/b", "c", "");
            KeyOf(c) == KeyOf(d) && !AlwaysMatch(iset{c, d})
  {
    var c, d := Call("a", "b/c", ""), Call("a/b", "c", "");
    assert KeyOf(c) == "a/b/c/" == KeyOf(d);
    ManagersMatchExactlyWhenKeysTell(iset{c, d});
    assert c in iset{c, d} && d in iset{c, d};
  }

  // ---- when a key has settled ----

  /** The key is cached and nobody is between lookup and store for it. */
  ghost predicate Settled(s: State, key: string) {
    key in s.cache && forall i :: i in s.waiting ==> KeyOf(s.waiting[i]) != key
  }

  /** From then on, whatever the interleaving, the cached manager stays, and
      every call for the key gets that one. */
  lemma {:induction false} SettledKeyIsStable(tr: seq<State>, evs: seq<Event>, key: string)
    requires Run(tr, evs) && Settled(tr[0], key)
    ensures Settled(tr[|evs|], key) && tr[|evs|].cache[key] == tr[0].cache[key]
    ensures forall e :: e in evs && KeyOf(e.call) == key ==> e.Hit? && e.manager == tr[0].cache[key]
    decreases |evs|
  {
    var n := |evs|;
    if n == 0 {
    } else {
      assert evs == evs[..n - 1] + [evs[n - 1]];
      SettledKeyIsStable(tr[..n], evs[..n - 1], key);
      StepKeepsSettled(tr[n - 1], evs[n - 1], tr[n], key);
    }
  }

  lemma StepKeepsSettled(s: State, e: Event, t: State, key: string)
    requires Step(s, e, t) && Settled(s, key)
    ensures Settled(t, key) && t.cache[key] == s.cache[key]
    ensures KeyOf(e.call) == key ==> e.Hit? && e.manager == s.cache[key]
  {
  }

  ghost function FreeCaller(waiting: map<nat, Call>): (i: nat)
    ensures i !in waiting
  {
    FreeAbove(waiting.Keys, 0)
  }

  /** A caller id from `low` on that is not taken. */
  ghost function FreeAbove(taken: set<nat>, low: nat): (i: nat)
    ensures i >= low && i !in taken
    decreases taken
  {
    if low !in taken then low
    else
      FreeAbove(taken - {low}, low + 1)
  }

  /** Two callers that both miss get two different managers, and the later store
      replaces the earlier one. */
  lemma TwoMissesBuildTwice(s: State, c: Call) returns (tr: seq<State>, evs: seq<Event>)
    requires KeyOf(c) !in s.cache
    ensures Run(tr, evs) && tr[0] == s && |evs| == 4
    ensures evs[2].Stored? && evs[3].Stored? && evs[2].call == evs[3].call == c
    ensures evs[2].manager != evs[3].manager && tr[4].cache == s.cache[KeyOf(c) := evs[3].manager]
  {
    var i := FreeCaller(s.waiting);
    var s1 := s.(waiting := s.waiting[i := c]);
    var j := FreeCaller(s1.waiting);
    var s2 := s1.(waiting := s1.waiting[j := c]);
    var m0, m1 := Manager(s.nextId, c.account, c.region), Manager(s.nextId + 1, c.account, c.region);
    var s3 := State(s.cache[KeyOf(c) := m0], s2.waiting - {i}, s.nextId + 1);
    var s4 := State(s3.cache[KeyOf(c) := m1], s3.waiting - {j}, s.nextId + 2);
    tr, evs := [s, s1, s2, s3, s4], [Miss(i, c), Miss(j, c), Stored(i, c, m0), Stored(j, c, m1)];
    assert Step(tr[0], evs[0], tr[1]) && Step(tr[1], evs[1], tr[2]);
    assert Step(tr[2], evs[2], tr[3]) && Step(tr[3], evs[3], tr[4]);
    assert s4.cache == s.cache[KeyOf(c) := m1];
  }

  /** A caller that has missed stores a new manager over the cached one. */
  lemma WaiterReplaces(s: State, c: Call, i: nat) returns (tr: seq<State>, evs: seq<Event>)
    requires KeyOf(c) in s.cache && i in s.waiting && KeyOf(s.waiting[i]) == KeyOf(c)
    ensures Run(tr, evs) && tr[0] == s && |evs| == 2
    ensures evs[0].Hit? && evs[0].call == c && evs[0].manager == s.cache[KeyOf(c)]
    ensures evs[1].Stored? && KeyOf(evs[1].call) == KeyOf(c) && evs[1].manager.id == s.nextId
  {
    var d := s.waiting[i];
    var m := Manager(s.nextId, d.account, d.region);
    var t := State(s.cache[KeyOf(d) := m], s.waiting - {i}, s.nextId + 1);
    tr, evs := [s, s, t], [Hit(FreeCaller(s.waiting), c, s.cache[KeyOf(c)]), Stored(i, d, m)];
    assert Step(tr[0], evs[0], tr[1]) && Step(tr[1], evs[1], tr[2]);
  }

  /** All answers to calls for the key are one manager. */
  ghost predicate OneManager(evs: seq<Event>, key: string) {
    forall e, f :: e in evs && f in evs && !e.Miss? && !f.Miss? && KeyOf(e.call) == KeyOf(f.call) == key ==>
      e.manager == f.manager
  }

  ghost predicate AlwaysOneManager(s: State, key: string) {
    forall tr, evs :: Run(tr, evs) && tr[0] == s ==> OneManager(evs, key)
  }

  /** From any state on, and in every interleaving, all callers for a key get
      the same manager exactly when the key has settled. */
  lemma OneManagerExactlyWhenSettled(s: State, c: Call)
    requires forall key :: key in s.cache ==> s.cache[key].id < s.nextId
    ensures AlwaysOneManager(s, KeyOf(c)) <==> Settled(s, KeyOf(c))
  {
    var key := KeyOf(c);
    if Settled(s, key) {
      forall tr, evs | Run(tr, evs) && tr[0] == s ensures OneManager(evs, key) {
        SettledKeyIsStable(tr, evs, key);
      }
    } else if key in s.cache {
      var i :| i in s.waiting && KeyOf(s.waiting[i]) == key;
      var tr, evs := WaiterReplaces(s, c, i);
      assert evs[0] in evs && evs[1] in evs && !OneManager(evs, key);
    } else {
      var tr, evs := TwoMissesBuildTwice(s, c);
      assert evs[2] in evs && evs[3] in evs && !OneManager(evs, key);
    }
  }

  /** Cached managers were built before now, in every state a run reaches. */
  lemma {:induction false} CachedIdsAreOld(tr: seq<State>, evs: seq<Event>)
    requires Run(tr, evs) && tr[0] == START
    ensures forall key :: key in tr[|evs|].cache ==> tr[|evs|].cache[key].id < tr[|evs|].nextId
    decreases |evs|
  {
    var n := |evs|;
    if n == 0 {
    } else {
      CachedIdsAreOld(tr[..n], evs[..n - 1]);
      assert Step(tr[n - 1], evs[n - 1], tr[n]);
    }
  }

  /** So wherever a run has led: all later callers for a key get one manager
      exactly when the key has settled by then. */
  lemma ReachedOneManagerExactlyWhenSettled(tr: seq<State>, evs: seq<Event>, c: Call)
    requires Run(tr, evs) && tr[0] == START
    ensures AlwaysOneManager(tr[|evs|], KeyOf(c)) <==> Settled(tr[|evs|], KeyOf(c))
  {
    CachedIdsAreOld(tr, evs);
    OneManagerExactlyWhenSettled(tr[|evs|], c);
  }

  // ---- the factory ----

  class ManagerFactory {
    var rmCache: map<string, Manager>
    var waiting: map<nat, Call>
    var built: nat

    constructor ()
      ensures Value() == START
    {
      rmCache, waiting, built := map[], map[], 0;
    }

    function Value(): State
      reads this
    {
      State(rmCache, waiting, built)
    }

    /** The section under the read lock. */
    method LookUp(caller: nat, call: Call) returns (found: Option<Manager>)
      requires caller !in waiting
      modifies this`waiting
      ensures Step(old(Value()), if found.Some? then Hit(caller, call, found.value) else Miss(caller, call), Value())
    {
      if KeyOf(call) in rmCache {
        return Some(rmCache[KeyOf(call)]);
      }
      found, waiting := None, waiting[caller := call];
    }

    /** The section under the write lock. */
    method BuildAndStore(caller: nat) returns (m: Manager)
      requires caller in waiting
      modifies this
      ensures Step(old(Value()), Stored(caller, old(waiting)[caller], m), Value())
    {
      var call := waiting[caller];
      m := Manager(built, call.account, call.region);
      rmCache, waiting, built := rmCache[KeyOf(call) := m], waiting - {caller}, built + 1;
    }

    /** A call that nobody interleaves with. */
    method ManagerFor(caller: nat, call: Call) returns (m: Manager)
      requires caller !in waiting
      modifies this
      ensures KeyOf(call) in rmCache && rmCache[KeyOf(call)] == m && waiting == old(waiting)
      ensures KeyOf(call) in old(rmCache) ==> Value() == old(Value()) && m == old(rmCache)[KeyOf(call)]
      ensures KeyOf(call) !in old(rmCache) ==>
                m == Manager(old(built), call.account, call.region) && rmCache == old(rmCache)[KeyOf(call) := m]
                && built == old(built) + 1
    {
      var found := LookUp(caller, call);
      if found.Some? {
        return found.value;
      }
      m := BuildAndStore(caller);
    }
  }
}
