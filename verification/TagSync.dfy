// Bringing the tags of a resource to the desired list. Policies and instance
// profiles untag first and then tag; roles, users and OIDC providers tag first
// and then untag by key. The two orders do not converge alike.
module TagSync {
  import opened Base
  import opened Tags
  import opened TagDelta

  ghost predicate ListsTags(pages: seq<seq<Tag>>, m: TagMap) {
    |pages| >= 1 && TagsOf(Flatten(pages), m)
  }

  ghost function TagListing(m: TagMap): (ts: seq<Tag>)
    ensures TagsOf(ts, m)
    decreases |m|
  {
    if m == map[] then []
    else
      var k :| k in m;
      var rest := TagListing(m - {k});
      AppendTag(rest, m - {k}, k, m[k]);
      assert (m - {k})[k := m[k]] == m;
      rest + [Make(k, m[k])]
  }

  type TagLayout = f: TagMap -> seq<seq<Tag>> | forall m :: ListsTags(f(m), m)
    ghost witness (m: TagMap) => OnePage(TagListing(m))

  // ---- the two calls ----

  ghost function Tagged(m: TagMap, ts: seq<Tag>): TagMap {
    m + ToMap(ts)
  }

  ghost function Untagged(m: TagMap, ts: seq<Tag>): TagMap {
    map k | k in m && !HasKey(ts, Some(k)) :: m[k]
  }

  class TaggedResource {
    const pagesOf: TagLayout  // order and page split of a listing
    var failures: nat         // injected failures so far
    var calls: nat            // tag and untag calls so far, failed ones too
    var tags: TagMap

    constructor (pagesOf: TagLayout)
      ensures tags == map[]
    {
      this.pagesOf := pagesOf;
      failures, calls, tags := 0, 0, map[];
    }

    method ListTags(marker: nat) returns (err: Err, page: seq<Tag>, truncated: bool, next: nat)
      requires marker < |pagesOf(tags)|
      modifies this`failures
      ensures Counted(err, old(failures), failures) && (err.None? || err == Some(Injected))
      ensures page == pagesOf(tags)[marker] && next == marker + 1 && (truncated <==> next < |pagesOf(tags)|)
    {
      err, page, next := None, pagesOf(tags)[marker], marker + 1;
      truncated := next < |pagesOf(tags)|;
      if * {
        err, failures := Some(Injected), failures + 1;
      }
    }

    /** A request that names a key twice is refused. */
    method TagResource(ts: seq<Tag>) returns (err: Err)
      modifies this`failures, this`calls, this`tags
      ensures Counted(err, old(failures), failures) && calls == old(calls) + 1
      ensures err.None? || err == Some(Injected) || (err == Some(InvalidInput) && !KeyUnique(ts))
      ensures err.None? ==> KeyUnique(ts)
      ensures tags == if err.None? then Tagged(old(tags), ts) else old(tags)
    {
      calls := calls + 1;
      if * {
        failures := failures + 1;
        return Some(Injected);
      }
      if i, j :| 0 <= i < j < |ts| && ts[i].key == ts[j].key {
        return Some(InvalidInput);
      }
      err, tags := None, tags + ToMap(ts);
    }

    method UntagResource(keys: seq<string>) returns (err: Err)
      modifies this`failures, this`calls, this`tags
      ensures Counted(err, old(failures), failures) && (err.None? || err == Some(Injected)) && calls == old(calls) + 1
      ensures err.Some? ==> tags == old(tags)
      ensures err.None? ==> tags == map k | k in old(tags) && k !in keys :: old(tags)[k]
    {
      calls := calls + 1;
      if * {
        failures := failures + 1;
        return Some(Injected);
      }
      err, tags := None, map k | k in tags && k !in keys :: tags[k];
    }
  }

  lemma PrefixIsUnique(ts: seq<Tag>, all: seq<Tag>)
    requires ts <= all && NonNil(all) && KeyUnique(all)
    ensures NonNil(ts) && KeyUnique(ts) && forall t :: t in ts ==> t in all
  {
  }

  /** Reads page after page; with an error comes what was read before it. */
  method GetTags(b: TaggedResource) returns (err: Err, ts: seq<Tag>)
    modifies b`failures
    ensures Counted(err, old(b.failures), b.failures) && (err.None? || err == Some(Injected))
    ensures err.None? ==> TagsOf(ts, b.tags)
    ensures ReadSoFar(ts, b.pagesOf(b.tags), err.None?) && NonNil(ts) && KeyUnique(ts)
    ensures forall t :: t in ts ==> t.key.Some? && t.key.value in b.tags && t == Make(t.key.value, b.tags[t.key.value])
  {
    ghost var pages := b.pagesOf(b.tags);
    assert ListsTags(pages, b.tags);
    MapOfUnique(Flatten(pages));
    ts := [];
    var marker := 0;
    while true
      invariant marker < |pages| && ts == Flatten(pages[..marker]) && b.failures == old(b.failures)
      decreases |pages| - marker
    {
      var e, page, truncated, next := b.ListTags(marker);
      err := e;
      if err.Some? {
        FlattenPrefix(pages, marker);
        PrefixIsUnique(ts, Flatten(pages));
        return;
      }
      FlattenSnoc(pages, marker);
      ts := ts + page;
      if !truncated {
        assert pages[..marker + 1] == pages;
        return;
      }
      marker := next;
    }
  }

  method InTags(key: string, value: string, ts: seq<Tag>) returns (found: bool)
    requires NonNil(ts)
    ensures found <==> Make(key, value) in ts
  {
    for i := 0 to |ts|
      invariant Make(key, value) !in ts[..i]
    {
      assert ts[i] in ts;
      if ts[i].key.value == key && ts[i].value.value == value {
        return true;
      }
    }
    return false;
  }

  method TagsMissing(xs: seq<Tag>, ys: seq<Tag>) returns (r: seq<Tag>)
    requires NonNil(xs) && NonNil(ys)
    ensures r == Without(xs, ys)
  {
    r := [];
    for i := 0 to |xs|
      invariant r == Without(xs[..i], ys)
    {
      WithoutSnoc(xs, ys, i);
      assert xs[i] in xs;
      var found := InTags(xs[i].key.value, xs[i].value.value, ys);
      if !found {
        r := r + [xs[i]];
      }
    }
    assert xs[..|xs|] == xs;
  }

  method RemoveTags(b: TaggedResource, ts: seq<Tag>) returns (err: Err)
    requires NonNil(ts)
    modifies b`failures, b`calls, b`tags
    ensures Counted(err, old(b.failures), b.failures) && (err.None? || err == Some(Injected))
    ensures b.calls == old(b.calls) + 1
    ensures b.tags == if err.None? then Untagged(old(b.tags), ts) else old(b.tags)
  {
    var keys: seq<string> := [];
    for i := 0 to |ts|
      invariant forall k :: k in keys <==> HasKey(ts[..i], Some(k))
    {
      assert ts[i] in ts && ts[..i + 1] == ts[..i] + [ts[i]];
      keys := keys + [ts[i].key.value];
      forall k ensures k in keys <==> HasKey(ts[..i + 1], Some(k)) {
        assert HasKey(ts[..i + 1], Some(k)) <==> HasKey(ts[..i], Some(k)) || ts[i].key == Some(k);
      }
    }
    assert ts[..|ts|] == ts;
    err := b.UntagResource(keys);
  }

  // ---- how far a sync gets, whatever it was given ----

  ghost function UntagFirstReached(m: TagMap, toAdd: seq<Tag>, toDelete: seq<Tag>, o: Outcome): TagMap {
    match o
    case Nothing => m
    case First => Untagged(m, toDelete)
    case Complete => Tagged(Untagged(m, toDelete), toAdd)
  }

  ghost function TagFirstReached(m: TagMap, toAdd: seq<Tag>, toDelete: seq<Tag>, o: Outcome): TagMap {
    match o
    case Nothing => m
    case First => Tagged(m, toAdd)
    case Complete => Untagged(Tagged(m, toAdd), toDelete)
  }

  /** One call for each list that is not empty, the second one only if the first
      has not failed. */
  ghost function CallsMade(first: seq<Tag>, second: seq<Tag>, o: Outcome): nat {
    (if first == [] then 0 else 1) + if second == [] || o == Nothing then 0 else 1
  }

  /** Without anything to do, nothing changes; an up-to-date reading gives the
      outcomes below. */
  lemma SyncFacts(m: TagMap, desired: seq<Tag>, existing: seq<Tag>)
    requires NonNil(desired) && NonNil(existing)
    ensures NonNil(Without(existing, desired))
    ensures ChangesNothing([])
    ensures KeyUnique(desired) ==> KeyUnique(Without(desired, existing))
    ensures KeyUnique(desired) && TagsOf(existing, m) ==> ReachedAsExpected(m, desired, existing)
  {
    WithoutMembers(existing, desired);
    NoTags();
    if KeyUnique(desired) {
      WithoutKeyUnique(desired, existing);
      if TagsOf(existing, m) {
        ReachesOutcomes(m, desired, existing);
      }
    }
  }

  ghost predicate ChangesNothing(ts: seq<Tag>) {
    KeyUnique(ts) && forall m: TagMap :: Tagged(m, ts) == m && Untagged(m, ts) == m
  }

  lemma NoTags()
    ensures ChangesNothing([])
  {
    forall m: TagMap ensures Tagged(m, []) == m && Untagged(m, []) == m {
      assert ToMap([]) == map[];
    }
  }

  lemma ReachesOutcomes(m: TagMap, desired: seq<Tag>, existing: seq<Tag>)
    requires TagsOf(existing, m) && NonNil(desired) && KeyUnique(desired)
    ensures ReachedAsExpected(m, desired, existing)
  {
    UntagFirstOutcome(m, desired, existing);
    TagFirstOutcome(m, desired, existing);
  }

  ghost predicate ReachedAsExpected(m: TagMap, desired: seq<Tag>, existing: seq<Tag>) {
    var toAdd, toDelete := Without(desired, existing), Without(existing, desired);
    forall o :: UntagFirstReached(m, toAdd, toDelete, o) == AfterUntagFirst(m, ToMap(desired), o)
                && TagFirstReached(m, toAdd, toDelete, o) == AfterTagFirst(m, ToMap(desired), o)
  }

  // ---- untag, then tag ----

  method SyncTagsUntagFirst(b: TaggedResource, desired: seq<Tag>, existing: seq<Tag>)
    returns (err: Err, ghost o: Outcome)
    requires NonNil(desired) && NonNil(existing)
    modifies b`failures, b`calls, b`tags
    ensures Counted(err, old(b.failures), b.failures)
    ensures err.None? <==> o == Complete
    ensures b.tags == UntagFirstReached(old(b.tags), Without(desired, existing), Without(existing, desired), o)
    ensures b.calls == old(b.calls) + CallsMade(Without(existing, desired), Without(desired, existing), o)
    ensures err.None? ==> KeyUnique(Without(desired, existing))
    ensures err.None? || err == Some(Injected) || (err == Some(InvalidInput) && !KeyUnique(Without(desired, existing)))
    ensures KeyUnique(desired) ==> err.None? || err == Some(Injected)
    ensures TagsOf(existing, old(b.tags)) && KeyUnique(desired) ==>
              b.tags == AfterUntagFirst(old(b.tags), ToMap(desired), o)
  {
    var toAdd := TagsMissing(desired, existing);
    var toDelete := TagsMissing(existing, desired);
    SyncFacts(b.tags, desired, existing);
    err, o := None, Nothing;
    if |toDelete| > 0 {
      err := RemoveTags(b, toDelete);
      if err.Some? {
        return;
      }
    }
    o := First;
    if |toAdd| > 0 {
      err := b.TagResource(toAdd);
      if err.Some? {
        return;
      }
    }
    o := Complete;
  }

  // ---- tag, then untag ----

  method SyncTagsTagFirst(b: TaggedResource, desired: seq<Tag>, existing: seq<Tag>)
    returns (err: Err, ghost o: Outcome)
    requires NonNil(desired) && NonNil(existing)
    modifies b`failures, b`calls, b`tags
    ensures Counted(err, old(b.failures), b.failures)
    ensures err.None? <==> o == Complete
    ensures b.tags == TagFirstReached(old(b.tags), Without(desired, existing), Without(existing, desired), o)
    ensures b.calls == old(b.calls) + CallsMade(Without(desired, existing), Without(existing, desired), o)
    ensures err.None? ==> KeyUnique(Without(desired, existing))
    ensures err.None? || err == Some(Injected) || (err == Some(InvalidInput) && !KeyUnique(Without(desired, existing)))
    ensures KeyUnique(desired) ==> err.None? || err == Some(Injected)
    ensures TagsOf(existing, old(b.tags)) && KeyUnique(desired) ==>
              b.tags == AfterTagFirst(old(b.tags), ToMap(desired), o)
  {
    var toAdd := TagsMissing(desired, existing);
    var toDelete := TagsMissing(existing, desired);
    SyncFacts(b.tags, desired, existing);
    err, o := None, Nothing;
    if |toAdd| > 0 {
      err := b.TagResource(toAdd);
      if err.Some? {
        return;
      }
    }
    o := First;
    if |toDelete| > 0 {
      err := RemoveTags(b, toDelete);
      if err.Some? {
        return;
      }
    }
    o := Complete;
  }

  /** Nothing has been done, or a sync from a reading of the tags has got so far. */
  ghost predicate ReachedFromSomeReading(
    m: TagMap, calls: nat, tags: TagMap, callsNow: nat, desired: seq<Tag>, o: Outcome)
  {
    (o == Nothing && tags == m && callsNow == calls)
    || exists existing :: ReachedFrom(existing, m, calls, tags, callsNow, desired, o)
  }

  ghost predicate ReachedFrom(
    existing: seq<Tag>, m: TagMap, calls: nat, tags: TagMap, callsNow: nat, desired: seq<Tag>, o: Outcome)
  {
    var toAdd, toDelete := Without(desired, existing), Without(existing, desired);
    && TagsOf(existing, m) && tags == TagFirstReached(m, toAdd, toDelete, o)
    && callsNow == calls + CallsMade(toAdd, toDelete, o)
  }

  /** Reads the tags itself and then syncs, tagging first. */
  method SyncTagsFresh(b: TaggedResource, desired: seq<Tag>) returns (err: Err, ghost o: Outcome)
    requires NonNil(desired)
    modifies b`failures, b`calls, b`tags
    ensures Counted(err, old(b.failures), b.failures)
    ensures err.None? <==> o == Complete
    ensures ReachedFromSomeReading(old(b.tags), old(b.calls), b.tags, b.calls, desired, o)
    ensures KeyUnique(desired) ==>
              (err.None? || err == Some(Injected)) && b.tags == AfterTagFirst(old(b.tags), ToMap(desired), o)
  {
    var e, existing := GetTags(b);
    if e.Some? {
      return e, Nothing;
    }
    err, o := SyncTagsTagFirst(b, desired, existing);
    assert ReachedFrom(existing, old(b.tags), old(b.calls), b.tags, b.calls, desired, o);
  }

  /** How far a pass gets: no effect, only its first call, or both. */
  datatype Outcome = Nothing | First | Complete

  function Agreeing(m: TagMap, d: TagMap): TagMap {
    map k | k in m && k in d && m[k] == d[k] :: m[k]
  }

  /** The desired tags without the keys whose value changed. */
  function Unchanged(m: TagMap, d: TagMap): TagMap {
    map k | k in d && (k in m ==> m[k] == d[k]) :: d[k]
  }

  function AfterUntagFirst(m: TagMap, d: TagMap, o: Outcome): TagMap {
    match o
    case Nothing => m
    case First => Agreeing(m, d)
    case Complete => d
  }

  function AfterTagFirst(m: TagMap, d: TagMap, o: Outcome): TagMap {
    match o
    case Nothing => m
    case First => m + d
    case Complete => Unchanged(m, d)
  }

  lemma {:induction false} WithoutKeyUnique(xs: seq<Tag>, ys: seq<Tag>)
    requires KeyUnique(xs)
    ensures KeyUnique(Without(xs, ys))
  {
    if xs == [] {
    } else {
      var front := xs[..|xs| - 1];
      WithoutKeyUnique(front, ys);
      WithoutMembers(front, ys);
      forall t | t in Without(front, ys) ensures t.key != xs[|xs| - 1].key {
        assert t in front;
      }
    }
  }

  /** What the two difference lists of a sync contain, key by key. */
  lemma DifferenceAt(m: TagMap, desired: seq<Tag>, existing: seq<Tag>, k: string)
    requires TagsOf(existing, m) && NonNil(desired) && KeyUnique(desired)
    ensures var d, toAdd, toDelete := ToMap(desired), Without(desired, existing), Without(existing, desired);
            && (k in ToMap(toAdd) <==> k in d && !(k in m && m[k] == d[k]))
            && (k in ToMap(toAdd) ==> ToMap(toAdd)[k] == d[k])
            && (HasKey(toDelete, Some(k)) <==> k in m && !(k in d && m[k] == d[k]))
  {
    var d, toAdd, toDelete := ToMap(desired), Without(desired, existing), Without(existing, desired);
    WithoutMembers(desired, existing);
    WithoutMembers(existing, desired);
    WithoutKeyUnique(desired, existing);
    MapOfUnique(desired);
    MapOfUnique(existing);
    MapOfUnique(toAdd);
    if k in d { assert Make(k, d[k]) in desired; }
    if k in m { assert Make(k, m[k]) in existing; }
    if k in d && !(k in m && m[k] == d[k]) { assert Make(k, d[k]) in toAdd; }
    if k in ToMap(toAdd) { assert Make(k, ToMap(toAdd)[k]) in toAdd; }
    if k in m && !(k in d && m[k] == d[k]) { assert Make(k, m[k]) in toDelete; }
  }

  lemma UntagFirstOutcome(m: TagMap, desired: seq<Tag>, existing: seq<Tag>)
    requires TagsOf(existing, m) && NonNil(desired) && KeyUnique(desired)
    ensures var d, toAdd, toDelete := ToMap(desired), Without(desired, existing), Without(existing, desired);
            && Untagged(m, toDelete) == AfterUntagFirst(m, d, First)
            && Tagged(Untagged(m, toDelete), toAdd) == AfterUntagFirst(m, d, Complete)
  {
    var d, toAdd, toDelete := ToMap(desired), Without(desired, existing), Without(existing, desired);
    forall k
      ensures SameAt(Untagged(m, toDelete), Agreeing(m, d), k)
      ensures SameAt(Tagged(Untagged(m, toDelete), toAdd), d, k)
    {
      DifferenceAt(m, desired, existing, k);
    }
    SameEverywhere(Untagged(m, toDelete), Agreeing(m, d));
    SameEverywhere(Tagged(Untagged(m, toDelete), toAdd), d);
  }

  lemma TagFirstOutcome(m: TagMap, desired: seq<Tag>, existing: seq<Tag>)
    requires TagsOf(existing, m) && NonNil(desired) && KeyUnique(desired)
    ensures var d, toAdd, toDelete := ToMap(desired), Without(desired, existing), Without(existing, desired);
            && Tagged(m, toAdd) == AfterTagFirst(m, d, First)
            && Untagged(Tagged(m, toAdd), toDelete) == AfterTagFirst(m, d, Complete)
  {
    var d, toAdd, toDelete := ToMap(desired), Without(desired, existing), Without(existing, desired);
    forall k
      ensures SameAt(Tagged(m, toAdd), m + d, k)
      ensures SameAt(Untagged(Tagged(m, toAdd), toDelete), Unchanged(m, d), k)
    {
      DifferenceAt(m, desired, existing, k);
    }
    SameEverywhere(Tagged(m, toAdd), m + d);
    SameEverywhere(Untagged(Tagged(m, toAdd), toDelete), Unchanged(m, d));
  }

  // ---- convergence ----

  /** No key has one value on the resource and another in the desired list. */
  predicate NoConflict(m: TagMap, d: TagMap) {
    forall k :: k in m && k in d ==> m[k] == d[k]
  }

  /** Tagging first, one complete pass gives the desired tags exactly when no
      value had to change: the untag call removes by key and so also removes
      what the tag call has just set. */
  lemma TagFirstSettlesExactlyWhen(m: TagMap, d: TagMap)
    ensures AfterTagFirst(m, d, Complete) == d <==> NoConflict(m, d)
  {
    if k :| k in m && k in d && m[k] != d[k] {
      assert k !in Unchanged(m, d);
    } else {
      SameEverywhere(Unchanged(m, d), d);
    }
  }

  /** For example, changing the value of one tag removes it. */
  lemma ChangedValueIsLost()
    ensures AfterTagFirst(map["k" := "1"], map["k" := "2"], Complete) == map[]
  {
  }

  function RunTagFirst(m: TagMap, d: TagMap, os: seq<Outcome>): TagMap {
    if os == [] then m else AfterTagFirst(RunTagFirst(m, d, os[..|os| - 1]), d, os[|os| - 1])
  }

  /** Once a pass has got as far as its tag call, no conflict is left, and none
      comes back. */
  lemma {:induction false} ConflictsEnd(m: TagMap, d: TagMap, os: seq<Outcome>)
    requires Started(os)
    ensures NoConflict(RunTagFirst(m, d, os), d)
  {
    var n := |os| - 1;
    var before := RunTagFirst(m, d, os[..n]);
    if os[n] == Nothing {
      var i :| 0 <= i < |os| && os[i] != Nothing;
      assert os[..n][i] != Nothing;
      ConflictsEnd(m, d, os[..n]);
    }
  }

  lemma {:induction false} NothingDone(m: TagMap, d: TagMap, os: seq<Outcome>)
    requires forall i :: 0 <= i < |os| ==> os[i] == Nothing
    ensures RunTagFirst(m, d, os) == m
  {
    if os == [] {
    } else {
      NothingDone(m, d, os[..|os| - 1]);
    }
  }

  /** Some pass has got as far as its tag call. */
  ghost predicate Started(os: seq<Outcome>) {
    exists i :: 0 <= i < |os| && os[i] != Nothing
  }

  /** Tagging first: from any tags, and with failures anywhere, the resource
      holds the desired tags after a complete pass exactly when no value had to
      change or an earlier pass has reached its tag call. */
  lemma TagFirstConverges(m: TagMap, d: TagMap, os: seq<Outcome>)
    requires os != [] && os[|os| - 1] == Complete
    ensures RunTagFirst(m, d, os) == d <==> NoConflict(m, d) || Started(os[..|os| - 1])
  {
    var front := os[..|os| - 1];
    if Started(front) {
      ConflictsEnd(m, d, front);
    } else {
      NothingDone(m, d, front);
    }
    TagFirstSettlesExactlyWhen(RunTagFirst(m, d, front), d);
  }
}
