// The managed-policy controller over a policy backend. Every method of the
// controller is tied to a step of the version-store machine, whichever of its
// calls fail and however the backend splits and orders its listing.
module ManagedPolicy {
  import opened Base
  import opened Documents
  import opened PolicyVersions

  /** One entry of a version listing; the document is not part of it. */
  datatype Listed = Listed(id: nat, created: nat, isDefault: bool)

  function Summary(v: Version): Listed {
    Listed(v.id, v.created, v.isDefault)
  }

  function Summaries(vs: seq<Version>): seq<Listed> {
    seq(|vs|, i requires 0 <= i < |vs| => Summary(vs[i]))
  }

  ghost predicate SortedByDate(s: seq<Listed>) {
    forall i, j :: 0 <= i < j < |s| ==> s[i].created <= s[j].created
  }

  /** The versions whose id is not in `lost`. */
  ghost function Keep(vs: seq<Version>, lost: set<nat>): seq<Version> {
    if vs == [] then []
    else Keep(vs[..|vs| - 1], lost) + if Last(vs).id in lost then [] else [Last(vs)]
  }

  lemma {:induction false} KeepMembers(vs: seq<Version>, lost: set<nat>)
    ensures forall v :: v in Keep(vs, lost) <==> v in vs && v.id !in lost
  {
    if vs == [] {
    } else {
      var front, last := vs[..|vs| - 1], Last(vs);
      KeepMembers(front, lost);
      KeepSnoc(vs, lost);
      assert vs == front + [last];
      forall v
        ensures v in Keep(vs, lost) <==> v in vs && v.id !in lost
      {
        assert v in vs <==> v in front || v == last;
      }
    }
  }

  lemma {:induction false} KeepAll(vs: seq<Version>)
    ensures Keep(vs, {}) == vs
  {
    if vs == [] {
    } else {
      KeepAll(vs[..|vs| - 1]);
      assert vs == vs[..|vs| - 1] + [Last(vs)];
    }
  }

  ghost predicate IdsRise(vs: seq<Version>) {
    forall p, q :: 0 <= p < q < |vs| ==> vs[p].id < vs[q].id
  }

  lemma FrontIdsDiffer(vs: seq<Version>)
    requires IdsRise(vs) && vs != []
    ensures forall v :: v in vs[..|vs| - 1] ==> v.id < Last(vs).id
  {
  }

  lemma KeepSnoc(vs: seq<Version>, lost: set<nat>)
    requires vs != []
    ensures Keep(vs, lost) == Keep(vs[..|vs| - 1], lost) + if Last(vs).id in lost then [] else [Last(vs)]
  {
  }

  lemma RemoveAtAppend(a: seq<Version>, b: seq<Version>, i: nat)
    requires i < |a|
    ensures RemoveAt(a + b, i) == RemoveAt(a, i) + b
  {
  }

  /** Deleting one more id from what is kept. */
  lemma {:induction false} KeepRemove(vs: seq<Version>, lost: set<nat>, i: nat, id: nat)
    requires IdsRise(vs) && i < |Keep(vs, lost)| && id == Keep(vs, lost)[i].id
    ensures RemoveAt(Keep(vs, lost), i) == Keep(vs, lost + {id})
  {
    var front, last := vs[..|vs| - 1], Last(vs);
    var a := Keep(front, lost);
    FrontIdsDiffer(vs);
    KeepSnoc(vs, lost);
    KeepSnoc(vs, lost + {id});
    if i < |a| {
      assert a[i].id == id && a[i] in a;
      KeepMembers(front, lost);
      KeepRemove(front, lost, i, id);
      RemoveAtAppend(a, if last.id in lost then [] else [last], i);
    } else {
      assert id == last.id;
      KeepSame(front, lost, lost + {id});
    }
  }

  lemma {:induction false} KeepSame(vs: seq<Version>, lost: set<nat>, more: set<nat>)
    requires forall v :: v in vs ==> (v.id in lost <==> v.id in more)
    ensures Keep(vs, lost) == Keep(vs, more)
  {
    if vs == [] {
    } else {
      assert Last(vs) in vs;
      KeepSame(vs[..|vs| - 1], lost, more);
    }
  }

  lemma StillDeletable(vs: seq<Version>, lost: set<nat>, i: nat)
    requires i < |vs| && !vs[i].isDefault && vs[i].id !in lost
    ensures Deletable(Keep(vs, lost), vs[i].id)
  {
    KeepMembers(vs, lost);
    assert vs[i] in Keep(vs, lost);
  }

  ghost predicate OnlyDefaultOf(vs: seq<Version>, ws: seq<Version>) {
    exists d :: IsDefaultAt(vs, d) && ws == [vs[d]]
  }

  /** When only the default is left to keep, it is the whole store. */
  lemma OnlyDefaultLeft(s: Store, lost: set<nat>)
    requires Inv(s)
    requires forall v :: v in s.versions ==> (v.id in lost <==> !v.isDefault)
    ensures OnlyDefaultOf(s.versions, Keep(s.versions, lost))
  {
    var vs := s.versions;
    var d :| IsDefaultAt(vs, d);
    KeepSingle(vs, lost, d);
  }

  lemma {:induction false} KeepNone(vs: seq<Version>, lost: set<nat>)
    requires forall j :: 0 <= j < |vs| ==> vs[j].id in lost
    ensures Keep(vs, lost) == []
  {
    if vs == [] {
    } else {
      KeepNone(vs[..|vs| - 1], lost);
    }
  }

  lemma {:induction false} KeepSingle(vs: seq<Version>, lost: set<nat>, d: nat)
    requires d < |vs| && forall j :: 0 <= j < |vs| ==> (vs[j].id in lost <==> j != d)
    ensures Keep(vs, lost) == [vs[d]]
  {
    if d < |vs| - 1 {
      KeepSingle(vs[..|vs| - 1], lost, d);
    } else {
      KeepNone(vs[..d], lost);
    }
  }

  ghost predicate Permutes(s: seq<Listed>, t: seq<Listed>) {
    multiset(s) == multiset(t)
  }

  method SwapDown(a: array<Listed>, j: nat)
    requires 0 < j < a.Length
    modifies a
    ensures a[..] == old(a[..])[j := old(a[j - 1])][j - 1 := old(a[j])]
    ensures Permutes(a[..], old(a[..]))
  {
    a[j], a[j - 1] := a[j - 1], a[j];
  }

  /** Moves entry i down past the later-dated entries before it. */
  method Insert(a: array<Listed>, i: nat)
    requires i < a.Length && SortedByDate(a[..i])
    modifies a
    ensures SortedByDate(a[..i + 1])
    ensures Permutes(a[..], old(a[..]))
  {
    var j := i;
    while j > 0 && a[j].created < a[j - 1].created
      invariant 0 <= j <= i
      invariant forall p, q :: 0 <= p < q <= i && q != j ==> a[p].created <= a[q].created
      invariant Permutes(a[..], old(a[..]))
    {
      SwapDown(a, j);
      j := j - 1;
    }
  }

  /** Sorting in place by creation date: insertion, as `sort.Slice` does for a
      short slice. Nothing is promised about entries with equal dates. */
  method SortByCreateDate(a: array<Listed>)
    modifies a
    ensures SortedByDate(a[..])
    ensures Permutes(a[..], old(a[..]))
  {
    var i := 0;
    while i < a.Length
      invariant 0 <= i <= a.Length && SortedByDate(a[..i])
      invariant Permutes(a[..], old(a[..]))
    {
      Insert(a, i);
      i := i + 1;
    }
    assert a[..a.Length] == a[..];
  }

  ghost predicate Deletable(vs: seq<Version>, id: nat) {
    exists i :: 0 <= i < |vs| && vs[i].id == id && !vs[i].isDefault
  }

  /** Every version is on exactly one page, in whatever order. */
  ghost predicate ListsAll(pages: seq<seq<Listed>>, vs: seq<Version>) {
    |pages| >= 1 && multiset(Flatten(pages)) == multiset(Summaries(vs))
  }

  type Layout = f: seq<Version> -> seq<seq<Listed>> | forall vs :: ListsAll(f(vs), vs)
    witness (vs: seq<Version>) => OnePage(Summaries(vs))

  class PolicyBackend {
    const pagesOf: Layout  // order and page split of a listing
    var failures: nat      // injected failures so far
    var store: Store
    var gone: bool

    /** A policy just created, with its first version as the default. */
    constructor (pagesOf: Layout, doc: Doc, now: nat)
      ensures Valid() && !gone && Fresh(store) && DefaultDoc(store) == doc
    {
      this.pagesOf, failures, gone := pagesOf, 0, false;
      store := Store([Version(1, now, doc, true)], 2, now);
      new;
      assert IsDefaultAt(store.versions, 0);
    }

    ghost predicate Valid()
      reads this
    {
      Inv(store)
    }

    /** Any call may fail, and every call about a deleted policy is refused. */
    method Attempt() returns (err: Err)
      modifies this`failures
      ensures Counted(err, old(failures), failures)
      ensures err.None? || err == Some(Injected) || err == Some(NoSuchEntity)
      ensures err.None? ==> !gone
      ensures err == Some(NoSuchEntity) ==> gone
    {
      if * {
        failures := failures + 1;
        return Some(Injected);
      }
      err := if gone then Some(NoSuchEntity) else None;
    }

    method ListPolicyVersions(marker: nat)
      returns (err: Err, page: seq<Listed>, truncated: bool, next: nat)
      requires Valid() && marker < |pagesOf(store.versions)|
      modifies this`failures
      ensures Counted(err, old(failures), failures)
      ensures err.None? || err == Some(Injected) || (gone && err == Some(NoSuchEntity))
      ensures err.None? ==> page == pagesOf(store.versions)[marker] && next == marker + 1
      ensures err.None? ==> (truncated <==> next < |pagesOf(store.versions)|)
    {
      err := Attempt();
      page, next := pagesOf(store.versions)[marker], marker + 1;
      truncated := next < |pagesOf(store.versions)|;
    }

    method GetDefaultVersionId() returns (err: Err, id: nat)
      requires Valid()
      modifies this`failures
      ensures Counted(err, old(failures), failures)
      ensures err.None? || err == Some(Injected) || (gone && err == Some(NoSuchEntity))
      ensures err.None? ==> !gone
      ensures exists d :: IsDefaultAt(store.versions, d) && id == store.versions[d].id
    {
      err := Attempt();
      ghost var d :| IsDefaultAt(store.versions, d);
      var i := 0;
      while !store.versions[i].isDefault
        invariant 0 <= i <= d
        decreases d - i
      {
        i := i + 1;
      }
      id := store.versions[i].id;
    }

    method FindIndex(id: nat) returns (i: nat)
      requires Valid()
      ensures i <= |store.versions|
      ensures i < |store.versions| ==> store.versions[i].id == id
      ensures i == |store.versions| ==> !HasId(store.versions, id)
    {
      i := 0;
      while i < |store.versions| && store.versions[i].id != id
        invariant 0 <= i <= |store.versions|
        invariant forall j :: 0 <= j < i ==> store.versions[j].id != id
      {
        i := i + 1;
      }
    }

    /** Documents come back percent-encoded. */
    method GetPolicyVersion(id: nat) returns (err: Err, raw: Doc)
      requires Valid()
      modifies this`failures
      ensures Counted(err, old(failures), failures)
      ensures err.None? || err == Some(Injected) || (err == Some(NoSuchEntity) && (gone || !HasId(store.versions, id)))
      ensures err.None? ==> exists i ::
                0 <= i < |store.versions| && store.versions[i].id == id && raw == Encode(store.versions[i].doc)
    {
      raw := [];
      err := Attempt();
      if err.None? {
        var i := FindIndex(id);
        if i == |store.versions| {
          err := Some(NoSuchEntity);
        } else {
          raw := Encode(store.versions[i].doc);
          assert HasId(store.versions, id);
        }
      }
    }

    /** Refused for an unknown version and for the default one. */
    method DeletePolicyVersion(id: nat) returns (err: Err, ghost at: nat)
      requires Valid()
      modifies this`failures, this`store
      ensures Valid() && Counted(err, old(failures), failures)
      ensures err.None? ==> !gone && Deletable(old(store).versions, id)
      ensures err.Some? && err != Some(Injected) ==> gone || !Deletable(old(store).versions, id)
      ensures err.Some? ==> store == old(store)
      ensures err.None? ==> at < |old(store).versions| && old(store).versions[at].id == id
                            && store == old(store).(versions := RemoveAt(old(store).versions, at))
    {
      at := 0;
      err := Attempt();
      if err.None? {
        var i := FindIndex(id);
        at := i;
        if i == |store.versions| {
          err := Some(NoSuchEntity);
        } else if store.versions[i].isDefault {
          err := Some(DeleteConflict);
        } else {
          RemovalKeepsInv(store, i);
          store := store.(versions := RemoveAt(store.versions, i));
        }
      }
    }

    /** Creates a version and makes it the default. */
    method CreatePolicyVersion(doc: Doc) returns (err: Err, id: nat)
      requires Valid()
      modifies this`failures, this`store
      ensures Valid() && Counted(err, old(failures), failures)
      ensures err == Some(LimitExceeded) ==> |old(store).versions| >= LIMIT
      ensures err == Some(NoSuchEntity) ==> gone
      ensures err.None? ==> !gone && |old(store).versions| < LIMIT && id == old(store).nextId
      ensures err.None? || err.value in {Injected, LimitExceeded, NoSuchEntity}
      ensures store == if err.Some? then old(store) else AddDefault(old(store), doc)
    {
      id := store.nextId;
      err := Attempt();
      if err.None? {
        if |store.versions| >= LIMIT {
          err := Some(LimitExceeded);
        } else {
          AddKeepsInv(store, doc);
          store := AddDefault(store, doc);
        }
      }
    }

    method DeletePolicy() returns (err: Err)
      requires Valid()
      modifies this`failures, this`gone
      ensures Counted(err, old(failures), failures)
      ensures err == Some(DeleteConflict) ==> |store.versions| > 1
      ensures err == Some(NoSuchEntity) ==> old(gone)
      ensures err.None? || err.value in {Injected, DeleteConflict, NoSuchEntity}
      ensures err.None? ==> |store.versions| <= 1
      ensures gone == (old(gone) || err.None?)
    {
      err := Attempt();
      if err.None? {
        if |store.versions| > 1 {
          err := Some(DeleteConflict);
        } else {
          gone := true;
        }
      }
    }
  }

  lemma SummaryOfVersion(vs: seq<Version>, listed: seq<Listed>)
    requires multiset(listed) == multiset(Summaries(vs))
    ensures |listed| == |vs|
    ensures forall l :: l in listed ==> exists i :: 0 <= i < |vs| && Summary(vs[i]) == l
    ensures forall i :: 0 <= i < |vs| ==> Summary(vs[i]) in listed
  {
    var sums := Summaries(vs);
    assert |multiset(listed)| == |multiset(sums)|;
    forall l | l in listed
      ensures exists i :: 0 <= i < |vs| && Summary(vs[i]) == l
    {
      assert l in multiset(sums);
      assert l in sums;
      var i :| 0 <= i < |sums| && sums[i] == l;
      assert Summary(vs[i]) == l;
    }
    forall i | 0 <= i < |vs|
      ensures Summary(vs[i]) in listed
    {
      assert sums[i] in multiset(listed);
    }
  }

  /** Reads page after page. When a page fails, what was read so far is
      returned with the error. */
  method ListAllVersions(b: PolicyBackend) returns (err: Err, versions: seq<Listed>)
    requires b.Valid()
    modifies b`failures
    ensures ReadSoFar(versions, b.pagesOf(b.store.versions), err.None?)
    ensures Counted(err, old(b.failures), b.failures)
    ensures !b.gone ==> err.None? || err == Some(Injected)
  {
    ghost var pages := b.pagesOf(b.store.versions);
    assert |pages| >= 1 by { assert ListsAll(pages, b.store.versions); }
    versions := [];
    var marker := 0;
    while true
      invariant marker < |pages| && versions == Flatten(pages[..marker])
      invariant b.failures == old(b.failures)
      decreases |pages| - marker
    {
      var e, page, truncated, next := b.ListPolicyVersions(marker);
      err := e;
      if err.Some? {
        return;
      }
      FlattenSnoc(pages, marker);
      versions := versions + page;
      if !truncated {
        assert pages[..marker + 1] == pages;
        return;
      }
      marker := next;
    }
  }

  /** What a listing loop has collected is part of the store; all of it if the
      loop has completed. */
  lemma ReadFromStore(vs: seq<Version>, read: seq<Listed>, pages: seq<seq<Listed>>, complete: bool)
    requires ListsAll(pages, vs) && ReadSoFar(read, pages, complete)
    ensures multiset(read) <= multiset(Summaries(vs))
    ensures complete ==> multiset(read) == multiset(Summaries(vs))
  {
    var k :| 0 <= k <= |pages| && (complete <==> k == |pages|) && read == Flatten(pages[..k]);
    FlattenPrefix(pages, k);
    var all := Flatten(pages);
    assert all == read + all[|read|..];
    assert multiset(all) == multiset(read) + multiset(all[|read|..]);
    assert complete ==> pages[..k] == pages;
  }

  /** All versions, sorted by creation date. When a page fails, the versions of
      the pages before it, sorted, with the error. */
  method GetPolicyVersions(b: PolicyBackend) returns (err: Err, versions: seq<Listed>)
    requires b.Valid()
    modifies b`failures
    ensures SortedByDate(versions) && multiset(versions) <= multiset(Summaries(b.store.versions))
    ensures err.None? ==> multiset(versions) == multiset(Summaries(b.store.versions))
    ensures exists read :: ReadSoFar(read, b.pagesOf(b.store.versions), err.None?) && Permutes(versions, read)
    ensures Counted(err, old(b.failures), b.failures)
    ensures !b.gone ==> err.None? || err == Some(Injected)
  {
    var e, all := ListAllVersions(b);
    err := e;
    assert ListsAll(b.pagesOf(b.store.versions), b.store.versions);
    ReadFromStore(b.store.versions, all, b.pagesOf(b.store.versions), err.None?);
    var a := new Listed[|all|](i requires 0 <= i < |all| => all[i]);
    assert a[..] == all;
    SortByCreateDate(a);
    versions := a[..];
  }

  /** Where a listed entry is in the store. */
  lemma Locate(vs: seq<Version>, listed: seq<Listed>, k: nat) returns (i: nat)
    requires multiset(listed) == multiset(Summaries(vs)) && k < |listed|
    ensures i < |vs| && Summary(vs[i]) == listed[k]
  {
    SummaryOfVersion(vs, listed);
    assert listed[k] in listed;
    i :| 0 <= i < |vs| && Summary(vs[i]) == listed[k];
  }

  lemma ListedIdsDiffer(s: Store, listed: seq<Listed>)
    requires Inv(s) && multiset(listed) == multiset(Summaries(s.versions))
    ensures forall j, k :: 0 <= j < k < |listed| ==> listed[j].id != listed[k].id
  {
    var vs, sums := s.versions, Summaries(s.versions);
    SummaryOfVersion(vs, listed);
    assert Distinct(sums);
    DistinctCount(sums);
    forall l ensures l in listed <==> l in sums {
      assert l in multiset(listed) <==> l in multiset(sums);
    }
    assert Elements(listed) == Elements(sums);
    ElementsBound(listed);
    forall j, k | 0 <= j < k < |listed|
      ensures listed[j].id != listed[k].id
    {
      var p := Locate(vs, listed, j);
      var q := Locate(vs, listed, k);
      assert listed[j] != listed[k];
    }
  }

  lemma NonDefaultListed(s: Store, listed: seq<Listed>)
    requires Inv(s) && |s.versions| > 1 && multiset(listed) == multiset(Summaries(s.versions))
    ensures exists k :: 0 <= k < |listed| && !listed[k].isDefault
  {
    SummaryOfVersion(s.versions, listed);
    var d :| IsDefaultAt(s.versions, d);
    assert Summary(s.versions[if d == 0 then 1 else 0]) in listed;
  }

  /** The first non-default entry of a listing sorted by date is an oldest
      non-default version, and it can be deleted. */
  lemma EvictionTarget(s: Store, listed: seq<Listed>, k: nat)
    requires Inv(s) && multiset(listed) == multiset(Summaries(s.versions)) && SortedByDate(listed)
    requires k < |listed| && !listed[k].isDefault
    requires forall j :: 0 <= j < k ==> listed[j].isDefault
    ensures Deletable(s.versions, listed[k].id)
    ensures forall at :: 0 <= at < |s.versions| && s.versions[at].id == listed[k].id ==>
              OldestNonDefault(s.versions, at)
  {
    var vs := s.versions;
    var i := Locate(vs, listed, k);
    SummaryOfVersion(vs, listed);
    forall j | 0 <= j < |vs| && !vs[j].isDefault
      ensures vs[i].created <= vs[j].created
    {
      var p :| 0 <= p < |listed| && listed[p] == Summary(vs[j]);
      assert k <= p;
    }
  }

  /** Where the first non-default entry of a listing is. */
  ghost predicate FirstOther(listed: seq<Listed>, k: nat) {
    k < |listed| && !listed[k].isDefault && forall j :: 0 <= j < k ==> listed[j].isDefault
  }

  /** Deleting that version of a full store makes room. */
  lemma EvictionMakesRoom(s: Store, listed: seq<Listed>, k: nat, at: nat, t: Store)
    requires Inv(s) && |s.versions| == LIMIT
    requires multiset(listed) == multiset(Summaries(s.versions)) && SortedByDate(listed) && FirstOther(listed, k)
    requires at < |s.versions| && s.versions[at].id == listed[k].id
    requires t == s.(versions := RemoveAt(s.versions, at))
    ensures RoomMade(s, t)
  {
    EvictionTarget(s, listed, k);
    assert Evicted(s, t, at);
  }

  /** Deletes the first non-default version of a listing of a full store. */
  method EvictFirst(b: PolicyBackend, versions: seq<Listed>) returns (err: Err)
    requires b.Valid() && |b.store.versions| == LIMIT
    requires SortedByDate(versions) && multiset(versions) == multiset(Summaries(b.store.versions))
    modifies b`failures, b`store
    ensures b.Valid()
    ensures if err.None? then RoomMade(old(b.store), b.store) else b.store == old(b.store)
    ensures Counted(err, old(b.failures), b.failures)
    ensures !b.gone ==> err.None? || err == Some(Injected)
  {
    ghost var s := b.store;
    NonDefaultListed(s, versions);
    var k := 0;
    while versions[k].isDefault
      invariant 0 <= k < |versions| && forall j :: 0 <= j < k ==> versions[j].isDefault
      invariant exists j :: k <= j < |versions| && !versions[j].isDefault
      decreases |versions| - k
    {
      k := k + 1;
    }
    EvictionTarget(s, versions, k);
    ghost var at;
    err, at := b.DeletePolicyVersion(versions[k].id);
    if err.None? {
      EvictionMakesRoom(s, versions, k, at, b.store);
    }
  }

  /** One version is gone, not the default and none created after another one
      that is not the default. */
  ghost predicate LostOldest(vs: seq<Version>, ws: seq<Version>) {
    exists i :: 0 <= i < |vs| && !vs[i].isDefault && ws == vs[..i] + vs[i + 1..]
                && forall j :: 0 <= j < |vs| && !vs[j].isDefault ==> vs[i].created <= vs[j].created
  }

  /** Makes room for one more version. A full store loses a version that no
      other non-default version predates; any other store is left alone. */
  method EnsureVersionsLimitNotExceeded(b: PolicyBackend) returns (err: Err)
    requires b.Valid()
    modifies b`failures, b`store
    ensures b.Valid()
    ensures err.None? ==> RoomMade(old(b.store), b.store)
    ensures err.None? && |old(b.store).versions| == 5 ==>
              |b.store.versions| == 4 && LostOldest(old(b.store).versions, b.store.versions)
    ensures |old(b.store).versions| != 5 ==> b.store == old(b.store)
    ensures err.Some? ==> b.store == old(b.store)
    ensures Counted(err, old(b.failures), b.failures)
    ensures !b.gone ==> err.None? || err == Some(Injected)
  {
    var e, versions := GetPolicyVersions(b);
    err := e;
    if err.Some? {
      return;
    }
    SummaryOfVersion(b.store.versions, versions);
    if |versions| == LIMIT {
      err := EvictFirst(b, versions);
    }
  }

  /** One attempt to change the document: an `Updated` step on success, a
      `Failed` one on error, and never a refusal by the version limit. */
  method UpdatePolicyDocument(b: PolicyBackend, doc: Doc) returns (err: Err, version: nat)
    requires b.Valid()
    modifies b`failures, b`store
    ensures b.Valid()
    ensures err.None? ==> Step(old(b.store), Updated(doc), b.store) && version == Last(b.store.versions).id
    ensures err.None? ==> Last(b.store.versions) == Version(old(b.store).nextId, old(b.store).now, doc, true)
    ensures err.None? ==> |b.store.versions| == if |old(b.store).versions| == 5 then 5 else |old(b.store).versions| + 1
    ensures err.Some? ==> Step(old(b.store), Failed, b.store)
    ensures err.Some? && |old(b.store).versions| != 5 ==> b.store == old(b.store)
    ensures Counted(err, old(b.failures), b.failures)
    ensures !b.gone ==> err.None? || err == Some(Injected)
  {
    version := 0;
    RoomCanAlwaysBeMade(b.store);
    err := EnsureVersionsLimitNotExceeded(b);
    if err.Some? {
      return;
    }
    var e, id := b.CreatePolicyVersion(doc);
    err, version := e, id;
    if err.None? {
      UpdateLeaves(old(b.store), doc, b.store);
    }
  }

  /** The first k listed versions have been dealt with. */
  ghost predicate Pruned(vs: seq<Version>, listed: seq<Listed>, k: nat, lost: set<nat>)
    requires k <= |listed|
  {
    && (forall v :: v in vs && v.id in lost ==> !v.isDefault)
    && (forall j :: 0 <= j < k && !listed[j].isDefault ==> listed[j].id in lost)
    && (forall id :: id in lost ==> exists j :: 0 <= j < k && listed[j].id == id)
  }

  /** What is lost was created before what is kept, the default apart. */
  ghost predicate OldestFirst(vs: seq<Version>, lost: set<nat>) {
    forall v, w :: v in vs && w in vs && v.id in lost && w.id !in lost && !w.isDefault ==> v.created <= w.created
  }

  lemma PrunedIsOldest(s: Store, listed: seq<Listed>, k: nat, lost: set<nat>)
    requires Inv(s) && multiset(listed) == multiset(Summaries(s.versions)) && SortedByDate(listed)
    requires k <= |listed| && Pruned(s.versions, listed, k, lost)
    ensures OldestFirst(s.versions, lost)
  {
    SummaryOfVersion(s.versions, listed);
    forall v, w | v in s.versions && w in s.versions && v.id in lost && w.id !in lost && !w.isDefault
      ensures v.created <= w.created
    {
      var j :| 0 <= j < k && listed[j].id == v.id;
      var i := Locate(s.versions, listed, j);
      var p :| 0 <= p < |s.versions| && s.versions[p] == v;
      assert p == i;
      var q :| 0 <= q < |s.versions| && s.versions[q] == w;
      assert Summary(s.versions[q]) in listed;
      var r :| 0 <= r < |listed| && listed[r] == Summary(w);
      assert k <= r;
    }
  }

  lemma PruneSkip(vs: seq<Version>, listed: seq<Listed>, k: nat, lost: set<nat>)
    requires k < |listed| && listed[k].isDefault && Pruned(vs, listed, k, lost)
    ensures Pruned(vs, listed, k + 1, lost)
  {
    forall id | id in lost
      ensures exists j :: 0 <= j < k + 1 && listed[j].id == id
    {
      var j :| 0 <= j < k && listed[j].id == id;
    }
  }

  lemma PruneStep(s: Store, listed: seq<Listed>, k: nat, lost: set<nat>)
    requires Inv(s) && multiset(listed) == multiset(Summaries(s.versions))
    requires k < |listed| && !listed[k].isDefault && Pruned(s.versions, listed, k, lost)
    ensures Pruned(s.versions, listed, k + 1, lost + {listed[k].id})
    ensures Deletable(Keep(s.versions, lost), listed[k].id)
    ensures forall at :: 0 <= at < |Keep(s.versions, lost)| && Keep(s.versions, lost)[at].id == listed[k].id ==>
              RemoveAt(Keep(s.versions, lost), at) == Keep(s.versions, lost + {listed[k].id})
  {
    forall at | 0 <= at < |Keep(s.versions, lost)| && Keep(s.versions, lost)[at].id == listed[k].id
      ensures RemoveAt(Keep(s.versions, lost), at) == Keep(s.versions, lost + {listed[k].id})
    {
      KeepRemove(s.versions, lost, at, listed[k].id);
    }
    var i := Locate(s.versions, listed, k);
    ListedIdsDiffer(s, listed);
    StillDeletable(s.versions, lost, i);
    forall id | id in lost + {listed[k].id}
      ensures exists j :: 0 <= j < k + 1 && listed[j].id == id
    {
      if id == listed[k].id {
        assert listed[k].id == id;
      }
    }
  }

  lemma AllPruned(s: Store, listed: seq<Listed>, lost: set<nat>)
    requires Inv(s) && multiset(listed) == multiset(Summaries(s.versions))
    requires Pruned(s.versions, listed, |listed|, lost)
    ensures forall v :: v in s.versions ==> (v.id in lost <==> !v.isDefault)
  {
    SummaryOfVersion(s.versions, listed);
    forall v | v in s.versions && !v.isDefault
      ensures v.id in lost
    {
      var i :| 0 <= i < |s.versions| && s.versions[i] == v;
      assert Summary(v) in listed;
    }
  }

  /** The deletion loop over a listing. */
  method DeleteListed(b: PolicyBackend, versions: seq<Listed>) returns (err: Err, ghost lost: set<nat>, ghost done: nat)
    requires b.Valid() && multiset(versions) == multiset(Summaries(b.store.versions))
    modifies b`failures, b`store
    ensures b.Valid()
    ensures b.store == old(b.store).(versions := Keep(old(b.store).versions, lost))
    ensures done <= |versions| && Pruned(old(b.store).versions, versions, done, lost)
    ensures err.None? ==> done == |versions|
    ensures Counted(err, old(b.failures), b.failures)
    ensures !b.gone ==> err.None? || err == Some(Injected)
  {
    ghost var s := b.store;
    err, lost, done := None, {}, 0;
    KeepAll(s.versions);
    var k := 0;
    while k < |versions|
      invariant k == done <= |versions| && Pruned(s.versions, versions, done, lost)
      invariant b.Valid() && err.None? && b.failures == old(b.failures)
      invariant b.store == s.(versions := Keep(s.versions, lost))
    {
      var v := versions[k];
      if v.isDefault {
        PruneSkip(s.versions, versions, k, lost);
        k, done := k + 1, k + 1;
        continue;
      }
      PruneStep(s, versions, k, lost);
      ghost var at;
      err, at := b.DeletePolicyVersion(v.id);
      if err.Some? {
        return;
      }
      lost := lost + {v.id};
      k, done := k + 1, k + 1;
    }
  }

  /** Removes every version but the default, oldest first. Whatever fails, only
      non-default versions are lost. */
  method DeleteNonDefaultPolicyVersions(b: PolicyBackend) returns (err: Err, ghost lost: set<nat>)
    requires b.Valid()
    modifies b`failures, b`store
    ensures b.Valid()
    ensures b.store == old(b.store).(versions := Keep(old(b.store).versions, lost))
    ensures forall v :: v in old(b.store).versions && v.id in lost ==> !v.isDefault
    ensures OldestFirst(old(b.store).versions, lost)
    ensures err.None? ==> OnlyDefaultOf(old(b.store).versions, b.store.versions)
    ensures Counted(err, old(b.failures), b.failures)
    ensures !b.gone ==> err.None? || err == Some(Injected)
  {
    lost := {};
    KeepAll(b.store.versions);
    var e, versions := GetPolicyVersions(b);
    err := e;
    if err.Some? {
      return;
    }
    ghost var done;
    err, lost, done := DeleteListed(b, versions);
    PrunedIsOldest(old(b.store), versions, done, lost);
    if err.None? {
      AllPruned(old(b.store), versions, lost);
      OnlyDefaultLeft(old(b.store), lost);
    }
  }

  /** Deletes the policy. It never meets a conflict: by the time the policy
      itself goes, only the default version is left. */
  method DeletePolicy(b: PolicyBackend) returns (err: Err, ghost lost: set<nat>)
    requires b.Valid()
    modifies b`failures, b`store, b`gone
    ensures b.Valid()
    ensures b.store == old(b.store).(versions := Keep(old(b.store).versions, lost))
    ensures forall v :: v in old(b.store).versions && v.id in lost ==> !v.isDefault
    ensures OldestFirst(old(b.store).versions, lost)
    ensures err.None? ==> b.gone && |b.store.versions| == 1 && b.store.versions[0] in old(b.store).versions
    ensures err.Some? ==> b.gone == old(b.gone)
    ensures Counted(err, old(b.failures), b.failures)
    ensures !old(b.gone) ==> err.None? || err == Some(Injected)
  {
    err, lost := DeleteNonDefaultPolicyVersions(b);
    if err.Some? {
      return;
    }
    err := b.DeletePolicy();
  }

  /** Reads the policy back: the document of its default version, decoded. */
  method FindDocument(b: PolicyBackend) returns (err: Err, doc: Doc)
    requires b.Valid()
    modifies b`failures
    ensures err.None? ==> doc == DefaultDoc(b.store)
    ensures Counted(err, old(b.failures), b.failures)
    ensures err == Some(NotFound) ==> b.gone
    ensures b.gone ==> err == Some(NotFound) || err == Some(Injected)
    ensures !b.gone ==> err.None? || err == Some(Injected)
  {
    doc := [];
    var e, version := b.GetDefaultVersionId();
    if e.Some? {
      err := if e == Some(NoSuchEntity) then Some(NotFound) else e;
      return;
    }
    ghost var d :| IsDefaultAt(b.store.versions, d) && b.store.versions[d].id == version;
    var e2, raw := b.GetPolicyVersion(version);
    err := e2;
    if err.Some? {
      assert HasId(b.store.versions, version);
      return;
    }
    DecodeInvertsEncode(b.store.versions[d].doc);
    var decoded := Decode(raw);
    assert decoded == Some(DefaultDoc(b.store));
    if decoded.None? {
      return Some(BadEncoding), [];
    }
    doc := decoded.value;
  }
}
