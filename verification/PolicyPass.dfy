// One reconcile pass of a managed policy: read, mirror, compare, update, read,
// mirror, compare. Tags go first and the document second, each only if it
// differs.
module PolicyPass {
  import opened Base
  import opened Documents
  import opened PolicyVersions
  import opened ManagedPolicy
  import opened Tags
  import opened TagPlumbing
  import opened TagDelta
  import opened TagSync
  import opened TagPass

  datatype PolicySpec = PolicySpec(
    arn: Option<string>, name: Option<string>, path: Option<string>, description: Option<string>,
    doc: Doc, tags: seq<Tag>)

  datatype Field = AtTags | AtDescription | AtName | AtPath | AtDocument

  /** The library's document comparison; nothing is known about it. */
  type SameDocument = (Doc, Doc) -> bool

  class Policy {
    const name: Option<string>
    const path: Option<string>
    const description: Option<string>
    const versions: PolicyBackend
    const tagging: TaggedResource

    constructor (name: Option<string>, path: Option<string>, description: Option<string>,
                 versions: PolicyBackend, tagging: TaggedResource)
      ensures this.versions == versions && this.tagging == tagging
    {
      this.name, this.path, this.description := name, path, description;
      this.versions, this.tagging := versions, tagging;
    }

    ghost predicate Valid()
      reads versions
    {
      versions.Valid()
    }

    ghost function Failures(): nat
      reads versions, tagging
    {
      versions.failures + tagging.failures
    }

    /** What no update can change. */
    ghost predicate Fits(r: PolicySpec) {
      r.name == name && r.path == path && r.description == description
    }
  }

  ghost predicate Observed(latest: PolicySpec, p: Policy)
    requires p.Valid()
    reads p.versions, p.tagging
  {
    p.Fits(latest) && latest.doc == DefaultDoc(p.versions.store) && TagsOf(latest.tags, p.tagging.tags)
  }

  ghost predicate Answers(err: Err, r: PolicySpec, p: Policy)
    reads p.versions
  {
    if r.arn.None? then err == Some(NotFound)
    else if p.versions.gone then err == Some(NotFound) || err == Some(Injected)
    else err.None? || err == Some(Injected)
  }

  /** Tags and attributes come with the policy itself, the document with its
      default version. */
  method SdkFind(p: Policy, r: PolicySpec) returns (err: Err, latest: PolicySpec)
    requires p.Valid()
    modifies p.versions`failures
    ensures Counted(err, old(p.Failures()), p.Failures())
    ensures err.None? ==> Observed(latest, p) && latest.arn == r.arn
    ensures Answers(err, r, p)
  {
    latest := r;
    if r.arn.None? {
      return Some(NotFound), r;
    }
    var e, doc := FindDocument(p.versions);
    if e.Some? {
      return e, r;
    }
    var ts := Enumerate(p.tagging.tags);
    err, latest := None, PolicySpec(r.arn, p.name, p.path, p.description, doc, ts);
  }

  /** Reads the policy, and mirrors AWS-owned tags into the desired spec. */
  method ReadOne(p: Policy, r: PolicySpec) returns (err: Err, desired: PolicySpec, latest: PolicySpec)
    requires p.Valid()
    modifies p.versions`failures
    ensures Counted(err, old(p.Failures()), p.Failures())
    ensures err.None? ==> Observed(latest, p) && desired == r.(tags := desired.tags)
                          && TagsOf(desired.tags, Wanted(ToMap(r.tags), p.tagging.tags))
    ensures err.Some? ==> desired == r
    ensures Answers(err, r, p)
  {
    desired := r;
    err, latest := SdkFind(p, r);
    if err.None? {
      var ts := MirrorAWSTags(r.tags, latest.tags);
      FromMapIsTagsOf(Wanted(ToMap(r.tags), p.tagging.tags), KeyOrder(r.tags), ts);
      desired := r.(tags := ts);
    }
  }

  method NewResourceDelta(a: PolicySpec, b: PolicySpec, same: SameDocument) returns (delta: set<Field>)
    requires Comparable(a.tags, b.tags)
    ensures AtTags in delta <==> |a.tags| != |b.tags| || !TagsEqual(a.tags, b.tags)
    ensures KeyUnique(a.tags) || KeyUnique(b.tags) ==>
              (AtTags in delta <==> multiset(Filled(a.tags)) != multiset(Filled(b.tags)))
    ensures AtDescription in delta <==> a.description != b.description
    ensures AtName in delta <==> a.name != b.name
    ensures AtPath in delta <==> a.path != b.path
    ensures AtDocument in delta <==> !same(a.doc, b.doc)
  {
    var tagsDiffer := CompareTags(a.tags, b.tags);
    delta := AddIf({}, AtTags, tagsDiffer);
    delta := AddIf(delta, AtDescription, a.description != b.description);
    delta := AddIf(delta, AtName, a.name != b.name);
    delta := AddIf(delta, AtPath, a.path != b.path);
    delta := AddIf(delta, AtDocument, !same(a.doc, b.doc));
  }

  /** The store is as it was, or one update, complete or not, has gone by. */
  ghost predicate AtMostOneUpdate(s: Store, doc: Doc, t: Store) {
    t == s || Step(s, Updated(doc), t) || Step(s, Failed, t)
  }

  /** Tags before the document: the store is only touched once the tags are
      right, and nothing else of the policy is ever written. */
  method CustomUpdatePolicy(p: Policy, desired: PolicySpec, latest: PolicySpec, delta: set<Field>)
    returns (err: Err, ghost o: Outcome)
    requires p.Valid() && NonNil(latest.tags) && NonNil(desired.tags)
    modifies p.versions`failures, p.versions`store, p.tagging`failures, p.tagging`calls, p.tagging`tags
    ensures p.Valid() && Counted(err, old(p.Failures()), p.Failures())
    ensures AtTags !in delta ==> p.tagging.tags == old(p.tagging.tags) && p.tagging.calls == old(p.tagging.calls)
    ensures p.tagging.calls <= old(p.tagging.calls) + 2
    ensures AtTags in delta ==>
              && p.tagging.tags == UntagFirstReached(old(p.tagging.tags), Without(desired.tags, latest.tags),
                                                     Without(latest.tags, desired.tags), o)
              && p.tagging.calls == old(p.tagging.calls)
                 + CallsMade(Without(latest.tags, desired.tags), Without(desired.tags, latest.tags), o)
    ensures AtTags in delta && KeyUnique(desired.tags) && TagsOf(latest.tags, old(p.tagging.tags)) ==>
              p.tagging.tags == AfterUntagFirst(old(p.tagging.tags), ToMap(desired.tags), o)
    ensures err.None? ==> o == Complete
    ensures AtDocument !in delta ==> p.versions.store == old(p.versions.store)
    ensures err.None? && AtDocument in delta ==> Step(old(p.versions.store), Updated(desired.doc), p.versions.store)
    ensures AtMostOneUpdate(old(p.versions.store), desired.doc, p.versions.store)
    ensures p.versions.store != old(p.versions.store) ==> o == Complete
    ensures KeyUnique(desired.tags) && !p.versions.gone ==> err.None? || err == Some(Injected)
  {
    err, o := None, Complete;
    if AtTags in delta {
      err, o := SyncTagsUntagFirst(p.tagging, desired.tags, latest.tags);
      if err.Some? {
        return;
      }
    }
    if AtDocument in delta {
      var e, _ := UpdatePolicyDocument(p.versions, desired.doc);
      err := e;
    }
  }

  lemma NoField(delta: set<Field>)
    ensures delta == {} <==> AtTags !in delta && AtDescription !in delta && AtName !in delta
                             && AtPath !in delta && AtDocument !in delta
  {
    if delta != {} {
      var f :| f in delta;
      match f {
        case AtTags =>
        case AtDescription =>
        case AtName =>
        case AtPath =>
        case AtDocument =>
      }
    }
  }

  /** What a pass has done to the tags: nothing, or as much of a sync towards
      the mirrored tags as it got to; AWS-owned ones are never touched. */
  ghost predicate TagsMoved(before: TagMap, desired: TagMap, now: TagMap, o: Outcome) {
    && (now == before || now == AfterUntagFirst(before, Wanted(desired, before), o))
    && AwsKept(before, now)
    && Wanted(desired, now) == Wanted(desired, before)
  }

  lemma MovedTags(before: TagMap, desired: TagMap, now: TagMap, o: Outcome)
    requires now == before || now == AfterUntagFirst(before, Wanted(desired, before), o)
    ensures TagsMoved(before, desired, now, o)
  {
    TargetStandsStill(desired, before, o);
    TargetStandsStill(desired, before, Nothing);
  }

  /** What a comparison finds when the policy has these tags and this document. */
  ghost predicate FoundToDiffer(
    delta: set<Field>, p: Policy, r: PolicySpec, tags: TagMap, doc: Doc, same: SameDocument)
  {
    && (AtTags in delta <==> Wanted(ToMap(r.tags), tags) != tags)
    && (AtDocument in delta <==> !same(r.doc, doc))
    && (AtName in delta <==> r.name != p.name)
    && (AtPath in delta <==> r.path != p.path)
    && (AtDescription in delta <==> r.description != p.description)
  }

  /** Nothing differs. */
  ghost predicate Quiet(p: Policy, r: PolicySpec, tags: TagMap, doc: Doc, same: SameDocument) {
    p.Fits(r) && Wanted(ToMap(r.tags), tags) == tags && same(r.doc, doc)
  }

  lemma NothingFound(delta: set<Field>, p: Policy, r: PolicySpec, tags: TagMap, doc: Doc, same: SameDocument)
    requires FoundToDiffer(delta, p, r, tags, doc, same)
    ensures delta == {} <==> Quiet(p, r, tags, doc, same)
  {
    NoField(delta);
  }

  /** The condition on which a complete pass leaves nothing to do, when the policy
      has this document. */
  ghost predicate PassSettles(p: Policy, r: PolicySpec, doc: Doc, same: SameDocument) {
    p.Fits(r) && (same(r.doc, doc) || same(r.doc, r.doc))
  }

  /** The reading half of a pass. */
  method ReadAndCompare(p: Policy, r: PolicySpec, same: SameDocument)
    returns (err: Err, desired: PolicySpec, latest: PolicySpec, delta: set<Field>)
    requires p.Valid()
    modifies p.versions`failures
    ensures Counted(err, old(p.Failures()), p.Failures())
    ensures err.None? ==> desired == r.(tags := desired.tags) && TagsOf(latest.tags, p.tagging.tags)
    ensures err.None? ==> TagsOf(desired.tags, Wanted(ToMap(r.tags), p.tagging.tags))
    ensures err.None? ==> FoundToDiffer(delta, p, r, p.tagging.tags, DefaultDoc(p.versions.store), same)
    ensures err.None? ==> (delta == {} <==> Quiet(p, r, p.tagging.tags, DefaultDoc(p.versions.store), same))
    ensures Answers(err, r, p)
  {
    delta := {};
    err, desired, latest := ReadOne(p, r);
    if err.None? {
      ComparingComparesMaps(desired.tags, latest.tags);
      delta := NewResourceDelta(desired, latest, same);
      NothingFound(delta, p, r, p.tagging.tags, DefaultDoc(p.versions.store), same);
    }
  }

  /** The whole pass, for any desired tag list. When every call succeeded, the
      tags are the mirrored ones and never differ again; a version is added only
      if the document differed; the document differs again exactly when it was
      written although the comparison does not even take it for itself; a
      difference in name, path or description stays. */
  method ReconcilePass(p: Policy, r: PolicySpec, same: SameDocument)
    returns (err: Err, first: set<Field>, second: set<Field>, ghost o: Outcome)
    requires p.Valid()
    modifies p.versions`failures, p.versions`store, p.tagging`failures, p.tagging`calls, p.tagging`tags
    ensures p.Valid() && Counted(err, old(p.Failures()), p.Failures())
    ensures TagsMoved(old(p.tagging.tags), ToMap(r.tags), p.tagging.tags, o)
    ensures AtMostOneUpdate(old(p.versions.store), r.doc, p.versions.store)
    ensures p.versions.store != old(p.versions.store) ==>
              p.tagging.tags == Wanted(ToMap(r.tags), old(p.tagging.tags))
    ensures err.None? ==> p.tagging.tags == Wanted(ToMap(r.tags), old(p.tagging.tags))
    ensures err.None? ==>
              FoundToDiffer(first, p, r, old(p.tagging.tags), old(DefaultDoc(p.versions.store)), same)
    ensures err.None? ==>
              FoundToDiffer(second, p, r, p.tagging.tags, DefaultDoc(p.versions.store), same)
    ensures err.None? ==> (first == {} <==> Quiet(p, r, old(p.tagging.tags), old(DefaultDoc(p.versions.store)), same))
    ensures err.None? && same(r.doc, old(DefaultDoc(p.versions.store))) ==> p.versions.store == old(p.versions.store)
    ensures err.None? && !same(r.doc, old(DefaultDoc(p.versions.store))) ==>
              Step(old(p.versions.store), Updated(r.doc), p.versions.store) && DefaultDoc(p.versions.store) == r.doc
    ensures err.None? ==> p.versions.store.nextId == old(p.versions.store.nextId)
                          + if same(r.doc, old(DefaultDoc(p.versions.store))) then 0 else 1
    ensures err.None? ==> (second == {} <==> PassSettles(p, r, old(DefaultDoc(p.versions.store)), same))
    ensures err.None? && Wanted(ToMap(r.tags), old(p.tagging.tags)) == old(p.tagging.tags) ==>
              p.tagging.calls == old(p.tagging.calls)
    ensures p.tagging.calls <= old(p.tagging.calls) + 2
    ensures Answers(err, r, p)
  {
    first, second, o := {}, {}, Nothing;
    ghost var before := p.tagging.tags;
    MovedTags(before, ToMap(r.tags), before, o);
    var desired, latest;
    err, desired, latest, first := ReadAndCompare(p, r, same);
    if err.Some? {
      return;
    }
    err, o := CustomUpdatePolicy(p, desired, latest, first);
    MovedTags(before, ToMap(r.tags), p.tagging.tags, o);
    if err.Some? {
      return;
    }
    if AtDocument in first {
      UpdateKeepsInv(old(p.versions.store), r.doc, p.versions.store);
    }
    err, desired, latest, second := ReadAndCompare(p, r, same);
  }

  /** Two passes in a row: the second finds nothing to do exactly when the first
      has settled the policy. It makes no tag call, and it adds a version exactly
      when the first one did and the comparison does not take the document for
      itself. */
  method ReconcileTwice(p: Policy, r: PolicySpec, same: SameDocument) returns (err: Err, again: set<Field>)
    requires p.Valid()
    modifies p.versions`failures, p.versions`store, p.tagging`failures, p.tagging`calls, p.tagging`tags
    ensures p.Valid() && Counted(err, old(p.Failures()), p.Failures())
    ensures err.None? ==> (again == {} <==> PassSettles(p, r, old(DefaultDoc(p.versions.store)), same))
    ensures err.None? ==> p.tagging.tags == Wanted(ToMap(r.tags), old(p.tagging.tags))
    ensures err.None? ==> p.tagging.calls <= old(p.tagging.calls) + 2
    ensures err.None? ==> p.versions.store.nextId == old(p.versions.store.nextId)
                          + (if same(r.doc, old(DefaultDoc(p.versions.store))) then 0 else 1)
                          + if same(r.doc, old(DefaultDoc(p.versions.store))) || same(r.doc, r.doc) then 0 else 1
  {
    again := {};
    var first, second;
    ghost var o;
    err, first, second, o := ReconcilePass(p, r, same);
    if err.None? {
      err, again, second, o := ReconcilePass(p, r, same);
    }
  }
}
