// The tag part of a reconcile pass: read, mirror the AWS-owned tags, compare,
// and sync if something differs. The target is computed from what was read, so
// it has to be shown that it does not move while passes come and go.
module TagPass {
  import opened Base
  import opened Tags
  import opened TagPlumbing
  import opened TagDelta
  import opened TagSync

  /** What a pass aims at when the resource holds `held`: the desired tags,
      overlaid with the AWS-owned tags the resource has. */
  function Wanted(desired: TagMap, held: TagMap): TagMap {
    desired + AwsPart(held)
  }

  /** No AWS-owned tag of `before` has been removed or changed. */
  ghost predicate AwsKept(before: TagMap, now: TagMap) {
    forall k :: k in before && IsAws(k) ==> k in now && now[k] == before[k]
  }

  /** The mirrored list is free of nils and repeated keys, whatever the desired
      list looks like, so comparing it with a listing compares the maps. */
  method MirrorAndCompare(desired: seq<Tag>, latest: seq<Tag>) returns (mirrored: seq<Tag>, differ: bool)
    requires NonNil(latest) && KeyUnique(latest)
    ensures TagsOf(mirrored, Wanted(ToMap(desired), ToMap(latest)))
    ensures differ <==> Wanted(ToMap(desired), ToMap(latest)) != ToMap(latest)
  {
    mirrored := MirrorAWSTags(desired, latest);
    FromMapIsTagsOf(Wanted(ToMap(desired), ToMap(latest)), KeyOrder(desired), mirrored);
    ComparingComparesMaps(mirrored, latest);
    differ := CompareTags(mirrored, latest);
  }

  lemma SameTarget(desired: TagMap, held: TagMap, now: TagMap)
    requires forall k :: IsAws(k) ==> (k in now ==> k in Wanted(desired, held) && now[k] == Wanted(desired, held)[k])
    requires AwsKept(held, now)
    ensures Wanted(desired, now) == Wanted(desired, held)
  {
    forall k ensures SameAt(Wanted(desired, now), Wanted(desired, held), k) {
    }
    SameEverywhere(Wanted(desired, now), Wanted(desired, held));
  }

  /** However far a pass gets, in either order of its two calls, the next pass
      aims at the same tags, and AWS-owned tags stay as they were. */
  lemma TargetStandsStill(desired: TagMap, held: TagMap, o: Outcome)
    ensures var w := Wanted(desired, held);
            && Wanted(desired, AfterTagFirst(held, w, o)) == w
            && Wanted(desired, AfterUntagFirst(held, w, o)) == w
    ensures var w := Wanted(desired, held);
            AwsKept(held, AfterTagFirst(held, w, o)) && AwsKept(held, AfterUntagFirst(held, w, o))
  {
    var w := Wanted(desired, held);
    SameTarget(desired, held, AfterTagFirst(held, w, o));
    SameTarget(desired, held, AfterUntagFirst(held, w, o));
  }

  /** Passes one after the other, each aiming at what it reads. */
  ghost function RunMirrored(held: TagMap, desired: TagMap, os: seq<Outcome>): TagMap {
    if os == [] then held
    else
      var now := RunMirrored(held, desired, os[..|os| - 1]);
      AfterTagFirst(now, Wanted(desired, now), os[|os| - 1])
  }

  lemma {:induction false} MirroredRun(held: TagMap, desired: TagMap, os: seq<Outcome>)
    ensures var w := Wanted(desired, held);
            && RunMirrored(held, desired, os) == RunTagFirst(held, w, os)
            && Wanted(desired, RunMirrored(held, desired, os)) == w
            && AwsKept(held, RunMirrored(held, desired, os))
  {
    if os == [] {
    } else {
      MirroredRun(held, desired, os[..|os| - 1]);
      TargetStandsStill(desired, RunMirrored(held, desired, os[..|os| - 1]), os[|os| - 1]);
    }
  }

  /** Tagging first, with mirroring and with passes cut short anywhere: after a
      complete pass the resource holds the desired tags and the AWS-owned ones it
      began with exactly when no value had to change or an earlier pass has
      reached its tag call. */
  lemma MirroredPassesConverge(held: TagMap, desired: TagMap, os: seq<Outcome>)
    requires os != [] && os[|os| - 1] == Complete
    ensures var w := Wanted(desired, held);
            RunMirrored(held, desired, os) == w <==> NoConflict(held, w) || Started(os[..|os| - 1])
    ensures AwsKept(held, RunMirrored(held, desired, os))
  {
    MirroredRun(held, desired, os);
    TagFirstConverges(held, Wanted(desired, held), os);
  }

  /** The tag part of a role's pass, and the comparison of the next one. It
      differs again exactly when some key had one value on the resource and
      another in the mirrored list. */
  method RoleTagPass(b: TaggedResource, desired: seq<Tag>)
    returns (err: Err, first: bool, second: bool, ghost o: Outcome)
    modifies b`failures, b`calls, b`tags
    ensures Counted(err, old(b.failures), b.failures) && (err.None? || err == Some(Injected))
    ensures var w := Wanted(ToMap(desired), old(b.tags)); b.tags == AfterTagFirst(old(b.tags), w, o)
    ensures AwsKept(old(b.tags), b.tags)
    ensures err.None? ==> o == Complete && (first <==> Wanted(ToMap(desired), old(b.tags)) != old(b.tags))
    ensures err.None? ==> (second <==> !NoConflict(old(b.tags), Wanted(ToMap(desired), old(b.tags))))
    ensures err.None? && !second ==> b.tags == Wanted(ToMap(desired), old(b.tags))
  {
    first, second, o := false, false, Nothing;
    ghost var before := b.tags;
    ghost var w := Wanted(ToMap(desired), before);
    var e, latest := GetTags(b);
    TargetStandsStill(ToMap(desired), before, Nothing);
    if e.Some? {
      return e, first, second, o;
    }
    var mirrored, differ := MirrorAndCompare(desired, latest);
    first := differ;
    if differ {
      err, o := SyncTagsTagFirst(b, mirrored, latest);
      TargetStandsStill(ToMap(desired), before, o);
      if err.Some? {
        return;
      }
    } else {
      o := Complete;
      TargetStandsStill(ToMap(desired), before, o);
      TagFirstSettlesExactlyWhen(before, w);
    }
    TagFirstSettlesExactlyWhen(before, w);
    e, latest := GetTags(b);
    if e.Some? {
      return e, first, second, o;
    }
    mirrored, second := MirrorAndCompare(desired, latest);
    err := None;
  }
}
