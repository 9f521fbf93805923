// One reconcile pass of a group: find, compare, update, find, compare. The
// group is the kind whose every spec field can be brought to its desired value.
module GroupPass {
  import opened Base
  import opened Documents
  import opened ManagedPlans
  import opened InlinePlans
  import opened Principal

  /** A nil list or map is an empty one: the comparison only looks at lengths. */
  datatype GroupSpec = GroupSpec(
    name: Option<Name>, path: Option<string>, policies: seq<Arn>, inline: Inline, policyRefs: seq<string>)

  datatype Field = AtInlinePolicies | AtName | AtPath | AtPolicies | AtPolicyRefs

  /** The runtime library's list comparison: order does not matter. On lists
      with duplicates nothing is assumed about it. */
  type ListEqual = f: (seq<Arn>, seq<Arn>) -> bool
    | forall a, b :: Distinct(a) && Distinct(b) ==> (f(a, b) <==> Elements(a) == Elements(b))
    ghost witness (a: seq<Arn>, b: seq<Arn>) => Elements(a) == Elements(b)

  ghost predicate PoliciesAgree(a: seq<Arn>, b: seq<Arn>, same: ListEqual) {
    |a| == |b| && (|a| == 0 || same(a, b))
  }

  /** Nil and a string differ; two strings are compared. */
  function StringsDiffer(a: Option<string>, b: Option<string>): (r: bool)
    ensures r <==> a != b
  {
    a.Some? != b.Some? || (a.Some? && b.Some? && a.value != b.value)
  }

  /** Lengths first, then the entries of non-empty maps. */
  function DocsDiffer(a: Inline, b: Inline): (r: bool)
    ensures r <==> a != b
  {
    assert |a| == 0 ==> a == map[];
    assert |b| == 0 ==> b == map[];
    |a| != |b| || (|a| > 0 && a != b)
  }

  /** The set of fields in which two specs differ. */
  method NewResourceDelta(a: GroupSpec, b: GroupSpec, same: ListEqual) returns (delta: set<Field>)
    ensures AtInlinePolicies in delta <==> a.inline != b.inline
    ensures AtName in delta <==> a.name != b.name
    ensures AtPath in delta <==> a.path != b.path
    ensures AtPolicies in delta <==> !PoliciesAgree(a.policies, b.policies, same)
    ensures AtPolicyRefs in delta <==> a.policyRefs != b.policyRefs
  {
    delta := {};
    delta := AddIf(delta, AtInlinePolicies, DocsDiffer(a.inline, b.inline));
    delta := AddIf(delta, AtName, StringsDiffer(a.name, b.name));
    delta := AddIf(delta, AtPath, StringsDiffer(a.path, b.path));
    delta := AddIf(delta, AtPolicies, |a.policies| != |b.policies|
                                    || (|a.policies| > 0 && !same(a.policies, b.policies)));
    delta := AddIf(delta, AtPolicyRefs, a.policyRefs != b.policyRefs);
  }

  /** What the backend holds of a group. */
  datatype Held = Held(attached: set<Arn>, inline: Inline, path: string)

  ghost function HeldBy(b: Backend): Held
    reads b
  {
    Held(b.attached, b.inline, b.path)
  }

  ghost predicate ReadFrom(latest: GroupSpec, h: Held) {
    Faithful(latest.policies, h.attached) && latest.inline == h.inline
  }

  /** What reading the group returns: the spec that was asked about, with every
      backed field replaced by what the backend holds. */
  ghost predicate Observed(r: GroupSpec, latest: GroupSpec, b: Backend)
    reads b
  {
    && latest.name == r.name == Some(b.name) && latest.path == Some(b.path)
    && ReadFrom(latest, HeldBy(b)) && latest.policies == Flatten(b.arnPages(b.attached))
    && latest.policyRefs == r.policyRefs
  }

  method SdkFind(b: Backend, r: GroupSpec) returns (err: Err, latest: GroupSpec)
    modifies b`failures
    ensures Counted(err, old(b.failures), b.failures)
    ensures err.None? ==> Observed(r, latest, b) && b.present
    ensures b.Named(r.name) ==> err.None? || err == Some(Injected)
    ensures !b.Named(r.name) ==> err == Some(NotFound) || err == Some(Injected)
  {
    latest := r;
    if r.name.None? {
      return Some(NotFound), r;
    }
    err := b.Attempt(r.name);
    if err == Some(NoSuchEntity) {
      return Some(NotFound), r;
    }
    if err.Some? {
      return;
    }
    latest := latest.(name := Some(b.name), path := Some(b.path));
    var e, arns := GetManagedPolicies(b, r.name);
    if e.Some? {
      return e, r;
    }
    var e2, docs := GetInlinePolicies(b, r.name);
    if e2.Some? {
      return e2, r;
    }
    latest := latest.(policies := arns, inline := docs);
  }

  /** How far an update has got with its attach and detach calls and with its
      inline steps. */
  datatype Progress = Progress(calls: nat, plan: seq<InlineStep>, steps: nat)

  ghost predicate PoliciesMoved(before: set<Arn>, now: set<Arn>, desired: seq<Arn>, latest: seq<Arn>, p: Progress) {
    var plan := ManagedPlan(desired, latest);
    p.calls <= |plan| && now == AfterCalls(before, plan, p.calls)
  }

  ghost predicate InlineMoved(before: Inline, now: Inline, desired: Inline, latest: Inline, p: Progress) {
    && p.steps <= |p.plan| && (p.plan == [] || ExactPlan(p.plan, latest, desired)) && Sent(p.plan, p.steps)
    && now == AfterSteps(before, p.plan, p.steps)
  }

  predicate BeyondPoliciesAndDocs(delta: set<Field>)
    ensures BeyondPoliciesAndDocs(delta) <==> AtName in delta || AtPath in delta || AtPolicyRefs in delta
  {
    FieldsBeyond(delta);
    !(delta <= {AtPolicies, AtInlinePolicies})
  }

  lemma FieldsBeyond(delta: set<Field>)
    ensures delta <= {AtPolicies, AtInlinePolicies} <==> !(AtName in delta || AtPath in delta || AtPolicyRefs in delta)
  {
    forall f | f in delta && AtName !in delta && AtPath !in delta && AtPolicyRefs !in delta
      ensures f in {AtPolicies, AtInlinePolicies}
    {
      match f {
        case AtInlinePolicies =>
        case AtName =>
        case AtPath =>
        case AtPolicies =>
        case AtPolicyRefs =>
      }
    }
  }

  /** What the two syncs of an update do: each part is touched only if the delta
      names it, and the policies are done before the documents are begun. */
  ghost predicate Synced(
    h: Held, t: Held, desired: GroupSpec, latest: GroupSpec, delta: set<Field>, p: Progress, complete: bool)
  {
    && (if AtPolicies in delta then PoliciesMoved(h.attached, t.attached, desired.policies, latest.policies, p)
        else t.attached == h.attached && p.calls == 0)
    && (if AtInlinePolicies in delta then InlineMoved(h.inline, t.inline, desired.inline, latest.inline, p)
        else t.inline == h.inline && p.steps == 0)
    && (AtPolicies in delta && (complete || p.steps > 0) ==>
         p.calls == |ManagedPlan(desired.policies, latest.policies)|)
    && (AtInlinePolicies in delta && complete ==>
         p.steps == |p.plan| && ExactPlan(p.plan, latest.inline, desired.inline))
  }

  /** What the whole update does: the path is written last. */
  ghost predicate Advanced(
    h: Held, t: Held, desired: GroupSpec, latest: GroupSpec, delta: set<Field>, p: Progress, complete: bool)
  {
    && Synced(h, t, desired, latest, delta, p, complete)
    && t.path == if complete && BeyondPoliciesAndDocs(delta) && desired.path.Some? then desired.path.value else h.path
  }

  method SyncIfDiffering(b: Backend, desired: GroupSpec, latest: GroupSpec, delta: set<Field>)
    returns (err: Err, ghost p: Progress)
    modifies b`failures, b`writes, b`attached, b`inline
    ensures Counted(err, old(b.failures), b.failures)
    ensures Synced(old(HeldBy(b)), HeldBy(b), desired, latest, delta, p, err.None?)
    ensures b.writes == old(b.writes) + p.calls + p.steps
    ensures delta == {} ==> err.None?
    ensures !b.Named(desired.name) ==> HeldBy(b) == old(HeldBy(b)) && b.writes == old(b.writes)
    ensures ReadFrom(latest, old(HeldBy(b))) && b.Named(desired.name) && Sendable(latest.inline, desired.inline) ==>
              err.None? || err == Some(Injected)
  {
    err := None;
    p := Progress(0, [], 0);
    if AtPolicies in delta {
      ghost var calls;
      err, calls := SyncManagedPolicies(b, desired.name, desired.policies, latest.policies);
      p := p.(calls := calls);
      if err.Some? {
        return;
      }
    }
    if AtInlinePolicies in delta {
      ghost var plan, steps;
      err, plan, steps := SyncInlinePolicies(b, desired.name, desired.inline, latest.inline);
      p := p.(plan := plan, steps := steps);
    }
  }

  /** Each part of the spec is written only if it differs, and as the difference
      between `desired` and `latest` demands, even if `latest` is out of date. */
  method SdkUpdate(b: Backend, desired: GroupSpec, latest: GroupSpec, delta: set<Field>)
    returns (err: Err, ghost p: Progress)
    modifies b`failures, b`writes, b`attached, b`inline, b`path
    ensures Counted(err, old(b.failures), b.failures)
    ensures Advanced(old(HeldBy(b)), HeldBy(b), desired, latest, delta, p, err.None?)
    ensures b.writes == old(b.writes) + p.calls + p.steps + if err.None? && BeyondPoliciesAndDocs(delta) then 1 else 0
    ensures delta == {} ==> err.None?
    ensures !b.Named(desired.name) ==> HeldBy(b) == old(HeldBy(b)) && b.writes == old(b.writes)
    ensures ReadFrom(latest, old(HeldBy(b))) && b.Named(desired.name) && Sendable(latest.inline, desired.inline) ==>
              err.None? || err == Some(Injected)
  {
    ghost var h, t;
    h := HeldBy(b);
    err, p := SyncIfDiffering(b, desired, latest, delta);
    t := HeldBy(b);
    if err.Some? {
      return;
    }
    if !BeyondPoliciesAndDocs(delta) {
      return;
    }
    err := b.UpdatePath(desired.name, desired.path);
    SyncedPart(h, t, b.path, desired, latest, delta, p);
  }

  /** Syncs that have completed are as good as ones that have not, whatever
      becomes of the path. */
  lemma SyncedPart(
    h: Held, t: Held, path: string, desired: GroupSpec, latest: GroupSpec, delta: set<Field>, p: Progress)
    requires Synced(h, t, desired, latest, delta, p, true)
    ensures Synced(h, t.(path := path), desired, latest, delta, p, true)
    ensures Synced(h, t.(path := path), desired, latest, delta, p, false)
  {
  }

  lemma AgreeWhenSynced(desired: seq<Arn>, latest: seq<Arn>, same: ListEqual)
    requires Distinct(latest)
    ensures Distinct(desired) ==> (PoliciesAgree(desired, latest, same) <==> Elements(desired) == Elements(latest))
    ensures !Distinct(desired) && Elements(latest) == Elements(desired) ==> !PoliciesAgree(desired, latest, same)
  {
    DistinctCount(latest);
    ElementsBound(desired);
    if Distinct(desired) {
      DistinctCount(desired);
      if desired == [] && |latest| == 0 {
        assert latest == [];
      }
      if Elements(desired) == Elements(latest) && desired == [] {
        assert |latest| == 0;
      }
    }
  }

  /** What listing the attached policies returns. */
  ghost function ListingOf(b: Backend): (listing: seq<Arn>)
    reads b
    ensures Faithful(listing, b.attached)
  {
    assert Lists(b.arnPages(b.attached), b.attached);
    Flatten(b.arnPages(b.attached))
  }

  /** Nothing differs between the spec and what the backend holds. */
  ghost predicate Agrees(desired: GroupSpec, h: Held, listing: seq<Arn>, same: ListEqual) {
    PoliciesAgree(desired.policies, listing, same) && desired.inline == h.inline && desired.path == Some(h.path)
  }

  /** The condition on which a complete pass leaves nothing to do: a path, inline
      documents that settle, and a policy list that has no duplicates or does not
      differ as it is. */
  ghost predicate PassSettles(desired: GroupSpec, h: Held, listing: seq<Arn>, same: ListEqual) {
    && desired.path.Some? && Settles(h.inline, desired.inline)
    && (Distinct(desired.policies) || PoliciesAgree(desired.policies, listing, same))
  }

  /** How many writes a complete pass makes. */
  ghost function PassWrites(desired: GroupSpec, h: Held, listing: seq<Arn>, same: ListEqual): nat {
    (if PoliciesAgree(desired.policies, listing, same) then 0 else |ManagedPlan(desired.policies, listing)|)
    + |Disagreements(h.inline, desired.inline)|
    + if desired.path == Some(h.path) then 0 else 1
  }

  /** A pass that stopped anywhere, or completed: some calls of the policy plan,
      some steps of an inline plan, and perhaps the path. */
  ghost predicate Passed(h: Held, t: Held, desired: GroupSpec, listing: seq<Arn>, p: Progress) {
    && ManagedPass(h.attached, t.attached, desired.policies, listing, p.calls)
    && ((p.steps == 0 && t.inline == h.inline) || InlinePass(h.inline, t.inline, desired.inline, p.plan, p.steps))
    && (t.path == h.path || Some(t.path) == desired.path)
  }

  /** What a complete pass leaves: the desired policies unless they agreed, the
      inline documents as decoded, and the path if there is one. */
  ghost predicate Completed(h: Held, t: Held, desired: GroupSpec, listing: seq<Arn>, same: ListEqual) {
    && t.attached == (if PoliciesAgree(desired.policies, listing, same) then h.attached else Elements(desired.policies))
    && t.inline == Target(h.inline, desired.inline) && Sendable(h.inline, desired.inline)
    && t.path == (if desired.path.Some? then desired.path.value else h.path)
  }

  /** It leaves nothing to do exactly when it settles. */
  lemma CompletedAgreesExactlyWhen(
    h: Held, t: Held, desired: GroupSpec, listing: seq<Arn>, next: seq<Arn>, same: ListEqual)
    requires Completed(h, t, desired, listing, same)
    requires Faithful(listing, h.attached) && Faithful(next, t.attached)
    requires t.attached == h.attached ==> next == listing
    ensures Agrees(desired, t, next, same) <==> PassSettles(desired, h, listing, same)
  {
    TargetIsDesiredExactlyWhenSettled(h.inline, desired.inline);
    AgreeWhenSynced(desired.policies, listing, same);
    AgreeWhenSynced(desired.policies, next, same);
  }

  /** What the first comparison of a pass finds. */
  ghost predicate FoundToDiffer(delta: set<Field>, desired: GroupSpec, h: Held, listing: seq<Arn>, same: ListEqual) {
    && AtName !in delta && AtPolicyRefs !in delta
    && (AtPolicies in delta <==> !PoliciesAgree(desired.policies, listing, same))
    && (AtInlinePolicies in delta <==> desired.inline != h.inline)
    && (AtPath in delta <==> desired.path != Some(h.path))
  }

  lemma NothingFound(delta: set<Field>, desired: GroupSpec, h: Held, listing: seq<Arn>, same: ListEqual)
    requires FoundToDiffer(delta, desired, h, listing, same)
    ensures delta == {} <==> Agrees(desired, h, listing, same)
  {
    NoField(delta);
  }

  lemma AdvancedIsPassed(
    h: Held, t: Held, desired: GroupSpec, latest: GroupSpec, delta: set<Field>, p: Progress, complete: bool)
    requires ReadFrom(latest, h) && Advanced(h, t, desired, latest, delta, p, complete)
    ensures Passed(h, t, desired, latest.policies, p)
  {
  }

  lemma AdvancedInOrder(
    h: Held, t: Held, desired: GroupSpec, latest: GroupSpec, delta: set<Field>, p: Progress, complete: bool,
    same: ListEqual)
    requires ReadFrom(latest, h) && Advanced(h, t, desired, latest, delta, p, complete)
    requires FoundToDiffer(delta, desired, h, latest.policies, same)
    ensures InOrder(h, t, desired, latest.policies, same)
  {
    CompletePlanReaches(h.attached, desired.policies, latest.policies);
    if complete {
      DocumentsDone(h, t, desired, latest, delta, p);
    }
  }

  lemma DocumentsDone(h: Held, t: Held, desired: GroupSpec, latest: GroupSpec, delta: set<Field>, p: Progress)
    requires ReadFrom(latest, h) && Advanced(h, t, desired, latest, delta, p, true)
    requires AtInlinePolicies in delta <==> desired.inline != h.inline
    ensures t.inline == Target(h.inline, desired.inline) && Sendable(h.inline, desired.inline)
    ensures p.steps == |Disagreements(h.inline, desired.inline)|
  {
    if AtInlinePolicies in delta {
      CompletePlanReachesTarget(p.plan, h.inline, desired.inline);
    }
    PassOutcome(h.inline, desired.inline, t.inline);
    StepsNeeded(p.plan, h.inline, desired.inline, AtInlinePolicies in delta);
  }

  lemma AdvancedCompletes(
    h: Held, t: Held, desired: GroupSpec, latest: GroupSpec, delta: set<Field>, p: Progress, same: ListEqual)
    requires ReadFrom(latest, h) && Advanced(h, t, desired, latest, delta, p, true)
    requires FoundToDiffer(delta, desired, h, latest.policies, same)
    ensures Completed(h, t, desired, latest.policies, same)
    ensures PassWrites(desired, h, latest.policies, same)
            == p.calls + p.steps + if BeyondPoliciesAndDocs(delta) then 1 else 0
  {
    CompletePlanReaches(h.attached, desired.policies, latest.policies);
    DocumentsDone(h, t, desired, latest, delta, p);
    OnlyBackedFields(delta);
  }

  /** The reading half of a pass. */
  method FindAndCompare(b: Backend, desired: GroupSpec, same: ListEqual)
    returns (err: Err, latest: GroupSpec, delta: set<Field>)
    modifies b`failures
    ensures Counted(err, old(b.failures), b.failures)
    ensures err.None? ==> latest.inline == b.inline && latest.policies == ListingOf(b)
    ensures err.None? ==> FoundToDiffer(delta, desired, HeldBy(b), ListingOf(b), same)
    ensures err.None? ==> (delta == {} <==> Agrees(desired, HeldBy(b), ListingOf(b), same))
    ensures b.Named(desired.name) ==> err.None? || err == Some(Injected)
  {
    delta := {};
    err, latest := SdkFind(b, desired);
    if err.None? {
      delta := NewResourceDelta(desired, latest, same);
      NothingFound(delta, desired, HeldBy(b), ListingOf(b), same);
    }
  }

  /** An update along the delta, complete or not, is a pass. */
  method UpdateWhatDiffers(b: Backend, desired: GroupSpec, latest: GroupSpec, first: set<Field>, same: ListEqual)
    returns (err: Err, ghost p: Progress)
    requires latest.inline == b.inline && latest.policies == ListingOf(b)
    requires FoundToDiffer(first, desired, HeldBy(b), ListingOf(b), same)
    modifies b`failures, b`writes, b`attached, b`inline, b`path
    ensures Counted(err, old(b.failures), b.failures)
    ensures Passed(old(HeldBy(b)), HeldBy(b), desired, old(ListingOf(b)), p)
    ensures InOrder(old(HeldBy(b)), HeldBy(b), desired, old(ListingOf(b)), same)
    ensures err.None? ==> Completed(old(HeldBy(b)), HeldBy(b), desired, old(ListingOf(b)), same)
    ensures err.None? ==> b.writes == old(b.writes) + PassWrites(desired, old(HeldBy(b)), old(ListingOf(b)), same)
    ensures b.Named(desired.name) && Sendable(old(b.inline), desired.inline) ==> err.None? || err == Some(Injected)
  {
    ghost var h, listing := HeldBy(b), ListingOf(b);
    err, p := SdkUpdate(b, desired, latest, first);
    OnlyBackedFields(first);
    AdvancedIsPassed(h, HeldBy(b), desired, latest, first, p, err.None?);
    AdvancedInOrder(h, HeldBy(b), desired, latest, first, p, err.None?, same);
    if err.None? {
      AdvancedCompletes(h, HeldBy(b), desired, latest, first, p, same);
    }
  }

  /** Policies before documents before the path. */
  ghost predicate InOrder(h: Held, t: Held, desired: GroupSpec, listing: seq<Arn>, same: ListEqual) {
    && (t.inline != h.inline || t.path != h.path ==>
         t.attached == Elements(desired.policies) || PoliciesAgree(desired.policies, listing, same))
    && (t.path != h.path ==> t.inline == Target(h.inline, desired.inline))
  }

  /** The whole pass. Nothing is written when nothing differed; and when every
      call succeeded, nothing differs afterwards exactly when the pass settles.
      Wherever it stops, it has made a part of the planned changes, in order. */
  method ReconcilePass(b: Backend, desired: GroupSpec, same: ListEqual)
    returns (err: Err, first: set<Field>, second: set<Field>, ghost p: Progress)
    modifies b`failures, b`writes, b`attached, b`inline, b`path
    ensures Counted(err, old(b.failures), b.failures)
    ensures Passed(old(HeldBy(b)), HeldBy(b), desired, old(ListingOf(b)), p)
    ensures InOrder(old(HeldBy(b)), HeldBy(b), desired, old(ListingOf(b)), same)
    ensures err.None? ==> FoundToDiffer(first, desired, old(HeldBy(b)), old(ListingOf(b)), same)
    ensures err.None? ==> (first == {} <==> Agrees(desired, old(HeldBy(b)), old(ListingOf(b)), same))
    ensures err.None? ==> Completed(old(HeldBy(b)), HeldBy(b), desired, old(ListingOf(b)), same)
    ensures err.None? ==> b.writes == old(b.writes) + PassWrites(desired, old(HeldBy(b)), old(ListingOf(b)), same)
    ensures err.None? ==> (second == {} <==> Agrees(desired, HeldBy(b), ListingOf(b), same))
    ensures err.None? ==> (second == {} <==> PassSettles(desired, old(HeldBy(b)), old(ListingOf(b)), same))
    ensures b.Named(desired.name) && Sendable(old(b.inline), desired.inline) ==> err.None? || err == Some(Injected)
  {
    first, second, p := {}, {}, Progress(0, [], 0);
    ghost var h, listing := HeldBy(b), ListingOf(b);
    var latest;
    err, latest, first := FindAndCompare(b, desired, same);
    if err.Some? {
      return;
    }
    err, p := UpdateWhatDiffers(b, desired, latest, first, same);
    if err.Some? {
      return;
    }
    CompletedAgreesExactlyWhen(h, HeldBy(b), desired, listing, ListingOf(b), same);
    err, latest, second := FindAndCompare(b, desired, same);
  }

  /** A pass that finds agreement makes no write and changes nothing. */
  lemma AgreementIsQuiet(h: Held, t: Held, desired: GroupSpec, listing: seq<Arn>, same: ListEqual)
    requires Agrees(desired, h, listing, same) && Completed(h, t, desired, listing, same)
    ensures t == h && PassWrites(desired, h, listing, same) == 0
  {
    NoDisagreement(h.inline, desired.inline);
    PassOutcome(h.inline, desired.inline, h.inline);
  }

  /** A second complete pass makes no write exactly when there is a path and the
      inline documents settle. */
  lemma SecondPassIsQuietExactlyWhen(
    h: Held, t: Held, desired: GroupSpec, listing: seq<Arn>, next: seq<Arn>, same: ListEqual)
    requires Completed(h, t, desired, listing, same)
    requires Faithful(listing, h.attached) && Faithful(next, t.attached)
    requires t.attached == h.attached ==> next == listing
    ensures PassWrites(desired, t, next, same) == 0 <==> desired.path.Some? && Settles(h.inline, desired.inline)
  {
    TargetIsDesiredExactlyWhenSettled(h.inline, desired.inline);
    NoDisagreement(t.inline, desired.inline);
    if !PoliciesAgree(desired.policies, next, same) {
      PlanContents(desired.policies, next);
      NothingIn(Without(desired.policies, next));
      NothingIn(Without(next, desired.policies));
    }
  }

  lemma NothingIn(s: seq<Arn>)
    ensures Elements(s) == {} <==> s == []
  {
    if s != [] {
      assert s[0] in Elements(s);
    }
  }

  /** Two passes in a row: together they write what the first one alone writes
      exactly when there is a path and the inline documents settle, and the second
      finds nothing to do exactly when the first has settled the group. */
  method ReconcileTwice(b: Backend, desired: GroupSpec, same: ListEqual) returns (err: Err, again: set<Field>)
    modifies b`failures, b`writes, b`attached, b`inline, b`path
    ensures Counted(err, old(b.failures), b.failures)
    ensures err.None? ==> (again == {} <==> PassSettles(desired, old(HeldBy(b)), old(ListingOf(b)), same))
    ensures err.None? ==>
              (b.writes == old(b.writes) + PassWrites(desired, old(HeldBy(b)), old(ListingOf(b)), same)
               <==> desired.path.Some? && Settles(old(b.inline), desired.inline))
    ensures err.None? && again == {} ==> Completed(old(HeldBy(b)), HeldBy(b), desired, old(ListingOf(b)), same)
  {
    again := {};
    var first, second;
    ghost var p, h, listing := Progress(0, [], 0), HeldBy(b), ListingOf(b);
    err, first, second, p := ReconcilePass(b, desired, same);
    if err.Some? {
      return;
    }
    ghost var t, next := HeldBy(b), ListingOf(b);
    SecondPassIsQuietExactlyWhen(h, t, desired, listing, next, same);
    err, again, second, p := ReconcilePass(b, desired, same);
    if err.None? && again == {} {
      AgreementIsQuiet(t, HeldBy(b), desired, next, same);
    }
  }

  // ---- any number of passes ----

  /** On how many ARNs and names backend and spec disagree. */
  ghost function Gap(h: Held, desired: GroupSpec): nat {
    Distance(h.attached, Elements(desired.policies)) + |Disagreements(h.inline, desired.inline)|
  }

  lemma PassedKeepsSettling(h: Held, t: Held, desired: GroupSpec, listing: seq<Arn>, p: Progress)
    requires Passed(h, t, desired, listing, p)
    ensures Settles(h.inline, desired.inline) <==> Settles(t.inline, desired.inline)
  {
    if t.inline != h.inline {
      PassKeepsSettling(h.inline, t.inline, desired.inline, p.plan, p.steps);
    }
  }

  lemma PassedCounts(h: Held, t: Held, desired: GroupSpec, listing: seq<Arn>, p: Progress)
    requires Passed(h, t, desired, listing, p)
    requires Distinct(desired.policies) && Settles(h.inline, desired.inline)
    ensures Gap(t, desired) + p.calls + p.steps == Gap(h, desired)
  {
    ManagedPlans.PassCounts(h.attached, t.attached, desired.policies, listing, p.calls);
    if InlinePass(h.inline, t.inline, desired.inline, p.plan, p.steps) {
      InlinePlans.PassCounts(h.inline, t.inline, desired.inline, p.plan, p.steps);
    }
  }

  /** Each pass starts from what the one before left, and may stop anywhere. */
  ghost predicate PassesInTurn(states: seq<Held>, desired: GroupSpec, listings: seq<seq<Arn>>, ps: seq<Progress>) {
    && |states| == |ps| + 1 && |listings| == |ps|
    && forall i :: 0 <= i < |ps| ==> Passed(states[i], states[i + 1], desired, listings[i], ps[i])
  }

  ghost function Work(ps: seq<Progress>): nat {
    if ps == [] then 0 else Work(ps[..|ps| - 1]) + (ps[|ps| - 1].calls + ps[|ps| - 1].steps)
  }

  /** What passes from h to t that made `work` calls have kept and gained. */
  ghost predicate Progressed(h: Held, t: Held, desired: GroupSpec, work: nat) {
    && (Settles(h.inline, desired.inline) <==> Settles(t.inline, desired.inline))
    && (Distinct(desired.policies) && Settles(h.inline, desired.inline) ==> Gap(t, desired) + work == Gap(h, desired))
  }

  lemma OnePassProgressed(h: Held, t: Held, desired: GroupSpec, listing: seq<Arn>, p: Progress)
    requires Passed(h, t, desired, listing, p)
    ensures Progressed(h, t, desired, p.calls + p.steps)
  {
    PassedKeepsSettling(h, t, desired, listing, p);
    if Distinct(desired.policies) && Settles(h.inline, desired.inline) {
      PassedCounts(h, t, desired, listing, p);
    }
  }

  lemma ProgressAdds(a: Held, b: Held, c: Held, desired: GroupSpec, first: nat, second: nat)
    requires Progressed(a, b, desired, first) && Progressed(b, c, desired, second)
    ensures Progressed(a, c, desired, first + second)
  {
  }

  lemma PassesFront(states: seq<Held>, desired: GroupSpec, listings: seq<seq<Arn>>, ps: seq<Progress>)
    requires PassesInTurn(states, desired, listings, ps) && ps != []
    ensures var n := |ps|;
            && PassesInTurn(states[..n], desired, listings[..n - 1], ps[..n - 1])
            && Passed(states[n - 1], states[n], desired, listings[n - 1], ps[n - 1])
  {
  }

  lemma {:induction false} RunCounts(
    states: seq<Held>, desired: GroupSpec, listings: seq<seq<Arn>>, ps: seq<Progress>)
    requires PassesInTurn(states, desired, listings, ps)
    ensures Progressed(states[0], states[|ps|], desired, Work(ps))
    decreases |ps|
  {
    var n := |ps|;
    if n == 0 {
    } else {
      PassesFront(states, desired, listings, ps);
      RunCounts(states[..n], desired, listings[..n - 1], ps[..n - 1]);
      OnePassProgressed(states[n - 1], states[n], desired, listings[n - 1], ps[n - 1]);
      ProgressAdds(states[0], states[n - 1], states[n], desired, Work(ps[..n - 1]), ps[n - 1].calls + ps[n - 1].steps);
    }
  }

  /** However the failures fall: whether the documents settle stays as it was, and
      with a duplicate-free policy list the backend holds the desired policies and
      documents exactly when they settle and as many calls have succeeded as there
      were disagreements at the start. */
  lemma GroupConvergence(
    states: seq<Held>, desired: GroupSpec, listings: seq<seq<Arn>>, ps: seq<Progress>)
    requires PassesInTurn(states, desired, listings, ps)
    ensures Settles(states[|ps|].inline, desired.inline) <==> Settles(states[0].inline, desired.inline)
    ensures Distinct(desired.policies) && Settles(states[0].inline, desired.inline) ==>
              Gap(states[|ps|], desired) + Work(ps) == Gap(states[0], desired)
    ensures Distinct(desired.policies) ==>
              (states[|ps|].attached == Elements(desired.policies) && states[|ps|].inline == desired.inline
               <==> Settles(states[0].inline, desired.inline) && Work(ps) == Gap(states[0], desired))
  {
    RunCounts(states, desired, listings, ps);
    NoGap(states[|ps|], desired);
  }

  lemma NoGap(h: Held, desired: GroupSpec)
    ensures Gap(h, desired) == 0 <==> h.attached == Elements(desired.policies) && h.inline == desired.inline
  {
    NoDistance(h.attached, Elements(desired.policies));
    NoDisagreement(h.inline, desired.inline);
  }

  /** After any number of passes cut short anywhere, a complete pass settles
      exactly when one at the start would have. */
  lemma CutsMakeNoDifference(
    states: seq<Held>, desired: GroupSpec, listings: seq<seq<Arn>>, ps: seq<Progress>,
    before: seq<Arn>, now: seq<Arn>, same: ListEqual)
    requires PassesInTurn(states, desired, listings, ps) && Distinct(desired.policies)
    ensures PassSettles(desired, states[|ps|], now, same) <==> PassSettles(desired, states[0], before, same)
  {
    GroupConvergence(states, desired, listings, ps);
  }

  lemma NoField(delta: set<Field>)
    ensures delta == {} <==> AtInlinePolicies !in delta && AtName !in delta && AtPath !in delta
                             && AtPolicies !in delta && AtPolicyRefs !in delta
  {
    if delta != {} {
      var f :| f in delta;
      match f {
        case AtInlinePolicies =>
        case AtName =>
        case AtPath =>
        case AtPolicies =>
        case AtPolicyRefs =>
      }
    }
  }

  /** A delta without name and references goes beyond policies and documents only
      with the path. */
  lemma OnlyBackedFields(delta: set<Field>)
    requires AtName !in delta && AtPolicyRefs !in delta
    ensures BeyondPoliciesAndDocs(delta) <==> AtPath in delta
  {
  }

  lemma StepsNeeded(plan: seq<InlineStep>, latest: Inline, desired: Inline, differ: bool)
    requires differ <==> latest != desired
    requires differ ==> ExactPlan(plan, latest, desired)
    ensures |Disagreements(latest, desired)| == if differ then |plan| else 0
  {
    if differ {
      ExactPlanSize(plan, latest, desired);
    } else {
      NoDisagreement(latest, desired);
    }
  }

  /** How the documents a pass leaves compare with the desired ones. */
  lemma PassOutcome(before: Inline, desired: Inline, now: Inline)
    requires if before == desired then now == before
             else now == Target(before, desired) && Sendable(before, desired)
    ensures now == desired <==> Settles(before, desired)
    ensures now == Target(before, desired)
  {
    if before != desired {
      TargetIsDesiredExactlyWhenSettled(before, desired);
    } else {
      assert Target(before, desired) == desired;
    }
  }

  /** Complete passes, one after the other. */
  ghost function AfterPasses(start: Inline, desired: Inline, passes: nat): Inline {
    if passes == 0 then start else Target(AfterPasses(start, desired, passes - 1), desired)
  }

  ghost predicate Unsettled(inline: Inline, desired: Inline, n: Name) {
    n in desired && Decode(desired[n]).Some? && !Literal(desired[n]) && !SameAt(inline, desired, n)
  }

  lemma TargetStaysUnsettled(inline: Inline, desired: Inline, n: Name)
    requires Unsettled(inline, desired, n)
    ensures Unsettled(Target(inline, desired), desired, n)
  {
    StableExactlyWhenLiteral(desired[n]);
    assert Target(inline, desired)[n] == Cleaned(desired[n]);
  }

  /** A desired document that decodes to something else, and was not in place,
      differs again after every later pass: such a group never settles. */
  lemma {:induction false} UnsettledForever(start: Inline, desired: Inline, n: Name, passes: nat)
    requires Unsettled(start, desired, n)
    ensures Unsettled(AfterPasses(start, desired, passes), desired, n)
  {
    if passes > 0 {
      UnsettledForever(start, desired, n, passes - 1);
      TargetStaysUnsettled(AfterPasses(start, desired, passes - 1), desired, n);
    }
  }

  /** For example a document that is a single '+'. */
  lemma PlusNeverSettles(passes: nat)
    ensures AfterPasses(map[], map["p" := [PLUS]], passes) != map["p" := [PLUS]]
  {
    var desired := map["p" := [PLUS]];
    assert Decode([PLUS][1..]) == Some([]);
    assert PLUS in desired["p"];
    UnsettledForever(map[], desired, "p", passes);
  }

  /** Deletes the group (or role): everything attached or embedded goes first, so
      the backend never has a reason to refuse when `r` agrees with it. */
  method SdkDelete(b: Backend, r: GroupSpec) returns (err: Err)
    modifies b`failures, b`writes, b`attached, b`inline, b`present
    ensures Counted(err, old(b.failures), b.failures)
    ensures err.None? ==> !b.present && b.attached == {} && b.inline == map[]
    ensures old(b.Named(r.name)) && Faithful(r.policies, old(b.attached)) && r.inline == old(b.inline) ==>
              err.None? || err == Some(Injected)
  {
    ghost var done, plan;
    err, done := SyncManagedPolicies(b, r.name, [], r.policies);
    if err.Some? {
      return;
    }
    err, plan, done := SyncInlinePolicies(b, r.name, map[], r.inline);
    if err.Some? {
      return;
    }
    err := b.Delete(r.name);
  }
}
