// A role or a group in the backend, and the hooks that read and synchronise
// its attached and inline policies. The hooks of roles and groups are the same
// code over the same kind of calls.
module Principal {
  import opened Base
  import opened Documents
  import opened ManagedPlans
  import opened InlinePlans

  /** Some enumeration of a set. */
  ghost function Listing<T>(s: set<T>): (r: seq<T>)
    ensures Distinct(r) && Elements(r) == s
  {
    if s == {} then []
    else
      var x :| x in s;
      var rest := Listing(s - {x});
      assert Elements([x] + rest) == {x} + Elements(rest);
      [x] + rest
  }

  type ArnLayout = f: set<Arn> -> seq<seq<Arn>> | forall s :: Lists(f(s), s)
    ghost witness (s: set<Arn>) => OnePage(Listing(s))

  type NameLayout = f: set<Name> -> seq<seq<Name>> | forall s :: Lists(f(s), s)
    ghost witness (s: set<Name>) => OnePage(Listing(s))

  class Backend {
    const arnPages: ArnLayout    // order and page split of the attached policies
    const namePages: NameLayout  // order and page split of the inline policy names
    const name: Name
    var failures: nat            // injected failures so far
    var writes: nat              // changes made so far
    var present: bool
    var path: string
    var attached: set<Arn>
    var inline: Inline

    constructor (arnPages: ArnLayout, namePages: NameLayout, name: Name, path: string)
      ensures present && attached == {} && inline == map[] && this.path == path && this.name == name
    {
      this.arnPages, this.namePages, this.name, this.path := arnPages, namePages, name, path;
      failures, writes, present, attached, inline := 0, 0, true, {}, map[];
    }

    /** The principal a call names is this one, and it exists. */
    predicate Named(target: Option<Name>)
      reads this`present
    {
      present && target == Some(name)
    }

    /** Any call may fail, and every call for a name nobody has is refused. */
    method Attempt(target: Option<Name>) returns (err: Err)
      modifies this`failures
      ensures Counted(err, old(failures), failures)
      ensures err.None? || err == Some(Injected) || err == Some(NoSuchEntity)
      ensures err.None? ==> Named(target)
      ensures err == Some(NoSuchEntity) ==> !Named(target)
    {
      if * {
        failures := failures + 1;
        return Some(Injected);
      }
      err := if Named(target) then None else Some(NoSuchEntity);
    }

    method AttachPolicy(target: Option<Name>, arn: Arn) returns (err: Err)
      modifies this`failures, this`writes, this`attached
      ensures Counted(err, old(failures), failures)
      ensures err.Some? ==> attached == old(attached) && writes == old(writes)
      ensures err.None? ==> attached == AfterCall(old(attached), Attach(arn)) && writes == old(writes) + 1
      ensures err.None? ==> Named(target)
      ensures err.None? || err == Some(Injected) || !Named(target)
    {
      err := Attempt(target);
      if err.None? {
        attached, writes := attached + {arn}, writes + 1;
      }
    }

    method DetachPolicy(target: Option<Name>, arn: Arn) returns (err: Err)
      modifies this`failures, this`writes, this`attached
      ensures Counted(err, old(failures), failures)
      ensures err.Some? ==> attached == old(attached) && writes == old(writes)
      ensures err.None? ==> attached == AfterCall(old(attached), Detach(arn)) && writes == old(writes) + 1
      ensures err.None? || err == Some(Injected) || !Named(target) || arn !in old(attached)
      ensures err.None? ==> Named(target) && arn in old(attached)
    {
      err := Attempt(target);
      if err.None? {
        if arn in attached {
          attached, writes := attached - {arn}, writes + 1;
        } else {
          err := Some(NoSuchEntity);
        }
      }
    }

    method ListAttachedPolicies(target: Option<Name>, marker: nat) returns (err: Err, page: seq<Arn>, more: bool)
      requires marker < |arnPages(attached)|
      modifies this`failures
      ensures Counted(err, old(failures), failures)
      ensures err.None? || err == Some(Injected) || !Named(target)
      ensures page == arnPages(attached)[marker] && (more <==> marker + 1 < |arnPages(attached)|)
    {
      err := Attempt(target);
      page, more := arnPages(attached)[marker], marker + 1 < |arnPages(attached)|;
    }

    method ListPolicies(target: Option<Name>, marker: nat) returns (err: Err, page: seq<Name>, more: bool)
      requires marker < |namePages(inline.Keys)|
      modifies this`failures
      ensures Counted(err, old(failures), failures)
      ensures err.None? || err == Some(Injected) || !Named(target)
      ensures page == namePages(inline.Keys)[marker] && (more <==> marker + 1 < |namePages(inline.Keys)|)
    {
      err := Attempt(target);
      page, more := namePages(inline.Keys)[marker], marker + 1 < |namePages(inline.Keys)|;
    }

    /** Documents come back percent-encoded. */
    method GetPolicy(target: Option<Name>, n: Name) returns (err: Err, raw: Doc)
      modifies this`failures
      ensures Counted(err, old(failures), failures)
      ensures err.None? || err == Some(Injected) || !Named(target) || n !in inline
      ensures err.None? ==> n in inline && raw == Encode(inline[n])
    {
      raw := [];
      err := Attempt(target);
      if err.None? {
        if n in inline {
          raw := Encode(inline[n]);
        } else {
          err := Some(NoSuchEntity);
        }
      }
    }

    method PutPolicy(target: Option<Name>, n: Name, doc: Doc) returns (err: Err)
      modifies this`failures, this`writes, this`inline
      ensures Counted(err, old(failures), failures)
      ensures err.Some? ==> inline == old(inline) && writes == old(writes)
      ensures err.None? ==> Named(target) && inline == old(inline)[n := doc] && writes == old(writes) + 1
      ensures err.None? || err == Some(Injected) || (err == Some(NoSuchEntity) && !Named(target))
    {
      err := Attempt(target);
      if err.None? {
        inline, writes := inline[n := doc], writes + 1;
      }
    }

    method DeletePolicy(target: Option<Name>, n: Name) returns (err: Err)
      modifies this`failures, this`writes, this`inline
      ensures Counted(err, old(failures), failures)
      ensures err.Some? ==> inline == old(inline) && writes == old(writes)
      ensures err.None? ==> n in old(inline) && inline == AfterStep(old(inline), Remove(n)) && writes == old(writes) + 1
      ensures err.None? ==> Named(target)
      ensures err.None? || err == Some(Injected) || (err == Some(NoSuchEntity) && (!Named(target) || n !in old(inline)))
    {
      err := Attempt(target);
      if err.None? {
        if n in inline {
          inline, writes := inline - {n}, writes + 1;
        } else {
          err := Some(NoSuchEntity);
        }
      }
    }

    method UpdatePath(target: Option<Name>, newPath: Option<string>) returns (err: Err)
      modifies this`failures, this`writes, this`path
      ensures Counted(err, old(failures), failures)
      ensures err.Some? ==> path == old(path) && writes == old(writes)
      ensures err.None? ==> path == (if newPath.Some? then newPath.value else old(path)) && writes == old(writes) + 1
      ensures err.None? ==> Named(target)
      ensures err.None? || err == Some(Injected) || !Named(target)
    {
      err := Attempt(target);
      if err.None? {
        path, writes := if newPath.Some? then newPath.value else path, writes + 1;
      }
    }

    /** Refused while anything is attached or embedded. */
    method Delete(target: Option<Name>) returns (err: Err)
      modifies this`failures, this`writes, this`present
      ensures Counted(err, old(failures), failures)
      ensures err.Some? ==> present == old(present) && writes == old(writes)
      ensures err.None? ==> old(Named(target)) && !present && attached == {} && inline == map[]
      ensures err == Some(DeleteConflict) ==> attached != {} || inline != map[]
      ensures err.None? || err == Some(Injected) || err == Some(DeleteConflict) || !old(Named(target))
    {
      err := Attempt(target);
      if err.None? {
        if attached != {} || inline != map[] {
          err := Some(DeleteConflict);
        } else {
          present, writes := false, writes + 1;
        }
      }
    }
  }

  // ---- reading ----

  method GetManagedPolicies(b: Backend, target: Option<Name>) returns (err: Err, arns: seq<Arn>)
    modifies b`failures
    ensures Counted(err, old(b.failures), b.failures)
    ensures err.None? ==> Faithful(arns, b.attached) && arns == Flatten(b.arnPages(b.attached))
    ensures err.None? || err == Some(Injected) || !b.Named(target)
  {
    ghost var pages := b.arnPages(b.attached);
    assert Lists(pages, b.attached);
    err, arns := None, [];
    var marker, more := 0, true;
    while more
      invariant err.None? && b.failures == old(b.failures)
      invariant marker <= |pages| && (more <==> marker < |pages|) && arns == Flatten(pages[..marker])
      decreases |pages| - marker
    {
      var e, page, m := b.ListAttachedPolicies(target, marker);
      if e.Some? {
        return e, [];
      }
      FlattenSnoc(pages, marker);
      arns, marker, more := arns + page, marker + 1, m;
    }
    assert pages[..marker] == pages;
  }

  method ListInlineNames(b: Backend, target: Option<Name>) returns (err: Err, names: set<Name>)
    modifies b`failures
    ensures Counted(err, old(b.failures), b.failures)
    ensures err.None? ==> names == b.inline.Keys
    ensures err.None? || err == Some(Injected) || !b.Named(target)
  {
    ghost var pages := b.namePages(b.inline.Keys);
    assert Lists(pages, b.inline.Keys);
    err, names := None, {};
    var marker, more := 0, true;
    while more
      invariant err.None? && b.failures == old(b.failures)
      invariant marker <= |pages| && (more <==> marker < |pages|) && names == Elements(Flatten(pages[..marker]))
      decreases |pages| - marker
    {
      var e, page, m := b.ListPolicies(target, marker);
      if e.Some? {
        return e, {};
      }
      FlattenSnoc(pages, marker);
      names, marker, more := names + (set n | n in page), marker + 1, m;
    }
    assert pages[..marker] == pages;
  }

  /** Names first, then each document, in whatever order the names come out of
      the map; decoding a returned document gives the stored one. */
  method GetInlinePolicies(b: Backend, target: Option<Name>) returns (err: Err, docs: Inline)
    modifies b`failures
    ensures Counted(err, old(b.failures), b.failures)
    ensures err.None? ==> docs == b.inline
    ensures err.None? || err == Some(Injected) || !b.Named(target)
  {
    docs := map[];
    var e, todo := ListInlineNames(b, target);
    err := e;
    if err.Some? {
      return;
    }
    while todo != {}
      invariant err.None? && b.failures == old(b.failures)
      invariant todo <= b.inline.Keys && docs.Keys == b.inline.Keys - todo
      invariant forall n :: n in docs ==> docs[n] == b.inline[n]
    {
      var n :| n in todo;
      var e2, raw := b.GetPolicy(target, n);
      if e2.Some? {
        return e2, map[];
      }
      DecodeInvertsEncode(b.inline[n]);
      var cleaned := Decode(raw);
      if cleaned.None? {
        return Some(BadEncoding), map[];
      }
      docs, todo := docs[n := cleaned.value], todo - {n};
    }
  }

  // ---- attached policies ----

  /** The entries of one list that the other does not have. */
  method Missing(xs: seq<Arn>, ys: seq<Arn>) returns (r: seq<Arn>)
    ensures r == Without(xs, ys)
  {
    r := [];
    for i := 0 to |xs|
      invariant r == Without(xs[..i], ys)
    {
      WithoutSnoc(xs, ys, i);
      if xs[i] !in ys {
        r := r + [xs[i]];
      }
    }
    assert xs[..|xs|] == xs;
  }

  /** The calls of a sync's first loop. */
  method AttachAll(b: Backend, target: Option<Name>, toAdd: seq<Arn>, ghost toDelete: seq<Arn>,
                   ghost plan: seq<ArnCall>)
    returns (err: Err, ghost done: nat)
    requires plan == Calls(toAdd, toDelete)
    modifies b`failures, b`writes, b`attached
    ensures Counted(err, old(b.failures), b.failures)
    ensures b.writes == old(b.writes) + done && done <= |toAdd| && (err.None? <==> done == |toAdd|)
    ensures b.attached == AfterCalls(old(b.attached), plan, done)
    ensures err.None? || err == Some(Injected) || !b.Named(target)
    ensures !b.Named(target) ==> done == 0
  {
    ghost var before := b.attached;
    err, done := None, 0;
    for i := 0 to |toAdd|
      invariant done == i && b.attached == AfterCalls(before, plan, done) && (!b.Named(target) ==> done == 0)
      invariant err.None? && b.failures == old(b.failures) && b.writes == old(b.writes) + done
    {
      err := b.AttachPolicy(target, toAdd[i]);
      if err.Some? {
        return;
      }
      done := done + 1;
    }
  }

  /** From call `from` on, every detach finds its ARN. */
  ghost predicate DetachesFound(before: set<Arn>, plan: seq<ArnCall>, from: nat) {
    forall k :: from <= k < |plan| ==> plan[k].arn in AfterCalls(before, plan, k)
  }

  lemma DetachesAllFound(before: set<Arn>, desired: seq<Arn>, latest: seq<Arn>)
    requires Faithful(latest, before)
    ensures DetachesFound(before, ManagedPlan(desired, latest), |Without(desired, latest)|)
  {
    var plan := ManagedPlan(desired, latest);
    forall k | |Without(desired, latest)| <= k < |plan| ensures plan[k].arn in AfterCalls(before, plan, k) {
      DetachCounts(before, desired, latest, k);
    }
  }

  /** The calls of its second loop. */
  method DetachAll(b: Backend, target: Option<Name>, ghost toAdd: seq<Arn>, toDelete: seq<Arn>,
                   ghost plan: seq<ArnCall>, ghost before: set<Arn>)
    returns (err: Err, ghost done: nat)
    requires plan == Calls(toAdd, toDelete) && b.attached == AfterCalls(before, plan, |toAdd|)
    modifies b`failures, b`writes, b`attached
    ensures Counted(err, old(b.failures), b.failures)
    ensures b.writes == old(b.writes) + done - |toAdd| && |toAdd| <= done <= |plan| && (err.None? <==> done == |plan|)
    ensures b.attached == AfterCalls(before, plan, done)
    ensures DetachesFound(before, plan, |toAdd|) ==> err.None? || err == Some(Injected) || !b.Named(target)
    ensures !b.Named(target) ==> done == |toAdd|
  {
    err, done := None, |toAdd|;
    for i := 0 to |toDelete|
      invariant done == |toAdd| + i && b.attached == AfterCalls(before, plan, done)
      invariant !b.Named(target) ==> done == |toAdd|
      invariant err.None? && b.failures == old(b.failures) && b.writes == old(b.writes) + done - |toAdd|
    {
      err := b.DetachPolicy(target, toDelete[i]);
      if err.Some? {
        return;
      }
      done := done + 1;
    }
  }

  /** Completes some prefix of the plan: all of it, or up to the call that
      failed. With a faithful reading the result is the desired set, and only
      an injected failure can stop the pass. */
  method SyncManagedPolicies(b: Backend, target: Option<Name>, desired: seq<Arn>, latest: seq<Arn>)
    returns (err: Err, ghost done: nat)
    modifies b`failures, b`writes, b`attached
    ensures Counted(err, old(b.failures), b.failures)
    ensures b.writes == old(b.writes) + done && done <= |ManagedPlan(desired, latest)|
    ensures b.attached == AfterCalls(old(b.attached), ManagedPlan(desired, latest), done)
    ensures err.None? <==> done == |ManagedPlan(desired, latest)|
    ensures Faithful(latest, old(b.attached)) ==> err.None? || err == Some(Injected) || !b.Named(target)
    ensures !b.Named(target) ==> done == 0
    ensures Faithful(latest, old(b.attached)) && err.None? ==> b.attached == Elements(desired)
  {
    ghost var before, plan := b.attached, ManagedPlan(desired, latest);
    var toAdd := Missing(desired, latest);
    var toDelete := Missing(latest, desired);
    SyncFacts(before, desired, latest);
    err, done := AttachAll(b, target, toAdd, toDelete, plan);
    if err.None? {
      err, done := DetachAll(b, target, toAdd, toDelete, plan, before);
    }
  }

  lemma SyncFacts(before: set<Arn>, desired: seq<Arn>, latest: seq<Arn>)
    ensures var plan := ManagedPlan(desired, latest);
            Faithful(latest, before) ==>
              && DetachesFound(before, plan, |Without(desired, latest)|)
              && AfterCalls(before, plan, |plan|) == Elements(desired)
  {
    if Faithful(latest, before) {
      DetachesAllFound(before, desired, latest);
      CompletePlanReaches(before, desired, latest);
    }
  }

  // ---- inline policies ----

  /** The entries of a map, in an order nothing is known about. */
  method ToPairs(m: Inline) returns (ps: seq<(Name, Doc)>)
    ensures Enumerates(ps, m)
  {
    ps := [];
    var todo := m.Keys;
    while todo != {}
      invariant todo <= m.Keys
      invariant forall i, j :: 0 <= i < j < |ps| ==> ps[i].0 != ps[j].0
      invariant forall p :: p in ps ==> p.0 in m && p.0 !in todo && m[p.0] == p.1
      invariant forall n :: n in m && n !in todo ==> (n, m[n]) in ps
    {
      var n :| n in todo;
      ps, todo := ps + [(n, m[n])], todo - {n};
    }
  }

  method AddInlinePolicy(b: Backend, target: Option<Name>, n: Name, raw: Doc) returns (err: Err)
    modifies b`failures, b`writes, b`inline
    ensures Counted(err, old(b.failures), b.failures)
    ensures err.Some? ==> b.inline == old(b.inline) && b.writes == old(b.writes)
    ensures err.None? ==> Decode(raw).Some? && b.inline == AfterStep(old(b.inline), Put(n, raw))
                          && b.writes == old(b.writes) + 1 && b.Named(target)
    ensures (err == Some(BadEncoding) <==> BadEscape(raw)) && (BadEscape(raw) <==> Decode(raw).None?)
    ensures err.None? ==> n in b.inline && Writes(raw, b.inline[n]) && b.inline == old(b.inline)[n := b.inline[n]]
    ensures err.None? || err.value in {Injected, BadEncoding} || !b.Named(target)
  {
    DecodeFailsExactlyWhen(raw);
    match Decode(raw)
    case None => err := Some(BadEncoding);
    case Some(doc) =>
      DecodesExactlyItsWritings(raw, doc);
      err := b.PutPolicy(target, n, doc);
  }

  /** The first loop of a sync: every new or changed document is put. */
  method PutAll(b: Backend, target: Option<Name>, toAdd: seq<(Name, Doc)>, ghost plan: seq<InlineStep>)
    returns (err: Err, ghost done: nat)
    requires |toAdd| <= |plan| && forall i :: 0 <= i < |toAdd| ==> plan[i] == Put(toAdd[i].0, toAdd[i].1)
    modifies b`failures, b`writes, b`inline
    ensures Counted(err, old(b.failures), b.failures)
    ensures b.writes == old(b.writes) + done && done <= |toAdd| && (err.None? <==> done == |toAdd|)
    ensures b.inline == AfterSteps(old(b.inline), plan, done) && Sent(plan, done)
    ensures err.None? || err == Some(Injected) || !b.Named(target) || !Sent(plan, |plan|)
    ensures !b.Named(target) ==> done == 0
  {
    ghost var before := b.inline;
    err, done := None, 0;
    for i := 0 to |toAdd|
      invariant done == i && b.inline == AfterSteps(before, plan, done) && Sent(plan, done)
      invariant !b.Named(target) ==> done == 0
      invariant err.None? && b.failures == old(b.failures) && b.writes == old(b.writes) + done
    {
      var (n, raw) := toAdd[i];
      NextStep(before, plan, done);
      NextSent(plan, done);
      err := AddInlinePolicy(b, target, n, raw);
      if err.Some? {
        return;
      }
      done := done + 1;
    }
  }

  /** The second loop: every name that is no longer wanted is removed. */
  method RemoveAll(b: Backend, target: Option<Name>, toDelete: seq<(Name, Doc)>, toAdd: seq<(Name, Doc)>,
                   ghost plan: seq<InlineStep>, ghost before: Inline)
    returns (err: Err, ghost done: nat)
    requires IsPlan(plan, toDelete, toAdd) && |toAdd| <= |plan|
    requires b.inline == AfterSteps(before, plan, |toAdd|)
    modifies b`failures, b`writes, b`inline
    ensures Counted(err, old(b.failures), b.failures)
    ensures b.writes == old(b.writes) + done - |toAdd| && |toAdd| <= done <= |plan| && (err.None? <==> done == |plan|)
    ensures b.inline == AfterSteps(before, plan, done)
    ensures RemovalsFound(before, plan, |toAdd|) ==> err.None? || err == Some(Injected) || !b.Named(target)
    ensures !b.Named(target) ==> done == |toAdd|
  {
    err, done := None, |toAdd|;
    ScanEnds(plan, toDelete, toAdd);
    for i := 0 to |toDelete|
      invariant ScannedTo(plan, toDelete, toAdd, i, done)
      invariant b.inline == AfterSteps(before, plan, done) && (!b.Named(target) ==> done == |toAdd|)
      invariant err.None? && b.failures == old(b.failures) && b.writes == old(b.writes) + done - |toAdd|
    {
      NextRemoval(plan, toDelete, toAdd, i, done);
      if HasName(toAdd, toDelete[i].0) {
        continue;
      }
      NextStep(before, plan, done);
      err := b.DeletePolicy(target, toDelete[i].0);
      if err.Some? {
        return;
      }
      done := done + 1;
    }
  }

  /** Completes some prefix of an exact plan: all of it, or up to the step that
      failed. With a faithful reading the result is the target, and only an
      injected failure or an undecodable document can stop the pass. */
  method SyncInlinePolicies(b: Backend, target: Option<Name>, desired: Inline, latest: Inline)
    returns (err: Err, ghost plan: seq<InlineStep>, ghost done: nat)
    modifies b`failures, b`writes, b`inline
    ensures Counted(err, old(b.failures), b.failures)
    ensures b.writes == old(b.writes) + done
    ensures ExactPlan(plan, latest, desired) && PutsFirst(plan) && done <= |plan| && Sent(plan, done)
    ensures b.inline == AfterSteps(old(b.inline), plan, done)
    ensures err.None? <==> done == |plan|
    ensures !b.Named(target) ==> done == 0
    ensures latest == old(b.inline) && err.None? ==> b.inline == Target(latest, desired) && Sendable(latest, desired)
    ensures latest == old(b.inline) && Sendable(latest, desired) ==>
              err.None? || err == Some(Injected) || !b.Named(target)
  {
    var existingPairs := ToPairs(latest);
    var desiredPairs := ToPairs(desired);
    var toDelete, toAdd := Without(existingPairs, desiredPairs), Without(desiredPairs, existingPairs);
    plan := InlinePlan(existingPairs, desiredPairs);
    ghost var before := b.inline;
    PlanFacts(existingPairs, desiredPairs, latest, desired);
    err, done := PutAll(b, target, toAdd, plan);
    if err.Some? {
      return;
    }
    err, done := RemoveAll(b, target, toDelete, toAdd, plan, before);
    if err.None? && latest == before {
      CompletePlanReachesTarget(plan, before, desired);
    }
  }

  lemma PlanFacts(existing: seq<(Name, Doc)>, wanted: seq<(Name, Doc)>, latest: Inline, desired: Inline)
    requires Enumerates(existing, latest) && Enumerates(wanted, desired)
    ensures var plan := InlinePlan(existing, wanted);
            && ExactPlan(plan, latest, desired) && PutsFirst(plan)
            && RemovalsFound(latest, plan, |Without(wanted, existing)|)
            && (Sendable(latest, desired) ==> Sent(plan, |plan|))
            && forall k :: Sent(plan, |Without(wanted, existing)|) && |Without(wanted, existing)| <= k <= |plan| ==>
                 Sent(plan, k)
  {
    var plan := InlinePlan(existing, wanted);
    EveryOrderGivesAnExactPlan(existing, wanted, latest, desired);
    RemovesAreRemovals(Without(existing, wanted), Without(wanted, existing));
    RemovalsAllFound(latest, plan, desired, |Without(wanted, existing)|);
    if Sendable(latest, desired) {
      SendablePlan(plan, latest, desired);
    }
  }
}
