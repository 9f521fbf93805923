// Inline policies of a role or a group: the steps one sync will take from the
// observed documents to the desired ones, for every enumeration order of the
// two maps.
module InlinePlans {
  import opened Base
  import opened Documents

  type Name = string
  type Inline = map<Name, Doc>

  datatype InlineStep =
    | Put(name: Name, raw: Doc)   // the document is decoded before it is sent
    | Remove(name: Name)

  function HasName(ps: seq<(Name, Doc)>, name: Name): bool {
    exists p | p in ps :: p.0 == name
  }

  function Puts(toAdd: seq<(Name, Doc)>): (steps: seq<InlineStep>)
    ensures |steps| == |toAdd|
  {
    seq(|toAdd|, i requires 0 <= i < |toAdd| => Put(toAdd[i].0, toAdd[i].1))
  }

  /** A name that was just put is not removed again. */
  function Removes(toDelete: seq<(Name, Doc)>, toAdd: seq<(Name, Doc)>): seq<InlineStep> {
    if toDelete == [] then []
    else
      var last := toDelete[|toDelete| - 1];
      Removes(toDelete[..|toDelete| - 1], toAdd) + if HasName(toAdd, last.0) then [] else [Remove(last.0)]
  }

  function InlinePlan(existing: seq<(Name, Doc)>, desired: seq<(Name, Doc)>): seq<InlineStep> {
    var toDelete, toAdd := Without(existing, desired), Without(desired, existing);
    Puts(toAdd) + Removes(toDelete, toAdd)
  }

  /** What the backend stores for a desired document. */
  function Cleaned(raw: Doc): Doc {
    match Decode(raw)
    case None => raw
    case Some(d) => d
  }

  function AfterStep(inline: Inline, step: InlineStep): Inline {
    if step.Put? then inline[step.name := Cleaned(step.raw)] else inline - {step.name}
  }

  /** The documents once the first k steps of a plan have succeeded. */
  ghost function AfterSteps(before: Inline, plan: seq<InlineStep>, k: nat): Inline
    requires k <= |plan|
  {
    if k == 0 then before else AfterStep(AfterSteps(before, plan, k - 1), plan[k - 1])
  }

  lemma NextStep(before: Inline, plan: seq<InlineStep>, k: nat)
    requires k < |plan|
    ensures AfterSteps(before, plan, k + 1) == AfterStep(AfterSteps(before, plan, k), plan[k])
  {
  }

  /** Every put among the first k steps had a document that decodes. */
  ghost predicate Sent(plan: seq<InlineStep>, k: nat) {
    forall i :: 0 <= i < k && i < |plan| && plan[i].Put? ==> Decode(plan[i].raw).Some?
  }

  lemma NextSent(plan: seq<InlineStep>, k: nat)
    requires Sent(plan, k) && k < |plan| && plan[k].Put?
    ensures if Decode(plan[k].raw).Some? then Sent(plan, k + 1) else !Sent(plan, |plan|)
  {
  }

  // ---- what every plan contains ----

  ghost predicate NamesDiffer(steps: seq<InlineStep>) {
    forall i, j :: 0 <= i < j < |steps| ==> steps[i].name != steps[j].name
  }

  /** The step a name needs, if the two maps disagree on it. */
  function Needed(latest: Inline, desired: Inline, n: Name): InlineStep {
    if n in desired then Put(n, desired[n]) else Remove(n)
  }

  /** One step for each name on which the two maps disagree, and no other. */
  ghost predicate ExactPlan(steps: seq<InlineStep>, latest: Inline, desired: Inline) {
    && NamesDiffer(steps)
    && (forall s :: s in steps ==> !SameAt(latest, desired, s.name) && s == Needed(latest, desired, s.name))
    && (forall n :: n in latest.Keys + desired.Keys && !SameAt(latest, desired, n) ==>
         Needed(latest, desired, n) in steps)
  }

  ghost predicate PutsFirst(steps: seq<InlineStep>) {
    forall i, j :: 0 <= i < j < |steps| && steps[j].Put? ==> steps[i].Put?
  }

  ghost predicate PairNamesDiffer(ps: seq<(Name, Doc)>) {
    forall i, j :: 0 <= i < j < |ps| ==> ps[i].0 != ps[j].0
  }

  lemma {:induction false} WithoutNamesDiffer(ps: seq<(Name, Doc)>, qs: seq<(Name, Doc)>)
    requires PairNamesDiffer(ps)
    ensures PairNamesDiffer(Without(ps, qs))
  {
    if ps == [] {
    } else {
      var front := ps[..|ps| - 1];
      WithoutNamesDiffer(front, qs);
      WithoutMembers(front, qs);
      forall p | p in Without(front, qs)
        ensures p.0 != ps[|ps| - 1].0
      {
        assert p in front;
      }
    }
  }

  lemma {:induction false} RemovesContents(toDelete: seq<(Name, Doc)>, toAdd: seq<(Name, Doc)>)
    ensures forall s :: s in Removes(toDelete, toAdd) <==>
              s.Remove? && HasName(toDelete, s.name) && !HasName(toAdd, s.name)
  {
    if toDelete == [] {
    } else {
      var front, last := toDelete[..|toDelete| - 1], toDelete[|toDelete| - 1];
      RemovesContents(front, toAdd);
      assert toDelete == front + [last];
      forall s
        ensures s in Removes(toDelete, toAdd) <==>
                s.Remove? && HasName(toDelete, s.name) && !HasName(toAdd, s.name)
      {
        assert HasName(toDelete, s.name) <==> HasName(front, s.name) || last.0 == s.name;
      }
    }
  }

  lemma {:induction false} RemovesDiffer(toDelete: seq<(Name, Doc)>, toAdd: seq<(Name, Doc)>)
    requires PairNamesDiffer(toDelete)
    ensures NamesDiffer(Removes(toDelete, toAdd))
  {
    if toDelete == [] {
    } else {
      var front, last := toDelete[..|toDelete| - 1], toDelete[|toDelete| - 1];
      RemovesDiffer(front, toAdd);
      RemovesContents(front, toAdd);
      forall s | s in Removes(front, toAdd) ensures s.name != last.0 {
        var p :| p in front && p.0 == s.name;
      }
    }
  }

  /** Whatever order the two maps are enumerated in, the plan is exact. */
  lemma EveryOrderGivesAnExactPlan(
    existing: seq<(Name, Doc)>, wanted: seq<(Name, Doc)>, latest: Inline, desired: Inline)
    requires Enumerates(existing, latest) && Enumerates(wanted, desired)
    ensures ExactPlan(InlinePlan(existing, wanted), latest, desired) && PutsFirst(InlinePlan(existing, wanted))
  {
    var toDelete, toAdd := Without(existing, wanted), Without(wanted, existing);
    var puts, removes, plan := Puts(toAdd), Removes(toDelete, toAdd), InlinePlan(existing, wanted);
    WithoutMembers(existing, wanted);
    WithoutMembers(wanted, existing);
    WithoutNamesDiffer(existing, wanted);
    WithoutNamesDiffer(wanted, existing);
    RemovesContents(toDelete, toAdd);
    RemovesDiffer(toDelete, toAdd);
    PutNames(toAdd);
    RemovesAreRemovals(toDelete, toAdd);
    forall n | n in latest.Keys + desired.Keys && !SameAt(latest, desired, n)
      ensures Needed(latest, desired, n) in plan
    {
      if n in desired {
        assert (n, desired[n]) in toAdd;
        assert Put(n, desired[n]) in puts;
      } else {
        assert (n, latest[n]) in toDelete;
        assert Remove(n) in removes;
      }
    }
    forall n | n in desired && !SameAt(latest, desired, n)
      ensures HasName(toAdd, n)
    {
      assert (n, desired[n]) in toAdd;
    }
    forall s | s in plan
      ensures !SameAt(latest, desired, s.name) && s == Needed(latest, desired, s.name)
    {
      if s in puts {
        assert (s.name, s.raw) in toAdd;
      } else {
        assert s in removes;
        var p :| p in toDelete && p.0 == s.name;
      }
    }
    forall i, j | 0 <= i < j < |plan|
      ensures plan[i].name != plan[j].name
    {
      if i < |puts| <= j {
        assert plan[j] in removes && toAdd[i] in toAdd;
      }
    }
  }

  lemma PutNames(toAdd: seq<(Name, Doc)>)
    requires PairNamesDiffer(toAdd)
    ensures NamesDiffer(Puts(toAdd))
    ensures forall s :: s in Puts(toAdd) <==> s.Put? && (s.name, s.raw) in toAdd
  {
    var puts := Puts(toAdd);
    forall s ensures s in puts <==> s.Put? && (s.name, s.raw) in toAdd {
      if s in puts {
        var i :| 0 <= i < |puts| && puts[i] == s;
        assert toAdd[i] == (s.name, s.raw);
      }
      if s.Put? && (s.name, s.raw) in toAdd {
        var i :| 0 <= i < |toAdd| && toAdd[i] == (s.name, s.raw);
        assert puts[i] == s;
      }
    }
  }

  // ---- carrying a plan out ----

  /** A name without a step so far is untouched. */
  lemma {:induction false} Untouched(before: Inline, plan: seq<InlineStep>, k: nat, n: Name)
    requires k <= |plan| && forall i :: 0 <= i < k ==> plan[i].name != n
    ensures SameAt(AfterSteps(before, plan, k), before, n)
  {
    if k == 0 {
    } else {
      Untouched(before, plan, k - 1, n);
    }
  }

  /** A step that has been taken decides its own name. */
  lemma {:induction false} Touched(before: Inline, plan: seq<InlineStep>, k: nat, i: nat)
    requires i < k <= |plan| && NamesDiffer(plan)
    ensures var now := AfterSteps(before, plan, k);
            if plan[i].Put? then plan[i].name in now && now[plan[i].name] == Cleaned(plan[i].raw)
            else plan[i].name !in now
    decreases k
  {
    if i < k - 1 {
      Touched(before, plan, k - 1, i);
      assert plan[i].name != plan[k - 1].name;
    }
  }

  /** Where a complete pass ends: exactly the desired names; agreeing documents
      as they were, all others as decoding the desired document gives them. */
  function Target(latest: Inline, desired: Inline): Inline {
    map n | n in desired :: if n in latest && latest[n] == desired[n] then latest[n] else Cleaned(desired[n])
  }

  lemma CompletePlanReachesTarget(plan: seq<InlineStep>, latest: Inline, desired: Inline)
    requires ExactPlan(plan, latest, desired) && Sent(plan, |plan|)
    ensures AfterSteps(latest, plan, |plan|) == Target(latest, desired) && Sendable(latest, desired)
  {
    var done, target := AfterSteps(latest, plan, |plan|), Target(latest, desired);
    forall n
      ensures SameAt(done, target, n)
      ensures n in desired && !SameAt(latest, desired, n) ==> Decode(desired[n]).Some?
    {
      if n in latest.Keys + desired.Keys && !SameAt(latest, desired, n) {
        assert Needed(latest, desired, n) in plan;
        var i :| 0 <= i < |plan| && plan[i] == Needed(latest, desired, n);
        Touched(latest, plan, |plan|, i);
      } else {
        forall i | 0 <= i < |plan| ensures plan[i].name != n {
          assert plan[i] in plan;
        }
        Untouched(latest, plan, |plan|, n);
      }
    }
    SameEverywhere(done, target);
  }

  /** In other words: the desired names, each with the document it had if that was
      the desired one, and otherwise with the document that the desired text writes. */
  lemma TargetContents(latest: Inline, desired: Inline)
    requires Sendable(latest, desired)
    ensures Target(latest, desired).Keys == desired.Keys
    ensures forall n :: n in desired ==>
              if n in latest && latest[n] == desired[n] then Target(latest, desired)[n] == latest[n]
              else Writes(desired[n], Target(latest, desired)[n])
  {
    forall n | n in desired && !SameAt(latest, desired, n)
      ensures Writes(desired[n], Target(latest, desired)[n])
    {
      DecodesExactlyItsWritings(desired[n], Cleaned(desired[n]));
    }
  }

  /** The pass could send every document it had to send. */
  ghost predicate Sendable(latest: Inline, desired: Inline) {
    forall n :: n in desired && !SameAt(latest, desired, n) ==> Decode(desired[n]).Some?
  }

  /** The documents on which a pass settles: already in place, or literal. */
  ghost predicate Settles(latest: Inline, desired: Inline) {
    forall n :: n in desired ==> SameAt(latest, desired, n) || Literal(desired[n])
  }

  /** A complete pass ends at the desired documents exactly when every one of
      them was already in place or contains neither '%' nor '+'. */
  lemma TargetIsDesiredExactlyWhenSettled(latest: Inline, desired: Inline)
    requires Sendable(latest, desired)
    ensures Target(latest, desired) == desired <==> Settles(latest, desired)
  {
    var target := Target(latest, desired);
    forall n | n in desired
      ensures target[n] == desired[n] <==> SameAt(latest, desired, n) || Literal(desired[n])
    {
      StableExactlyWhenLiteral(desired[n]);
    }
    if Settles(latest, desired) {
      assert target.Keys == desired.Keys;
    }
  }

  /** The name a removal step is about is there when its turn comes. */
  lemma RemovalFindsTarget(before: Inline, plan: seq<InlineStep>, desired: Inline, k: nat)
    requires ExactPlan(plan, before, desired) && k < |plan| && plan[k].Remove?
    ensures plan[k].name in AfterSteps(before, plan, k)
  {
    assert plan[k] in plan;
    Untouched(before, plan, k, plan[k].name);
  }

  /** From step `from` on, every removal finds its name. */
  ghost predicate RemovalsFound(before: Inline, plan: seq<InlineStep>, from: nat) {
    forall k :: from <= k < |plan| ==> plan[k].name in AfterSteps(before, plan, k)
  }

  lemma RemovalsAllFound(before: Inline, plan: seq<InlineStep>, desired: Inline, from: nat)
    requires ExactPlan(plan, before, desired)
    requires forall k :: from <= k < |plan| ==> plan[k].Remove?
    ensures RemovalsFound(before, plan, from)
  {
    forall k | from <= k < |plan|
      ensures plan[k].name in AfterSteps(before, plan, k)
    {
      RemovalFindsTarget(before, plan, desired, k);
    }
  }

  lemma SendablePlan(plan: seq<InlineStep>, latest: Inline, desired: Inline)
    requires ExactPlan(plan, latest, desired) && Sendable(latest, desired)
    ensures Sent(plan, |plan|)
  {
    forall i | 0 <= i < |plan| && plan[i].Put? ensures Decode(plan[i].raw).Some? {
      assert plan[i] in plan;
    }
  }

  lemma {:induction false} RemovesAreRemovals(toDelete: seq<(Name, Doc)>, toAdd: seq<(Name, Doc)>)
    ensures forall i :: 0 <= i < |Removes(toDelete, toAdd)| ==> Removes(toDelete, toAdd)[i].Remove?
  {
    if toDelete == [] {
    } else {
      RemovesAreRemovals(toDelete[..|toDelete| - 1], toAdd);
    }
  }

  lemma {:induction false} RemovesPrefix(toDelete: seq<(Name, Doc)>, toAdd: seq<(Name, Doc)>, i: nat)
    requires i <= |toDelete|
    ensures Removes(toDelete[..i], toAdd) <= Removes(toDelete, toAdd)
    decreases |toDelete| - i
  {
    if i == |toDelete| {
      assert toDelete[..i] == toDelete;
    } else {
      assert toDelete[..i + 1][..i] == toDelete[..i];
      RemovesPrefix(toDelete, toAdd, i + 1);
    }
  }

  ghost predicate IsPlan(plan: seq<InlineStep>, toDelete: seq<(Name, Doc)>, toAdd: seq<(Name, Doc)>) {
    plan == Puts(toAdd) + Removes(toDelete, toAdd)
  }

  /** How many steps are behind once the first i entries have been scanned. */
  ghost function StepsBehind(toDelete: seq<(Name, Doc)>, toAdd: seq<(Name, Doc)>, i: nat): nat
    requires i <= |toDelete|
  {
    |toAdd| + |Removes(toDelete[..i], toAdd)|
  }

  /** The scan has got to entry i, and `done` steps are behind. */
  ghost predicate ScannedTo(
    plan: seq<InlineStep>, toDelete: seq<(Name, Doc)>, toAdd: seq<(Name, Doc)>, i: nat, done: nat)
  {
    && i <= |toDelete| && IsPlan(plan, toDelete, toAdd)
    && done == StepsBehind(toDelete, toAdd, i) && |toAdd| <= done <= |plan|
  }

  lemma ScanEnds(plan: seq<InlineStep>, toDelete: seq<(Name, Doc)>, toAdd: seq<(Name, Doc)>)
    requires IsPlan(plan, toDelete, toAdd)
    ensures ScannedTo(plan, toDelete, toAdd, 0, |toAdd|)
    ensures StepsBehind(toDelete, toAdd, |toDelete|) == |plan|
  {
    assert toDelete[..|toDelete|] == toDelete;
  }

  /** Scanning entry i either skips it or makes it the next removal. */
  lemma NextRemoval(plan: seq<InlineStep>, toDelete: seq<(Name, Doc)>, toAdd: seq<(Name, Doc)>, i: nat, k: nat)
    requires i < |toDelete| && ScannedTo(plan, toDelete, toAdd, i, k)
    ensures if HasName(toAdd, toDelete[i].0) then ScannedTo(plan, toDelete, toAdd, i + 1, k)
            else k < |plan| && plan[k] == Remove(toDelete[i].0) && ScannedTo(plan, toDelete, toAdd, i + 1, k + 1)
  {
    assert toDelete[..i + 1][..i] == toDelete[..i];
    RemovesPrefix(toDelete, toAdd, i + 1);
  }

  /** Part-way through, wherever a pass stops: a name held before and wanted
      after is never missing, and agreeing documents are never touched. */
  lemma {:induction false} NeverAbsentMidway(plan: seq<InlineStep>, latest: Inline, desired: Inline, k: nat, n: Name)
    requires ExactPlan(plan, latest, desired) && k <= |plan|
    requires n in latest && n in desired
    ensures var now := AfterSteps(latest, plan, k);
            && n in now && (now[n] == latest[n] || now[n] == Cleaned(desired[n]))
            && (latest[n] == desired[n] ==> now[n] == latest[n])
  {
    if i: nat :| i < k && plan[i].name == n {
      assert plan[i] in plan;
      Touched(latest, plan, k, i);
    } else {
      Untouched(latest, plan, k, n);
    }
  }

  lemma PutTaken(plan: seq<InlineStep>, latest: Inline, desired: Inline, k: nat, i: nat, m: Name)
    requires ExactPlan(plan, latest, desired) && PutsFirst(plan) && k <= |plan| && i < k && plan[i].Remove?
    requires m in desired
    ensures var now := AfterSteps(latest, plan, k);
            m in now && now[m] == if SameAt(latest, desired, m) then latest[m] else Cleaned(desired[m])
  {
    if SameAt(latest, desired, m) {
      forall j | 0 <= j < k ensures plan[j].name != m {
        assert plan[j] in plan;
      }
      Untouched(latest, plan, k, m);
    } else {
      assert Needed(latest, desired, m) in plan;
      var j :| 0 <= j < |plan| && plan[j] == Needed(latest, desired, m);
      Touched(latest, plan, k, j);
    }
  }

  /** Nothing is removed before everything has been put: once a held name is gone,
      every desired document is in place. */
  lemma RemovalsWaitForPuts(plan: seq<InlineStep>, latest: Inline, desired: Inline, k: nat, gone: Name, m: Name)
    requires ExactPlan(plan, latest, desired) && PutsFirst(plan) && k <= |plan|
    requires gone in latest && gone !in AfterSteps(latest, plan, k) && m in desired
    ensures var now := AfterSteps(latest, plan, k);
            m in now && now[m] == if SameAt(latest, desired, m) then latest[m] else Cleaned(desired[m])
  {
    if forall i :: 0 <= i < k ==> plan[i].name != gone {
      Untouched(latest, plan, k, gone);
    } else {
      var i :| 0 <= i < k && plan[i].name == gone;
      Touched(latest, plan, k, i);
      PutTaken(plan, latest, desired, k, i, m);
    }
  }

  ghost function Disagreements(inline: Inline, desired: Inline): set<Name> {
    set n | n in inline.Keys + desired.Keys && !SameAt(inline, desired, n)
  }

  /** An exact plan has as many steps as names disagree. */
  lemma ExactPlanSize(plan: seq<InlineStep>, latest: Inline, desired: Inline)
    requires ExactPlan(plan, latest, desired)
    ensures |plan| == |Disagreements(latest, desired)|
  {
    var names := seq(|plan|, i requires 0 <= i < |plan| => plan[i].name);
    forall n ensures n in names <==> n in Disagreements(latest, desired) {
      if n in names {
        var i :| 0 <= i < |plan| && names[i] == n;
        assert plan[i] in plan;
      }
      if n in Disagreements(latest, desired) {
        var i :| 0 <= i < |plan| && plan[i] == Needed(latest, desired, n);
        assert names[i] == n;
      }
    }
    DistinctCount(names);
    assert Elements(names) == Disagreements(latest, desired);
  }

  /** On how many names the documents still differ after k steps. */
  ghost function CountAfter(before: Inline, desired: Inline, plan: seq<InlineStep>, k: nat): int
    requires k <= |plan|
  {
    |Disagreements(AfterSteps(before, plan, k), desired)|
  }

  /** When every document that has to be sent is literal, each step lowers the
      number of disagreeing names by exactly one. */
  lemma EachStepCounts(plan: seq<InlineStep>, latest: Inline, desired: Inline, k: nat)
    requires ExactPlan(plan, latest, desired) && k < |plan| && Settles(latest, desired)
    ensures CountAfter(latest, desired, plan, k) == CountAfter(latest, desired, plan, k + 1) + 1
  {
    var now, next, s := AfterSteps(latest, plan, k), AfterSteps(latest, plan, k + 1), plan[k];
    assert s in plan;
    Untouched(latest, plan, k, s.name);
    if s.Put? { StableExactlyWhenLiteral(s.raw); }
    assert s.name in Disagreements(now, desired);
    forall n ensures n in Disagreements(next, desired) <==> n in Disagreements(now, desired) && n != s.name {
      if n != s.name {
        assert SameAt(now, next, n);
      } else {
        assert SameAt(next, desired, n);
      }
    }
    assert Disagreements(next, desired) == Disagreements(now, desired) - {s.name};
  }

  /** One pass that read the documents and then completed k steps. */
  ghost predicate InlinePass(a: Inline, b: Inline, desired: Inline, plan: seq<InlineStep>, k: nat) {
    ExactPlan(plan, a, desired) && k <= |plan| && Sent(plan, k) && b == AfterSteps(a, plan, k)
  }

  /** No pass, however far it gets, makes a difference to whether passes settle. */
  lemma PassKeepsSettling(a: Inline, b: Inline, desired: Inline, plan: seq<InlineStep>, k: nat)
    requires InlinePass(a, b, desired, plan, k)
    ensures Settles(a, desired) <==> Settles(b, desired)
  {
    forall n | n in desired && !Literal(desired[n])
      ensures SameAt(a, desired, n) <==> SameAt(b, desired, n)
    {
      if i: nat :| i < k && plan[i].name == n {
        assert plan[i] in plan;
        Touched(a, plan, k, i);
        StableExactlyWhenLiteral(desired[n]);
      } else {
        Untouched(a, plan, k, n);
      }
    }
  }

  ghost function Counts(before: Inline, desired: Inline, plan: seq<InlineStep>): (d: seq<int>)
    ensures |d| == |plan| + 1
  {
    seq(|plan| + 1, k requires 0 <= k <= |plan| => CountAfter(before, desired, plan, k))
  }

  lemma PassCounts(a: Inline, b: Inline, desired: Inline, plan: seq<InlineStep>, k: nat)
    requires InlinePass(a, b, desired, plan, k) && Settles(a, desired)
    ensures |Disagreements(b, desired)| + k == |Disagreements(a, desired)|
  {
    var d := Counts(a, desired, plan);
    forall i | 0 <= i < |plan| ensures d[i] == d[i + 1] + 1 {
      EachStepCounts(plan, a, desired, i);
      assert d[i] == CountAfter(a, desired, plan, i) && d[i + 1] == CountAfter(a, desired, plan, i + 1);
    }
    Telescope(d, k);
  }

  ghost predicate InlinePasses(states: seq<Inline>, desired: Inline, plans: seq<seq<InlineStep>>, ks: seq<nat>) {
    && |states| == |ks| + 1 && |plans| == |ks|
    && forall i :: 0 <= i < |ks| ==> InlinePass(states[i], states[i + 1], desired, plans[i], ks[i])
  }

  /** However the failures fall, the backend holds the desired documents exactly
      when each of them was in place at the start or is literal, and as many steps
      have succeeded as names disagreed at the start. */
  lemma {:induction false} InlineConvergence(
    states: seq<Inline>, desired: Inline, plans: seq<seq<InlineStep>>, ks: seq<nat>)
    requires InlinePasses(states, desired, plans, ks)
    ensures Settles(states[|ks|], desired) <==> Settles(states[0], desired)
    ensures Settles(states[0], desired) ==>
              |Disagreements(states[|ks|], desired)| + Sum(ks) == |Disagreements(states[0], desired)|
    ensures states[|ks|] == desired <==>
              Settles(states[0], desired) && Sum(ks) == |Disagreements(states[0], desired)|
    decreases |ks|
  {
    var n := |ks|;
    if n == 0 {
    } else {
      InlineConvergence(states[..n], desired, plans[..n - 1], ks[..n - 1]);
      assert InlinePass(states[n - 1], states[n], desired, plans[n - 1], ks[n - 1]);
      PassKeepsSettling(states[n - 1], states[n], desired, plans[n - 1], ks[n - 1]);
      if Settles(states[0], desired) {
        PassCounts(states[n - 1], states[n], desired, plans[n - 1], ks[n - 1]);
      }
    }
    NoDisagreement(states[n], desired);
  }

  lemma NoDisagreement(inline: Inline, desired: Inline)
    ensures |Disagreements(inline, desired)| == 0 <==> inline == desired
  {
    if |Disagreements(inline, desired)| == 0 {
      forall n ensures SameAt(inline, desired, n) {
        assert n !in Disagreements(inline, desired);
      }
      SameEverywhere(inline, desired);
    }
  }
}
