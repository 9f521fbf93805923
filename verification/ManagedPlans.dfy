// Attached policies of a role or a group: the calls one sync will make, and
// why they bring the backend to the desired list however often they fail.
module ManagedPlans {
  import opened Base

  type Arn = string

  datatype ArnCall = Attach(arn: Arn) | Detach(arn: Arn)

  ghost function Calls(attach: seq<Arn>, detach: seq<Arn>): (plan: seq<ArnCall>)
    ensures |plan| == |attach| + |detach|
    ensures forall i :: 0 <= i < |plan| ==>
              plan[i] == if i < |attach| then Attach(attach[i]) else Detach(detach[i - |attach|])
  {
    seq(|attach|, i requires 0 <= i < |attach| => Attach(attach[i]))
    + seq(|detach|, i requires 0 <= i < |detach| => Detach(detach[i]))
  }

  /** Attach what is desired but not there, then detach what is there but not
      desired. */
  ghost function ManagedPlan(desired: seq<Arn>, latest: seq<Arn>): seq<ArnCall> {
    Calls(Without(desired, latest), Without(latest, desired))
  }

  ghost function AfterCall(attached: set<Arn>, call: ArnCall): set<Arn> {
    if call.Attach? then attached + {call.arn} else attached - {call.arn}
  }

  /** The attached policies once the first k calls of a plan have succeeded. */
  ghost function AfterCalls(before: set<Arn>, plan: seq<ArnCall>, k: nat): set<Arn>
    requires k <= |plan|
  {
    if k == 0 then before else AfterCall(AfterCalls(before, plan, k - 1), plan[k - 1])
  }

  /** `latest` is what reading the attached policies returns. */
  ghost predicate Faithful(latest: seq<Arn>, attached: set<Arn>) {
    Distinct(latest) && Elements(latest) == attached
  }

  // ---- one pass ----

  lemma ElementsSnoc(s: seq<Arn>, k: nat)
    requires k < |s|
    ensures Elements(s[..k + 1]) == Elements(s[..k]) + {s[k]}
  {
    assert s[..k + 1] == s[..k] + [s[k]];
  }

  lemma {:induction false} AfterAttaching(before: set<Arn>, attach: seq<Arn>, detach: seq<Arn>, k: nat)
    requires k <= |attach|
    ensures AfterCalls(before, Calls(attach, detach), k) == before + Elements(attach[..k])
  {
    if k == 0 {
    } else {
      AfterAttaching(before, attach, detach, k - 1);
      ElementsSnoc(attach, k - 1);
    }
  }

  lemma {:induction false} AfterDetaching(before: set<Arn>, attach: seq<Arn>, detach: seq<Arn>, j: nat)
    requires j <= |detach|
    ensures AfterCalls(before, Calls(attach, detach), |attach| + j)
            == before + Elements(attach) - Elements(detach[..j])
  {
    if j == 0 {
      AfterAttaching(before, attach, detach, |attach|);
      assert attach[..|attach|] == attach;
    } else {
      AfterDetaching(before, attach, detach, j - 1);
      ElementsSnoc(detach, j - 1);
    }
  }

  lemma PlanContents(desired: seq<Arn>, latest: seq<Arn>)
    ensures Elements(Without(desired, latest)) == Elements(desired) - Elements(latest)
    ensures Elements(Without(latest, desired)) == Elements(latest) - Elements(desired)
  {
    WithoutMembers(desired, latest);
    WithoutMembers(latest, desired);
  }

  /** A complete plan ends at the desired set, for any desired list. */
  lemma CompletePlanReaches(before: set<Arn>, desired: seq<Arn>, latest: seq<Arn>)
    requires Elements(latest) == before
    ensures var plan := ManagedPlan(desired, latest); AfterCalls(before, plan, |plan|) == Elements(desired)
  {
    var attach, detach := Without(desired, latest), Without(latest, desired);
    PlanContents(desired, latest);
    AfterDetaching(before, attach, detach, |detach|);
    assert detach[..|detach|] == detach;
  }

  /** Part-way through, wherever a pass stops: a held and desired ARN stays
      attached, and nothing is gone before everything desired is attached. */
  lemma DetachesWaitForAttaches(before: set<Arn>, desired: seq<Arn>, latest: seq<Arn>, k: nat)
    requires Elements(latest) == before && k <= |ManagedPlan(desired, latest)|
    ensures var now := AfterCalls(before, ManagedPlan(desired, latest), k);
            && before * Elements(desired) <= now
            && (before <= now || Elements(desired) <= now)
  {
    var attach, detach := Without(desired, latest), Without(latest, desired);
    PlanContents(desired, latest);
    if k <= |attach| {
      AfterAttaching(before, attach, detach, k);
    } else {
      var j := k - |attach|;
      AfterDetaching(before, attach, detach, j);
      assert Elements(detach[..j]) <= Elements(detach);
    }
  }

  lemma OneCloser(s: set<Arn>, t: set<Arn>, desired: set<Arn>, x: Arn)
    requires (x in desired && x !in s && t == s + {x}) || (x !in desired && x in s && t == s - {x})
    ensures Distance(t, desired) == Distance(s, desired) - 1
  {
    if x in desired {
      assert desired - t == (desired - s) - {x} && t - desired == s - desired;
    } else {
      assert t - desired == (s - desired) - {x} && desired - t == desired - s;
    }
  }

  /** The disagreement left after k calls of a plan. */
  ghost function DistanceAfter(before: set<Arn>, desired: seq<Arn>, latest: seq<Arn>, k: nat): int
    requires k <= |ManagedPlan(desired, latest)|
  {
    Distance(AfterCalls(before, ManagedPlan(desired, latest), k), Elements(desired))
  }

  lemma AttachCounts(before: set<Arn>, desired: seq<Arn>, latest: seq<Arn>, k: nat)
    requires Faithful(latest, before) && Distinct(Without(desired, latest)) && k < |Without(desired, latest)|
    ensures DistanceAfter(before, desired, latest, k) == DistanceAfter(before, desired, latest, k + 1) + 1
  {
    var attach, detach, plan := Without(desired, latest), Without(latest, desired), ManagedPlan(desired, latest);
    PlanContents(desired, latest);
    AfterAttaching(before, attach, detach, k);
    assert attach[k] in Elements(attach) && attach[k] !in Elements(attach[..k]);
    OneCloser(AfterCalls(before, plan, k), AfterCalls(before, plan, k + 1), Elements(desired), attach[k]);
  }

  lemma DetachCounts(before: set<Arn>, desired: seq<Arn>, latest: seq<Arn>, k: nat)
    requires Faithful(latest, before)
    requires |Without(desired, latest)| <= k < |ManagedPlan(desired, latest)|
    ensures ManagedPlan(desired, latest)[k].arn in AfterCalls(before, ManagedPlan(desired, latest), k)
    ensures DistanceAfter(before, desired, latest, k) == DistanceAfter(before, desired, latest, k + 1) + 1
  {
    var attach, detach, plan := Without(desired, latest), Without(latest, desired), ManagedPlan(desired, latest);
    var j := k - |attach|;
    PlanContents(desired, latest);
    WithoutDistinct(latest, desired);
    AfterDetaching(before, attach, detach, j);
    assert detach[j] in Elements(detach) && detach[j] !in Elements(detach[..j]);
    OneCloser(AfterCalls(before, plan, k), AfterCalls(before, plan, k + 1), Elements(desired), detach[j]);
  }

  ghost function Distances(before: set<Arn>, desired: seq<Arn>, latest: seq<Arn>): (d: seq<int>)
    ensures |d| == |ManagedPlan(desired, latest)| + 1
  {
    var n := |ManagedPlan(desired, latest)|;
    seq(n + 1, k requires 0 <= k <= n => DistanceAfter(before, desired, latest, k))
  }

  lemma CallCounts(before: set<Arn>, desired: seq<Arn>, latest: seq<Arn>, k: nat)
    requires Faithful(latest, before) && Distinct(Without(desired, latest)) && k < |ManagedPlan(desired, latest)|
    ensures DistanceAfter(before, desired, latest, k) == DistanceAfter(before, desired, latest, k + 1) + 1
  {
    if k < |Without(desired, latest)| {
      AttachCounts(before, desired, latest, k);
    } else {
      DetachCounts(before, desired, latest, k);
    }
  }

  lemma DistancesFall(before: set<Arn>, desired: seq<Arn>, latest: seq<Arn>, i: nat)
    requires Faithful(latest, before) && Distinct(Without(desired, latest)) && i < |ManagedPlan(desired, latest)|
    ensures Distances(before, desired, latest)[i] == Distances(before, desired, latest)[i + 1] + 1
  {
    CallCounts(before, desired, latest, i);
  }

  /** Each completed call of a pass lowers the disagreement by exactly one. */
  lemma EachCallCounts(before: set<Arn>, desired: seq<Arn>, latest: seq<Arn>, k: nat)
    requires Faithful(latest, before) && Distinct(Without(desired, latest)) && k <= |ManagedPlan(desired, latest)|
    ensures DistanceAfter(before, desired, latest, k) + k == Distance(before, Elements(desired))
  {
    var d := Distances(before, desired, latest);
    forall i | 0 <= i < |d| - 1 ensures d[i] == d[i + 1] + 1 {
      DistancesFall(before, desired, latest, i);
    }
    Telescope(d, k);
    assert d[0] == DistanceAfter(before, desired, latest, 0);
  }

  ghost predicate EveryCallCounts(before: set<Arn>, desired: seq<Arn>, latest: seq<Arn>) {
    forall k :: 0 <= k <= |ManagedPlan(desired, latest)| ==>
      DistanceAfter(before, desired, latest, k) + k == Distance(before, Elements(desired))
  }

  /** It does so exactly when no missing ARN is listed twice: the second attach
      call for it changes nothing. */
  lemma EveryCallCountsExactlyWhen(before: set<Arn>, desired: seq<Arn>, latest: seq<Arn>)
    requires Faithful(latest, before)
    ensures EveryCallCounts(before, desired, latest) <==> Distinct(Without(desired, latest))
  {
    var attach, detach, n := Without(desired, latest), Without(latest, desired), |ManagedPlan(desired, latest)|;
    if Distinct(attach) {
      forall k | 0 <= k <= n
        ensures DistanceAfter(before, desired, latest, k) + k == Distance(before, Elements(desired))
      {
        EachCallCounts(before, desired, latest, k);
      }
    } else {
      CompletePlanReaches(before, desired, latest);
      PlanContents(desired, latest);
      ElementsBound(attach);
      ElementsBound(detach);
      assert DistanceAfter(before, desired, latest, n) == 0;
    }
  }

  /** For example, a missing ARN listed twice is attached twice. */
  lemma SecondAttachDoesNotCount()
    ensures !EveryCallCounts({}, ["a", "a"], [])
  {
    var desired := ["a", "a"];
    assert desired[..1] == ["a"] && desired[..1][..0] == [];
    assert Without(desired[..1], []) == ["a"] && Without(desired, []) == ["a", "a"];
    EveryCallCountsExactlyWhen({}, desired, []);
    assert Without(desired, [])[0] == Without(desired, [])[1];
  }

  /** One pass that read the attached policies and then completed k calls. */
  ghost predicate ManagedPass(s: set<Arn>, t: set<Arn>, desired: seq<Arn>, latest: seq<Arn>, k: nat) {
    && Faithful(latest, s) && k <= |ManagedPlan(desired, latest)|
    && t == AfterCalls(s, ManagedPlan(desired, latest), k)
  }

  lemma PassCounts(s: set<Arn>, t: set<Arn>, desired: seq<Arn>, latest: seq<Arn>, k: nat)
    requires ManagedPass(s, t, desired, latest, k) && Distinct(desired)
    ensures Distance(t, Elements(desired)) + k == Distance(s, Elements(desired))
  {
    WithoutDistinct(desired, latest);
    EachCallCounts(s, desired, latest, k);
  }

  // ---- any number of passes ----

  /** Each pass may be cut short anywhere: pass i starts from what the one
      before left and completes ks[i] calls. */
  ghost predicate ManagedPasses(states: seq<set<Arn>>, desired: seq<Arn>, listings: seq<seq<Arn>>, ks: seq<nat>) {
    && |states| == |ks| + 1 && |listings| == |ks|
    && forall i :: 0 <= i < |ks| ==> ManagedPass(states[i], states[i + 1], desired, listings[i], ks[i])
  }

  lemma NoDistance(s: set<Arn>, desired: set<Arn>)
    ensures Distance(s, desired) == 0 <==> s == desired
  {
    if Distance(s, desired) == 0 {
      assert s - desired == {} && desired - s == {};
      forall x ensures x in s <==> x in desired {
        assert x !in s - desired && x !in desired - s;
      }
    }
  }

  /** However the failures fall, the backend agrees with a duplicate-free
      desired list exactly when as many calls have succeeded as there were
      disagreements at the start. */
  lemma {:induction false} ManagedConvergence(
    states: seq<set<Arn>>, desired: seq<Arn>, listings: seq<seq<Arn>>, ks: seq<nat>)
    requires ManagedPasses(states, desired, listings, ks) && Distinct(desired)
    ensures Distance(states[|ks|], Elements(desired)) + Sum(ks) == Distance(states[0], Elements(desired))
    ensures states[|ks|] == Elements(desired) <==> Sum(ks) == Distance(states[0], Elements(desired))
    decreases |ks|
  {
    var n := |ks|;
    if n == 0 {
    } else {
      ManagedConvergence(states[..n], desired, listings[..n - 1], ks[..n - 1]);
      assert ManagedPass(states[n - 1], states[n], desired, listings[n - 1], ks[n - 1]);
      PassCounts(states[n - 1], states[n], desired, listings[n - 1], ks[n - 1]);
    }
    NoDistance(states[n], Elements(desired));
  }
}
