// Resolving a role's references to policies into ARNs, in place, and clearing
// the resolved values again.
module References {
  import opened Base
  import opened Conditions

  datatype From = From(name: Option<string>, namespace: Option<string>)
  datatype Ref = Ref(from: Option<From>)

  /** The part of a role's spec that references touch. A nil list is None. */
  datatype Spec = Spec(
    boundary: Option<string>, boundaryRef: Option<Ref>,
    policies: Option<seq<string>>, policyRefs: seq<Option<Ref>>)

  /** A Policy object in the cluster, as far as its status goes. */
  datatype PolicyObject = PolicyObject(conditions: seq<Cond>, arn: Option<string>)

  datatype RefError =
    | ReferenceAndID | EmptyReference | CrossNamespace
    | Missing | ReferenceTerminal | NotSynced | MissingTarget

  /** What a resolution can see: the Policy objects by namespace and name, and
      the library's rule for the namespace of a reference (None: not allowed). */
  datatype Cluster = Cluster(objects: map<(string, string), PolicyObject>, namespaceOf: From -> Option<string>)

  predicate Usable(o: PolicyObject) {
    !Holds(o.conditions, Terminal) && Holds(o.conditions, ResourceSynced) && o.arn.Some?
  }

  /** The ARN a reference stands for, if it can be had. */
  function ArnOf(c: Cluster, f: From): Option<string> {
    if f.name.None? || f.name.value == "" || c.namespaceOf(f).None? then None
    else
      var key := (c.namespaceOf(f).value, f.name.value);
      if key in c.objects && Usable(c.objects[key]) then c.objects[key].arn else None
  }

  method GetReferencedResourceState(c: Cluster, namespace: string, name: string)
    returns (err: Option<RefError>, arn: string)
    ensures err == Some(Missing) <==> (namespace, name) !in c.objects
    ensures (namespace, name) in c.objects ==>
              var o := c.objects[(namespace, name)];
              && (err == Some(ReferenceTerminal) <==> Holds(o.conditions, Terminal))
              && (err == Some(NotSynced) <==> !Holds(o.conditions, Terminal) && !Holds(o.conditions, ResourceSynced))
              && (err == Some(MissingTarget) <==>
                  !Holds(o.conditions, Terminal) && Holds(o.conditions, ResourceSynced) && o.arn.None?)
              && (err.None? <==> !Holds(o.conditions, Terminal) && Holds(o.conditions, ResourceSynced) && o.arn.Some?)
              && (err.None? ==> o.arn == Some(arn))
  {
    arn := "";
    if (namespace, name) !in c.objects {
      return Some(Missing), arn;
    }
    var o := c.objects[(namespace, name)];
    for i := 0 to |o.conditions|
      invariant forall j :: 0 <= j < i ==> !(o.conditions[j].kind == Terminal && o.conditions[j].status == IsTrue)
    {
      if o.conditions[i].kind == Terminal && o.conditions[i].status == IsTrue {
        return Some(ReferenceTerminal), arn;
      }
    }
    var synced := false;
    for i := 0 to |o.conditions|
      invariant synced <==>
                exists j :: 0 <= j < i && o.conditions[j].kind == ResourceSynced && o.conditions[j].status == IsTrue
    {
      if o.conditions[i].kind == ResourceSynced && o.conditions[i].status == IsTrue {
        synced := true;
      }
    }
    if !synced {
      return Some(NotSynced), arn;
    }
    if o.arn.None? {
      return Some(MissingTarget), arn;
    }
    return None, o.arn.value;
  }

  /** A reference has an ARN exactly when it gives a name, its namespace is allowed,
      and the object there is not terminal, is synced and has an ARN: that one. */
  lemma HasArnExactlyWhen(c: Cluster, f: From)
    ensures ArnOf(c, f).Some? <==>
              && f.name != None && f.name != Some("") && c.namespaceOf(f) != None
              && var key := (c.namespaceOf(f).value, f.name.value);
              && key in c.objects && !Holds(c.objects[key].conditions, Terminal)
              && Holds(c.objects[key].conditions, ResourceSynced) && c.objects[key].arn != None
    ensures ArnOf(c, f).Some? ==> ArnOf(c, f) == c.objects[(c.namespaceOf(f).value, f.name.value)].arn
  {
  }

  method ResolveOne(c: Cluster, f: From) returns (err: Option<RefError>, arn: string)
    ensures err.None? <==> ArnOf(c, f).Some?
    ensures err.None? ==> ArnOf(c, f) == Some(arn)
    ensures err == Some(EmptyReference) <==> f.name == None || f.name == Some("")
    ensures err == Some(CrossNamespace) <==> f.name != None && f.name != Some("") && c.namespaceOf(f) == None
    ensures err != Some(ReferenceAndID)
  {
    arn := "";
    if f.name.None? || f.name.value == "" {
      return Some(EmptyReference), arn;
    }
    var namespace := c.namespaceOf(f);
    if namespace.None? {
      return Some(CrossNamespace), arn;
    }
    err, arn := GetReferencedResourceState(c, namespace.value, f.name.value);
  }

  // ---- the effect on the spec ----

  predicate Pointing(r: Option<Ref>) {
    r.Some? && r.value.from.Some?
  }

  function BoundaryAfter(s: Spec, c: Cluster): Option<string> {
    if !Pointing(s.boundaryRef) then s.boundary
    else
      var arn := ArnOf(c, s.boundaryRef.value.from.value);
      if arn.Some? then arn else s.boundary
  }

  predicate BoundaryResolves(s: Spec, c: Cluster) {
    Pointing(s.boundaryRef) ==> ArnOf(c, s.boundaryRef.value.from.value).Some?
  }

  /** The ARNs of the references from position i on that point at something, up
      to the first whose ARN cannot be had. */
  function ResolvableFrom(refs: seq<Option<Ref>>, i: nat, c: Cluster): seq<string>
    requires i <= |refs|
    decreases |refs| - i
  {
    if i == |refs| then []
    else if !Pointing(refs[i]) then ResolvableFrom(refs, i + 1, c)
    else
      var arn := ArnOf(c, refs[i].value.from.value);
      if arn.None? then [] else [arn.value] + ResolvableFrom(refs, i + 1, c)
  }

  function Resolvable(refs: seq<Option<Ref>>, c: Cluster): seq<string> {
    ResolvableFrom(refs, 0, c)
  }

  ghost predicate ResolveUpTo(refs: seq<Option<Ref>>, n: nat, c: Cluster)
    requires n <= |refs|
  {
    forall j :: 0 <= j < n && Pointing(refs[j]) ==> ArnOf(c, refs[j].value.from.value).Some?
  }

  ghost predicate AllResolve(refs: seq<Option<Ref>>, c: Cluster) {
    ResolveUpTo(refs, |refs|, c)
  }

  ghost predicate AnyPointing(refs: seq<Option<Ref>>, n: nat)
    requires n <= |refs|
  {
    exists j :: 0 <= j < n && Pointing(refs[j])
  }

  function Appended(policies: Option<seq<string>>, arns: seq<string>): Option<seq<string>> {
    if arns == [] then policies
    else Some((if policies.Some? then policies.value else []) + arns)
  }

  /** The spec a resolution leaves, whether or not it succeeds. */
  function Resolved(s: Spec, c: Cluster): Spec {
    var t := s.(boundary := BoundaryAfter(s, c));
    if !BoundaryResolves(s, c) then t else t.(policies := Appended(s.policies, Resolvable(s.policyRefs, c)))
  }

  predicate Valid(s: Spec) {
    && !(s.boundaryRef.Some? && s.boundary.Some?)
    && !(|s.policyRefs| > 0 && s.policies.Some? && |s.policies.value| > 0)
  }

  /** The spec with resolved values dropped. */
  function Cleared(s: Spec): Spec {
    s.(boundary := if s.boundaryRef.Some? then None else s.boundary,
       policies := if |s.policyRefs| > 0 then None else s.policies)
  }

  /** Equal up to nil against empty lists. */
  predicate Same(s: Spec, t: Spec) {
    && s.boundary == t.boundary && s.boundaryRef == t.boundaryRef && s.policyRefs == t.policyRefs
    && (if s.policies.Some? then s.policies.value else []) == (if t.policies.Some? then t.policies.value else [])
  }

  /** Clearing undoes a resolution, complete or failed anywhere, exactly when the
      spec did not give both a reference and its value. */
  lemma ClearUndoesResolveExactlyWhenValid(s: Spec, c: Cluster)
    ensures Same(Cleared(Resolved(s, c)), s) <==> Valid(s)
  {
  }

  /** For example, a boundary given beside a reference to it is lost. */
  lemma BoundaryBesideReferenceIsLost(c: Cluster)
    ensures var s := Spec(Some("arn"), Some(Ref(None)), None, []);
            Cleared(Resolved(s, c)).boundary == None && Resolved(Cleared(Resolved(s, c)), c).boundary == None
  {
  }

  /** Resolving, clearing and resolving again is resolving once, exactly when the
      spec gave no policies beside references to them, and a boundary beside a
      reference only if that reference resolves and so replaces it. */
  lemma ResolveClearResolveExactlyWhen(s: Spec, c: Cluster)
    ensures Same(Resolved(Cleared(Resolved(s, c)), c), Resolved(s, c)) <==>
              && !(|s.policyRefs| > 0 && s.policies.Some? && |s.policies.value| > 0)
              && (s.boundaryRef.Some? && s.boundary.Some? ==> Pointing(s.boundaryRef) && BoundaryResolves(s, c))
  {
    var once := Resolved(s, c);
    var twice := Resolved(Cleared(once), c);
    if |s.policyRefs| > 0 && s.policies.Some? {
      assert [] + Resolvable(s.policyRefs, c) == Resolvable(s.policyRefs, c);
      if BoundaryResolves(s, c) {
        assert once.policies.value == s.policies.value + Resolvable(s.policyRefs, c);
      }
    }
  }

  /** The references from position i on that point at something. */
  function PointingFrom(refs: seq<Option<Ref>>, i: nat): seq<From>
    requires i <= |refs|
    decreases |refs| - i
  {
    if i == |refs| then []
    else (if Pointing(refs[i]) then [refs[i].value.from.value] else []) + PointingFrom(refs, i + 1)
  }

  function PointingRefs(refs: seq<Option<Ref>>): seq<From> {
    PointingFrom(refs, 0)
  }

  /** The ARNs are, in order, those of the references. */
  ghost predicate AreArnsOf(arns: seq<string>, fs: seq<From>, c: Cluster) {
    |arns| == |fs| && forall k :: 0 <= k < |fs| ==> ArnOf(c, fs[k]) == Some(arns[k])
  }

  lemma OneMoreArn(arn: string, arns: seq<string>, f: From, fs: seq<From>, c: Cluster)
    requires ArnOf(c, f) == Some(arn) && AreArnsOf(arns, fs, c)
    ensures AreArnsOf([arn] + arns, [f] + fs, c)
  {
  }

  lemma {:induction false} ResolvableIsEveryArn(refs: seq<Option<Ref>>, i: nat, c: Cluster)
    requires AllResolve(refs, c) && i <= |refs|
    ensures AreArnsOf(ResolvableFrom(refs, i, c), PointingFrom(refs, i), c)
    decreases |refs| - i
  {
    if i == |refs| {
    } else {
      ResolvableIsEveryArn(refs, i + 1, c);
      var arns, fs := ResolvableFrom(refs, i + 1, c), PointingFrom(refs, i + 1);
      if Pointing(refs[i]) {
        var f := refs[i].value.from.value;
        OneMoreArn(ArnOf(c, f).value, arns, f, fs, c);
        assert ResolvableFrom(refs, i, c) == [ArnOf(c, f).value] + arns;
        assert PointingFrom(refs, i) == [f] + fs;
      } else {
        assert [] + fs == fs;
      }
    }
  }

  /** A successful resolution: the policies are, in order, the ARNs of the
      referenced objects, every one of which is in the cluster, synced and not
      terminal; so is the boundary's. */
  lemma SuccessfulResolution(s: Spec, c: Cluster, i: nat)
    requires Valid(s) && BoundaryResolves(s, c) && AllResolve(s.policyRefs, c)
    requires i < |PointingRefs(s.policyRefs)|
    ensures Resolved(s, c).policies.Some?
    ensures |Resolved(s, c).policies.value| == |PointingRefs(s.policyRefs)|
    ensures var f := PointingRefs(s.policyRefs)[i];
            && f.name.Some? && c.namespaceOf(f).Some?
            && var key := (c.namespaceOf(f).value, f.name.value);
            && key in c.objects && !Holds(c.objects[key].conditions, Terminal)
            && Holds(c.objects[key].conditions, ResourceSynced)
            && c.objects[key].arn == Some(Resolved(s, c).policies.value[i])
  {
    ResolvableIsEveryArn(s.policyRefs, 0, c);
    var f := PointingRefs(s.policyRefs)[i];
    assert ArnOf(c, f) == Some(Resolvable(s.policyRefs, c)[i]);
    if |s.policyRefs| > 0 && s.policies.Some? {
      assert s.policies.value == [];
    }
    assert [] + Resolvable(s.policyRefs, c) == Resolvable(s.policyRefs, c);
  }

  /** The permissions boundary after a resolution: if it is given by a reference
      that resolves, the ARN of the referenced object, which is in the cluster,
      synced and not terminal; otherwise it is as it was. */
  lemma ResolvedBoundary(s: Spec, c: Cluster)
    ensures s.boundaryRef.Some? && s.boundaryRef.value.from.Some? && BoundaryResolves(s, c) ==>
              var f := s.boundaryRef.value.from.value;
              && f.name.Some? && c.namespaceOf(f).Some?
              && var key := (c.namespaceOf(f).value, f.name.value);
              && key in c.objects && !Holds(c.objects[key].conditions, Terminal)
              && Holds(c.objects[key].conditions, ResourceSynced)
              && c.objects[key].arn.Some? && Resolved(s, c).boundary == c.objects[key].arn
    ensures !(s.boundaryRef.Some? && s.boundaryRef.value.from.Some?) || !BoundaryResolves(s, c) ==>
              Resolved(s, c).boundary == s.boundary
  {
  }

  function ListOf(policies: Option<seq<string>>): seq<string> {
    if policies.Some? then policies.value else []
  }

  /** The policies after a resolution, complete or failed: what the spec gave, then
      the ARNs of the references up to the first that has none; nothing is added if
      the boundary failed before. */
  lemma ResolvedPolicies(s: Spec, c: Cluster) returns (n: nat)
    ensures var fs, before, after := PointingRefs(s.policyRefs), ListOf(s.policies), ListOf(Resolved(s, c).policies);
            if !BoundaryResolves(s, c) then after == before
            else
              && n <= |fs| && |after| == |before| + n && after[..|before|] == before
              && (forall k :: 0 <= k < n ==> ArnOf(c, fs[k]) == Some(after[|before| + k]))
              && (n < |fs| ==> ArnOf(c, fs[n]).None?)
  {
    n := |Resolvable(s.policyRefs, c)|;
    ResolvableIsPrefix(s.policyRefs, 0, c);
  }

  lemma {:induction false} ResolvableIsPrefix(refs: seq<Option<Ref>>, i: nat, c: Cluster)
    requires i <= |refs|
    ensures var arns, fs := ResolvableFrom(refs, i, c), PointingFrom(refs, i);
            && |arns| <= |fs| && AreArnsOf(arns, fs[..|arns|], c)
            && (|arns| < |fs| ==> ArnOf(c, fs[|arns|]).None?)
    decreases |refs| - i
  {
    if i == |refs| {
    } else {
      ResolvableIsPrefix(refs, i + 1, c);
      var arns, fs := ResolvableFrom(refs, i + 1, c), PointingFrom(refs, i + 1);
      if Pointing(refs[i]) {
        var f := refs[i].value.from.value;
        assert PointingFrom(refs, i) == [f] + fs;
        if ArnOf(c, f).Some? {
          OneMoreArn(ArnOf(c, f).value, arns, f, fs[..|arns|], c);
          assert ([f] + fs)[..1 + |arns|] == [f] + fs[..|arns|];
        }
      } else {
        assert [] + fs == fs;
      }
    }
  }

  lemma AppendStep(policies: Option<seq<string>>, arn: string, rest: seq<string>)
    ensures Appended(policies, [arn] + rest)
            == Appended(Some((if policies.Some? then policies.value else []) + [arn]), rest)
  {
    var start := if policies.Some? then policies.value else [];
    assert start + ([arn] + rest) == start + [arn] + rest;
    if rest == [] {
      assert [arn] + rest == [arn];
    }
  }

  class RoleObject {
    var boundary: Option<string>
    var boundaryRef: Option<Ref>
    var policies: Option<seq<string>>
    var policyRefs: seq<Option<Ref>>

    constructor (s: Spec)
      ensures Value() == s
    {
      boundary, boundaryRef, policies, policyRefs := s.boundary, s.boundaryRef, s.policies, s.policyRefs;
    }

    function Value(): Spec
      reads this
    {
      Spec(boundary, boundaryRef, policies, policyRefs)
    }

    predicate ValidateReferenceFields()
      reads this
      ensures ValidateReferenceFields() <==> Valid(Value())
    {
      if boundaryRef.Some? && boundary.Some? then false
      else if |policyRefs| > 0 && policies.Some? && |policies.value| > 0 then false
      else true
    }

    method ResolvePermissionsBoundary(c: Cluster) returns (has: bool, err: Option<RefError>)
      modifies this`boundary
      ensures has <==> Pointing(boundaryRef)
      ensures boundary == BoundaryAfter(old(Value()), c)
      ensures err.None? <==> BoundaryResolves(old(Value()), c)
      ensures err != Some(ReferenceAndID)
    {
      has, err := false, None;
      if boundaryRef.Some? && boundaryRef.value.from.Some? {
        has := true;
        var e, arn := ResolveOne(c, boundaryRef.value.from.value);
        if e.Some? {
          return has, e;
        }
        boundary := Some(arn);
      }
    }

    /** Appends ARN after ARN; a failure leaves those appended so far. */
    method ResolvePolicies(c: Cluster) returns (has: bool, err: Option<RefError>)
      modifies this`policies
      ensures policies == Appended(old(policies), Resolvable(policyRefs, c))
      ensures (err.None? <==> AllResolve(policyRefs, c)) && err != Some(ReferenceAndID)
      ensures has <==> AnyPointing(policyRefs, |policyRefs|)
    {
      has, err := false, None;
      for i := 0 to |policyRefs|
        invariant err.None?
        invariant Appended(policies, ResolvableFrom(policyRefs, i, c))
                  == Appended(old(policies), Resolvable(policyRefs, c))
        invariant ResolveUpTo(policyRefs, i, c) && (has <==> AnyPointing(policyRefs, i))
      {
        var r := policyRefs[i];
        if r.Some? && r.value.from.Some? {
          has := true;
          var e, arn := ResolveOne(c, r.value.from.value);
          if e.Some? {
            return has, e;
          }
          AppendStep(policies, arn, ResolvableFrom(policyRefs, i + 1, c));
          policies := Some((if policies.Some? then policies.value else []) + [arn]);
        }
      }
    }

    /** Works on the object itself. A failed validation does not stop it: both
        references are resolved all the same, and the validation error comes back
        only if nothing else went wrong. */
    method ResolveReferences(c: Cluster) returns (hasReferences: bool, err: Option<RefError>)
      modifies this`boundary, this`policies
      ensures Value() == Resolved(old(Value()), c)
      ensures hasReferences <==> Pointing(boundaryRef) || AnyPointing(policyRefs, |policyRefs|)
      ensures err.None? <==> Valid(old(Value())) && BoundaryResolves(old(Value()), c) && AllResolve(policyRefs, c)
      ensures err == Some(ReferenceAndID) <==>
                !Valid(old(Value())) && BoundaryResolves(old(Value()), c) && AllResolve(policyRefs, c)
      ensures boundaryRef.Some? && boundaryRef.value.from.Some? && BoundaryResolves(old(Value()), c) ==>
                var f := boundaryRef.value.from.value;
                && f.name.Some? && c.namespaceOf(f).Some? && (c.namespaceOf(f).value, f.name.value) in c.objects
                && boundary == c.objects[(c.namespaceOf(f).value, f.name.value)].arn
    {
      hasReferences := false;
      ResolvedBoundary(Value(), c);
      var valid := ValidateReferenceFields();
      var has, e := ResolvePermissionsBoundary(c);
      if e.Some? {
        return hasReferences || has, e;
      }
      hasReferences := hasReferences || has;
      has, e := ResolvePolicies(c);
      if e.Some? {
        return hasReferences || has, e;
      }
      hasReferences := hasReferences || has;
      err := if valid then None else Some(ReferenceAndID);
    }

    /** Returns a copy; the object itself keeps its resolved values. */
    method ClearResolvedReferences() returns (copy: RoleObject)
      ensures fresh(copy) && copy.Value() == Cleared(Value())
    {
      copy := new RoleObject(Value());
      if copy.boundaryRef.Some? {
        copy.boundary := None;
      }
      if |copy.policyRefs| > 0 {
        copy.policies := None;
      }
    }
  }
}
