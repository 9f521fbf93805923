// Status conditions: how each outcome of an operation updates the Terminal and
// Recoverable conditions of a copy of the resource.
module Conditions {
  import opened Base

  datatype Kind = Terminal | Recoverable | ResourceSynced | Other(name: string)
  datatype Status = IsTrue | IsFalse | Unknown

  /** The value of a condition. */
  datatype Cond = Cond(kind: Kind, status: Status, message: Option<string>)

  datatype Failure =
    | AwsError(code: string, text: string)
    | SecretTypeNotSupported(text: string)
    | SecretNotFound(text: string)
    | TerminalError(text: string)
    | Plain(text: string)

  /** An operation succeeds (None) or fails. */
  type Result = Option<Failure>

  predicate TerminalAWSError(f: Failure) {
    f.AwsError? && (f.code == "InvalidInput" || f.code == "MalformedPolicyDocument")
  }

  predicate IsTerminal(o: Result) {
    && o.Some?
    && (TerminalAWSError(o.value) || o.value.SecretTypeNotSupported? || o.value.SecretNotFound?
        || o.value.TerminalError?)
  }

  /** The terminal errors, one by one. */
  lemma TerminalErrors(o: Result)
    ensures IsTerminal(o) <==>
              o.Some? && match o.value
                         case AwsError(code, _) => code in {"InvalidInput", "MalformedPolicyDocument"}
                         case SecretTypeNotSupported(_) => true
                         case SecretNotFound(_) => true
                         case TerminalError(_) => true
                         case Plain(_) => false
  {
  }

  // ---- condition lists as values ----

  /** The position of the last condition of a kind, or -1. */
  function LastOf(cs: seq<Cond>, kind: Kind): (i: int)
    ensures -1 <= i < |cs|
    ensures i >= 0 ==> cs[i].kind == kind
    ensures forall j :: i < j < |cs| ==> cs[j].kind != kind
  {
    if cs == [] then -1
    else if cs[|cs| - 1].kind == kind then |cs| - 1
    else LastOf(cs[..|cs| - 1], kind)
  }

  /** Sets the last condition of a kind, adding one if there is none. */
  function Raise(cs: seq<Cond>, kind: Kind, text: string): seq<Cond> {
    var i := LastOf(cs, kind);
    var c := Cond(kind, IsTrue, Some(text));
    if i < 0 then cs + [c] else cs[i := c]
  }

  /** Clears the last condition of a kind, if there is one. */
  function Lower(cs: seq<Cond>, kind: Kind): seq<Cond> {
    var i := LastOf(cs, kind);
    if i < 0 then cs else cs[i := Cond(kind, IsFalse, None)]
  }

  function AfterOutcome(cs: seq<Cond>, o: Result): seq<Cond> {
    if IsTerminal(o) then Raise(cs, Terminal, o.value.text)
    else if o.Some? then Raise(Lower(cs, Terminal), Recoverable, o.value.text)
    else Lower(Lower(cs, Terminal), Recoverable)
  }

  function AfterAll(cs: seq<Cond>, os: seq<Result>): seq<Cond> {
    if os == [] then cs else AfterOutcome(AfterAll(cs, os[..|os| - 1]), os[|os| - 1])
  }

  ghost predicate OnePerKind(cs: seq<Cond>) {
    forall i, j :: 0 <= i < j < |cs| ==> cs[i].kind != cs[j].kind
  }

  predicate Holds(cs: seq<Cond>, kind: Kind) {
    exists i :: 0 <= i < |cs| && cs[i].kind == kind && cs[i].status == IsTrue
  }

  /** A kind holds when the list has a condition of it that is true. */
  lemma HoldsExactlyWhen(cs: seq<Cond>, kind: Kind)
    ensures Holds(cs, kind) <==> exists c :: c in cs && c.kind == kind && c.status == IsTrue
  {
    if c :| c in cs && c.kind == kind && c.status == IsTrue {
      var i :| 0 <= i < |cs| && cs[i] == c;
    }
    if Holds(cs, kind) {
      var i :| 0 <= i < |cs| && cs[i].kind == kind && cs[i].status == IsTrue;
      assert cs[i] in cs;
    }
  }

  predicate Managed(kind: Kind) {
    kind == Terminal || kind == Recoverable
  }

  /** Only managed conditions changed: positions and kinds are as before, other
      conditions have kept their value, and what was added is managed. */
  ghost predicate OnlyManagedChanged(before: seq<Cond>, after: seq<Cond>) {
    && |before| <= |after|
    && (forall i :: 0 <= i < |before| ==>
         after[i].kind == before[i].kind && (!Managed(before[i].kind) ==> after[i] == before[i]))
    && (forall i :: |before| <= i < |after| ==> Managed(after[i].kind))
  }

  lemma RaiseEffect(cs: seq<Cond>, kind: Kind, text: string)
    requires OnePerKind(cs) && Managed(kind)
    ensures OnePerKind(Raise(cs, kind, text)) && OnlyManagedChanged(cs, Raise(cs, kind, text))
    ensures Holds(Raise(cs, kind, text), kind)
    ensures forall k :: k != kind ==> (Holds(Raise(cs, kind, text), k) <==> Holds(cs, k))
  {
    var after, i := Raise(cs, kind, text), LastOf(cs, kind);
    assert after[if i < 0 then |cs| else i].status == IsTrue;
    HoldsElsewhere(cs, after, kind);
  }

  lemma LowerEffect(cs: seq<Cond>, kind: Kind)
    requires OnePerKind(cs) && Managed(kind)
    ensures OnePerKind(Lower(cs, kind)) && OnlyManagedChanged(cs, Lower(cs, kind))
    ensures !Holds(Lower(cs, kind), kind)
    ensures forall k :: k != kind ==> (Holds(Lower(cs, kind), k) <==> Holds(cs, k))
  {
    HoldsElsewhere(cs, Lower(cs, kind), kind);
  }

  lemma HoldsElsewhere(a: seq<Cond>, b: seq<Cond>, kind: Kind)
    requires |a| <= |b|
    requires forall i :: 0 <= i < |a| ==> a[i] == b[i] || (a[i].kind == kind && b[i].kind == kind)
    requires forall i :: |a| <= i < |b| ==> b[i].kind == kind
    ensures forall k :: k != kind ==> (Holds(b, k) <==> Holds(a, k))
  {
    forall k | k != kind
      ensures Holds(b, k) <==> Holds(a, k)
    {
      if Holds(a, k) {
        var i :| 0 <= i < |a| && a[i].kind == k && a[i].status == IsTrue;
        assert b[i] == a[i];
      }
      if Holds(b, k) {
        var i :| 0 <= i < |b| && b[i].kind == k && b[i].status == IsTrue;
        assert a[i] == b[i];
      }
    }
  }

  /** One outcome. */
  lemma UpdateEffect(cs: seq<Cond>, o: Result)
    requires OnePerKind(cs)
    ensures OnePerKind(AfterOutcome(cs, o)) && OnlyManagedChanged(cs, AfterOutcome(cs, o))
    ensures Holds(AfterOutcome(cs, o), Terminal) <==> IsTerminal(o)
    ensures Holds(AfterOutcome(cs, o), Terminal) <==>
              o.Some? && (o.value.SecretTypeNotSupported? || o.value.SecretNotFound? || o.value.TerminalError?
                          || (o.value.AwsError? && o.value.code in {"InvalidInput", "MalformedPolicyDocument"}))
    ensures Holds(AfterOutcome(cs, o), Recoverable) <==> if IsTerminal(o) then Holds(cs, Recoverable) else o.Some?
  {
    if IsTerminal(o) {
      RaiseEffect(cs, Terminal, o.value.text);
    } else {
      LowerEffect(cs, Terminal);
      if o.Some? {
        RaiseEffect(Lower(cs, Terminal), Recoverable, o.value.text);
      } else {
        LowerEffect(Lower(cs, Terminal), Recoverable);
      }
    }
  }

  /** A Terminal condition that holds and that a later one hides from updates. */
  ghost predicate StaleTerminal(cs: seq<Cond>) {
    exists i :: 0 <= i < LastOf(cs, Terminal) && cs[i].kind == Terminal && cs[i].status == IsTrue
  }

  /** For any list, with repeated kinds too: after an outcome Terminal holds
      exactly for terminal errors and where a stale one is left. */
  lemma TerminalHoldsExactlyWhen(cs: seq<Cond>, o: Result)
    ensures Holds(AfterOutcome(cs, o), Terminal) <==> IsTerminal(o) || StaleTerminal(cs)
  {
    var after, t := AfterOutcome(cs, o), LastOf(cs, Terminal);
    if IsTerminal(o) {
      assert after[if t < 0 then |cs| else t].status == IsTrue;
    } else {
      var lowered := Lower(cs, Terminal);
      LowerLeavesStale(cs);
      OtherKindUnseen(lowered, after);
    }
  }

  /** For example, success does not clear the first of two Terminal conditions. */
  lemma FirstOfTwoStays()
    ensures var c := Cond(Terminal, IsTrue, None); Holds(AfterOutcome([c, c], None), Terminal)
  {
    var c := Cond(Terminal, IsTrue, None);
    assert LastOf([c, c], Terminal) == 1;
    assert StaleTerminal([c, c]) by { assert [c, c][0] == c; }
    TerminalHoldsExactlyWhen([c, c], None);
  }

  lemma LowerLeavesStale(cs: seq<Cond>)
    ensures Holds(Lower(cs, Terminal), Terminal) <==> StaleTerminal(cs)
  {
    var after, t := Lower(cs, Terminal), LastOf(cs, Terminal);
    if StaleTerminal(cs) {
      var i :| 0 <= i < t && cs[i].kind == Terminal && cs[i].status == IsTrue;
      assert after[i] == cs[i];
    }
    if Holds(after, Terminal) {
      var i :| 0 <= i < |after| && after[i].kind == Terminal && after[i].status == IsTrue;
      assert after[i] == cs[i];
    }
  }

  lemma OtherKindUnseen(a: seq<Cond>, b: seq<Cond>)
    requires |a| <= |b|
    requires forall i :: 0 <= i < |a| ==> a[i] == b[i] || (a[i].kind == Recoverable && b[i].kind == Recoverable)
    requires forall i :: |a| <= i < |b| ==> b[i].kind == Recoverable
    ensures Holds(b, Terminal) <==> Holds(a, Terminal)
  {
    HoldsElsewhere(a, b, Recoverable);
  }

  lemma NothingStale(cs: seq<Cond>)
    requires OnePerKind(cs)
    ensures !StaleTerminal(cs)
  {
  }

  /** What is written: a terminal error sets the Terminal condition to true with
      the error's text; any other outcome sets one that is there to false without a
      message, and so does success with the Recoverable one, which another error
      sets to true with its text. */
  lemma OutcomeContents(cs: seq<Cond>, o: Result)
    requires OnePerKind(cs)
    ensures IsTerminal(o) ==> Cond(Terminal, IsTrue, Some(o.value.text)) in AfterOutcome(cs, o)
    ensures !IsTerminal(o) ==>
              forall c :: c in AfterOutcome(cs, o) && c.kind == Terminal ==> c.status == IsFalse && c.message == None
    ensures !IsTerminal(o) && o.Some? ==> Cond(Recoverable, IsTrue, Some(o.value.text)) in AfterOutcome(cs, o)
    ensures o.None? ==>
              forall c :: c in AfterOutcome(cs, o) && c.kind == Recoverable ==> c.status == IsFalse && c.message == None
    ensures o.None? ==> |AfterOutcome(cs, o)| == |cs|
  {
    UpdateEffect(cs, o);
    if IsTerminal(o) {
      RaiseWrites(cs, Terminal, o.value.text);
    } else {
      LowerEffect(cs, Terminal);
      LowerWrites(cs, Terminal);
      var lowered := Lower(cs, Terminal);
      if o.Some? {
        RaiseWrites(lowered, Recoverable, o.value.text);
      } else {
        LowerWrites(lowered, Recoverable);
      }
    }
  }

  lemma RaiseWrites(cs: seq<Cond>, kind: Kind, text: string)
    ensures Cond(kind, IsTrue, Some(text)) in Raise(cs, kind, text)
    ensures forall c :: c in Raise(cs, kind, text) && c.kind != kind ==> c in cs
  {
    var i := LastOf(cs, kind);
    assert Raise(cs, kind, text)[if i < 0 then |cs| else i] == Cond(kind, IsTrue, Some(text));
  }

  lemma LowerWrites(cs: seq<Cond>, kind: Kind)
    requires OnePerKind(cs)
    ensures forall c :: c in Lower(cs, kind) && c.kind == kind ==> c.status == IsFalse && c.message == None
    ensures forall c :: c in Lower(cs, kind) && c.kind != kind ==> c in cs
    ensures |Lower(cs, kind)| == |cs|
  {
  }

  /** The last outcome that was not a terminal error, as a Recoverable status;
      `start` if there was none. */
  ghost predicate LastNonTerminalFailed(os: seq<Result>, start: bool) {
    if os == [] then start
    else if IsTerminal(os[|os| - 1]) then LastNonTerminalFailed(os[..|os| - 1], start)
    else os[|os| - 1].Some?
  }

  /** Over any sequence of outcomes, from a list with one condition per kind:
      that stays so, Terminal holds exactly when the last outcome was a terminal
      error, Recoverable exactly when the last outcome that was not one was an
      error, and no other condition changes its value or place. */
  lemma {:induction false} ConditionsOverAnyRun(cs: seq<Cond>, os: seq<Result>)
    requires OnePerKind(cs)
    ensures OnePerKind(AfterAll(cs, os)) && OnlyManagedChanged(cs, AfterAll(cs, os))
    ensures os != [] ==> (Holds(AfterAll(cs, os), Terminal) <==> IsTerminal(os[|os| - 1]))
    ensures Holds(AfterAll(cs, os), Recoverable) <==> LastNonTerminalFailed(os, Holds(cs, Recoverable))
  {
    if os == [] {
    } else {
      var front := os[..|os| - 1];
      ConditionsOverAnyRun(cs, front);
      UpdateEffect(AfterAll(cs, front), os[|os| - 1]);
      ChangesCompose(cs, AfterAll(cs, front), AfterAll(cs, os));
    }
  }

  lemma ChangesCompose(a: seq<Cond>, b: seq<Cond>, c: seq<Cond>)
    requires OnlyManagedChanged(a, b) && OnlyManagedChanged(b, c)
    ensures OnlyManagedChanged(a, c)
  {
  }

  // ---- condition objects ----

  class Condition {
    const kind: Kind
    var status: Status
    var message: Option<string>

    constructor (kind: Kind, status: Status, message: Option<string>)
      ensures Value() == Cond(kind, status, message)
    {
      this.kind, this.status, this.message := kind, status, message;
    }

    function Value(): Cond
      reads this
    {
      Cond(kind, status, message)
    }
  }

  function Values(cs: seq<Condition>): (vs: seq<Cond>)
    reads cs
    ensures |vs| == |cs| && forall i :: 0 <= i < |cs| ==> vs[i] == cs[i].Value()
  {
    seq(|cs|, i requires 0 <= i < |cs| reads cs => cs[i].Value())
  }

  ghost predicate NoAliases(cs: seq<Condition>) {
    forall i, j :: 0 <= i < j < |cs| ==> cs[i] != cs[j]
  }

  /** New objects with equal contents. */
  method DeepCopy(cs: seq<Condition>) returns (copy: seq<Condition>)
    ensures Values(copy) == Values(cs) && NoAliases(copy)
    ensures forall i :: 0 <= i < |copy| ==> fresh(copy[i])
  {
    copy := [];
    for i := 0 to |cs|
      invariant |copy| == i && NoAliases(copy) && forall j :: 0 <= j < i ==> fresh(copy[j])
      invariant forall j :: 0 <= j < i ==> copy[j].Value() == cs[j].Value()
    {
      var c := new Condition(cs[i].kind, cs[i].status, cs[i].message);
      copy := copy + [c];
    }
  }

  /** Changes an object of the list in place. */
  method Assign(c: Condition, status: Status, message: Option<string>, ghost cs: seq<Condition>, ghost i: nat)
    requires i < |cs| && cs[i] == c && NoAliases(cs)
    modifies c
    ensures Values(cs) == old(Values(cs))[i := Cond(c.kind, status, message)]
  {
    c.status, c.message := status, message;
  }

  /** `p` is the last of the first n conditions that has the kind, at index i;
      null, and -1, if there is none. */
  ghost predicate IsLast(p: Condition?, cs: seq<Condition>, n: nat, kind: Kind, i: int)
    requires n <= |cs|
  {
    && -1 <= i < n && (forall j :: i < j < n ==> cs[j].kind != kind)
    && (if i < 0 then p == null else p == cs[i] && cs[i].kind == kind)
  }

  lemma LastIs(vs: seq<Cond>, kind: Kind, i: int)
    requires -1 <= i < |vs| && (i >= 0 ==> vs[i].kind == kind) && forall j :: i < j < |vs| ==> vs[j].kind != kind
    ensures LastOf(vs, kind) == i
  {
  }

  /** The pointers that one scan of a condition list ends with. */
  method FindConditions(cs: seq<Condition>)
    returns (terminal: Condition?, recoverable: Condition?, synced: Condition?,
             ghost t: int, ghost r: int, ghost s: int)
    ensures IsLast(terminal, cs, |cs|, Terminal, t)
    ensures IsLast(recoverable, cs, |cs|, Recoverable, r)
    ensures IsLast(synced, cs, |cs|, ResourceSynced, s)
  {
    terminal, recoverable, synced := null, null, null;
    t, r, s := -1, -1, -1;
    for i := 0 to |cs|
      invariant IsLast(terminal, cs, i, Terminal, t)
      invariant IsLast(recoverable, cs, i, Recoverable, r)
      invariant IsLast(synced, cs, i, ResourceSynced, s)
    {
      var c := cs[i];
      if c.kind == Terminal {
        terminal, t := c, i;
      }
      if c.kind == Recoverable {
        recoverable, r := c, i;
      }
      if c.kind == ResourceSynced {
        synced, s := c, i;
      }
    }
  }

  /** Sets the condition found, or a new one appended to the list. */
  method RaiseCondition(cs: seq<Condition>, found: Condition?, kind: Kind, text: string, ghost i: int)
    returns (all: seq<Condition>)
    requires NoAliases(cs) && IsLast(found, cs, |cs|, kind, i)
    modifies cs
    ensures Values(all) == Raise(old(Values(cs)), kind, text)
    ensures cs <= all && forall j :: |cs| <= j < |all| ==> fresh(all[j])
  {
    LastIs(Values(cs), kind, i);
    if found == null {
      var c := new Condition(kind, Unknown, None);
      c.status, c.message := IsTrue, Some(text);
      all := cs + [c];
    } else {
      Assign(found, IsTrue, Some(text), cs, i);
      all := cs;
    }
  }

  /** Clears the condition found, if any. */
  method LowerCondition(cs: seq<Condition>, found: Condition?, kind: Kind, ghost i: int)
    requires NoAliases(cs) && IsLast(found, cs, |cs|, kind, i)
    modifies cs
    ensures Values(cs) == Lower(old(Values(cs)), kind)
  {
    LastIs(Values(cs), kind, i);
    if found != null {
      Assign(found, IsFalse, None, cs, i);
    }
  }

  /** Records an outcome in a list of conditions, in place. */
  method Record(ko: seq<Condition>, o: Result) returns (conds: seq<Condition>, updated: bool)
    requires NoAliases(ko)
    modifies ko
    ensures Values(conds) == AfterOutcome(old(Values(ko)), o)
    ensures ko <= conds && forall j :: |ko| <= j < |conds| ==> fresh(conds[j])
    ensures !updated <==> o.None? && NothingToRecord(old(Values(ko)))
  {
    ghost var before := Values(ko);
    var terminal, recoverable, synced;
    ghost var t, r, s;
    terminal, recoverable, synced, t, r, s := FindConditions(ko);
    if IsTerminal(o) {
      conds := RaiseCondition(ko, terminal, Terminal, o.value.text, t);
      return conds, true;
    }
    LowerCondition(ko, terminal, Terminal, t);
    if o.Some? {
      conds := RaiseCondition(ko, recoverable, Recoverable, o.value.text, r);
      return conds, true;
    }
    LowerCondition(ko, recoverable, Recoverable, r);
    updated := terminal != null || recoverable != null || synced != null;
    conds := ko;
  }

  /** Works on a copy: the conditions passed in are left as they were. Nothing is
      returned when there was nothing to record. */
  method UpdateConditions(cs: seq<Condition>, o: Result) returns (conds: seq<Condition>, updated: bool)
    ensures forall i :: 0 <= i < |conds| ==> fresh(conds[i])
    ensures updated ==> Values(conds) == AfterOutcome(old(Values(cs)), o)
    ensures !updated <==>
              o.None? && forall i :: 0 <= i < |cs| ==> cs[i].kind !in {Terminal, Recoverable, ResourceSynced}
  {
    var ko := DeepCopy(cs);
    conds, updated := Record(ko, o);
    if !updated {
      conds := [];
    }
  }

  /** No condition of the three kinds that outcomes are recorded in. */
  ghost predicate NothingToRecord(vs: seq<Cond>) {
    forall i :: 0 <= i < |vs| ==> !Managed(vs[i].kind) && vs[i].kind != ResourceSynced
  }

  lemma NothingChanges(vs: seq<Cond>)
    requires NothingToRecord(vs)
    ensures AfterOutcome(vs, None) == vs
  {
    LastIs(vs, Terminal, -1);
    LastIs(vs, Recoverable, -1);
  }

  /** What the caller gets back as an error. */
  datatype Returned = TerminalSentinel | Original(f: Failure)

  /** The caller is told that the resource is Terminal exactly when it ends up
      so: for a terminal error, or when a stale condition says so. Any other
      error is handed on. */
  method OnError(cs: seq<Condition>, f: Failure) returns (conds: seq<Condition>, err: Returned)
    ensures Values(conds) == AfterOutcome(old(Values(cs)), Some(f)) && forall i :: 0 <= i < |conds| ==> fresh(conds[i])
    ensures err == if IsTerminal(Some(f)) || StaleTerminal(old(Values(cs))) then TerminalSentinel else Original(f)
    ensures OnePerKind(old(Values(cs))) ==>
              (err == TerminalSentinel <==>
               f.SecretTypeNotSupported? || f.SecretNotFound? || f.TerminalError?
               || (f.AwsError? && f.code in {"InvalidInput", "MalformedPolicyDocument"}))
  {
    var updated;
    conds, updated := UpdateConditions(cs, Some(f));
    TerminalHoldsExactlyWhen(Values(cs), Some(f));
    if OnePerKind(Values(cs)) {
      NothingStale(Values(cs));
    }
    for i := 0 to |conds|
      invariant forall j :: 0 <= j < i ==> !(conds[j].kind == Terminal && conds[j].status == IsTrue)
    {
      if conds[i].kind == Terminal && conds[i].status == IsTrue {
        assert Values(conds)[i] == conds[i].Value();
        return conds, TerminalSentinel;
      }
    }
    return conds, Original(f);
  }

  /** Without anything to record, the resource itself is returned. */
  method OnSuccess(cs: seq<Condition>) returns (conds: seq<Condition>)
    ensures Values(conds) == AfterOutcome(old(Values(cs)), None)
    ensures if forall i :: 0 <= i < |cs| ==> cs[i].kind !in {Terminal, Recoverable, ResourceSynced} then conds == cs
            else forall i :: 0 <= i < |conds| ==> fresh(conds[i])
  {
    var updated;
    conds, updated := UpdateConditions(cs, None);
    if !updated {
      NothingChanges(Values(cs));
      conds := cs;
    }
  }
}
