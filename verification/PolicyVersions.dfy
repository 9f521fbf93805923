// The version store of a managed policy as a state machine: at most five
// versions, one of them the default. An update first makes room by evicting
// the oldest non-default version and then creates a new default version; the
// two calls are not atomic, so a failed update may leave only the eviction.
module PolicyVersions {
  import opened Base
  import opened Documents

  datatype Version = Version(id: nat, created: nat, doc: Doc, isDefault: bool)

  /** `versions` is in creation order; ids are never reused. */
  datatype Store = Store(versions: seq<Version>, nextId: nat, now: nat)

  const LIMIT := 5

  ghost predicate IsDefaultAt(vs: seq<Version>, d: int) {
    0 <= d < |vs| && forall j :: 0 <= j < |vs| ==> (vs[j].isDefault <==> j == d)
  }

  ghost predicate OneDefault(vs: seq<Version>) {
    exists d :: IsDefaultAt(vs, d)
  }

  ghost predicate Inv(s: Store) {
    && 1 <= |s.versions| <= LIMIT
    && OneDefault(s.versions)
    && (forall i, j :: 0 <= i < j < |s.versions| ==>
         s.versions[i].id < s.versions[j].id && s.versions[i].created <= s.versions[j].created)
    && (forall i :: 0 <= i < |s.versions| ==> s.versions[i].id < s.nextId && s.versions[i].created <= s.now)
  }

  /** The document that reading the policy returns. */
  ghost function DefaultDoc(s: Store): Doc
    requires Inv(s)
  {
    var d :| IsDefaultAt(s.versions, d);
    s.versions[d].doc
  }

  function RemoveAt(vs: seq<Version>, i: int): seq<Version>
    requires 0 <= i < |vs|
  {
    vs[..i] + vs[i + 1..]
  }

  function WithDefault(vs: seq<Version>, d: int): seq<Version> {
    seq(|vs|, i requires 0 <= i < |vs| => vs[i].(isDefault := i == d))
  }

  /** The version that may be evicted: no other non-default one is older. */
  ghost predicate OldestNonDefault(vs: seq<Version>, i: int) {
    && 0 <= i < |vs| && !vs[i].isDefault
    && forall j :: 0 <= j < |vs| && !vs[j].isDefault ==> vs[i].created <= vs[j].created
  }

  ghost predicate Evicted(s: Store, t: Store, i: int) {
    OldestNonDefault(s.versions, i) && t == s.(versions := RemoveAt(s.versions, i))
  }

  /** The limit check succeeded: a full store has lost one version. */
  ghost predicate RoomMade(s: Store, t: Store) {
    if |s.versions| == LIMIT then exists i :: Evicted(s, t, i) else t == s
  }

  function AddDefault(s: Store, doc: Doc): Store {
    Store(WithDefault(s.versions, -1) + [Version(s.nextId, s.now, doc, true)], s.nextId + 1, s.now)
  }

  function AddOther(s: Store, doc: Doc): Store {
    Store(s.versions + [Version(s.nextId, s.now, doc, false)], s.nextId + 1, s.now)
  }

  datatype Event =
    | Updated(doc: Doc)                           // an update that succeeded
    | Failed                                      // an update that returned an error
    | Waited                                      // time passed
    | OutsideCreate(doc: Doc, asDefault: bool)    // someone else added a version
    | OutsideDelete(index: nat)                   // someone else deleted a version
    | OutsideDefault(index: nat)                  // someone else moved the default

  ghost predicate Step(s: Store, e: Event, t: Store) {
    match e
    case Updated(doc) => exists m :: RoomMade(s, m) && t == AddDefault(m, doc)
    case Failed => t == s || (|s.versions| == LIMIT && RoomMade(s, t))
    case Waited => s.now <= t.now && t == s.(now := t.now)
    case OutsideCreate(doc, asDefault) =>
      |s.versions| < LIMIT && t == if asDefault then AddDefault(s, doc) else AddOther(s, doc)
    case OutsideDelete(i) =>
      i < |s.versions| && !s.versions[i].isDefault && t == s.(versions := RemoveAt(s.versions, i))
    case OutsideDefault(i) => i < |s.versions| && t == s.(versions := WithDefault(s.versions, i))
  }

  ghost predicate Run(tr: seq<Store>, evs: seq<Event>) {
    |tr| == |evs| + 1 && forall i :: 0 <= i < |evs| ==> Step(tr[i], evs[i], tr[i + 1])
  }

  function Last<T>(s: seq<T>): T
    requires s != []
  {
    s[|s| - 1]
  }

  // ---- one step ----

  lemma RemovalKeepsInv(s: Store, i: nat)
    requires Inv(s) && i < |s.versions| && !s.versions[i].isDefault
    ensures Inv(s.(versions := RemoveAt(s.versions, i)))
  {
    var d :| IsDefaultAt(s.versions, d);
    DefaultAfterRemoval(s.versions, i, d);
  }

  lemma DefaultAfterRemoval(vs: seq<Version>, i: nat, d: int)
    requires i < |vs| && i != d && IsDefaultAt(vs, d)
    ensures IsDefaultAt(RemoveAt(vs, i), if d < i then d else d - 1)
  {
  }

  /** A full store always has something to evict, and afterwards the limit
      cannot reject the new version. */
  lemma RoomCanAlwaysBeMade(s: Store)
    requires Inv(s)
    ensures exists t :: RoomMade(s, t)
    ensures forall t :: RoomMade(s, t) ==> Inv(t) && |t.versions| < LIMIT && t.nextId == s.nextId && t.now == s.now
  {
    if |s.versions| == LIMIT {
      var d :| IsDefaultAt(s.versions, d);
      var i := if d == 0 then 1 else 0;
      assert OldestNonDefault(s.versions, i);
      var t := s.(versions := RemoveAt(s.versions, i));
      assert Evicted(s, t, i) && RoomMade(s, t);
      forall t | RoomMade(s, t)
        ensures Inv(t) && |t.versions| < LIMIT && t.nextId == s.nextId && t.now == s.now
      {
        var k :| Evicted(s, t, k);
        RemovalKeepsInv(s, k);
      }
    } else {
      assert RoomMade(s, s);
    }
  }

  lemma AddKeepsInv(s: Store, doc: Doc)
    requires Inv(s) && |s.versions| < LIMIT
    ensures Inv(AddDefault(s, doc)) && Inv(AddOther(s, doc))
    ensures DefaultDoc(AddDefault(s, doc)) == doc
  {
    assert IsDefaultAt(AddDefault(s, doc).versions, |s.versions|);
    var d :| IsDefaultAt(s.versions, d);
    assert IsDefaultAt(AddOther(s, doc).versions, d);
  }

  lemma MovingDefaultKeepsInv(s: Store, d: nat)
    requires Inv(s) && d < |s.versions|
    ensures Inv(s.(versions := WithDefault(s.versions, d)))
  {
    assert IsDefaultAt(WithDefault(s.versions, d), d);
  }

  lemma UpdateKeepsInv(s: Store, doc: Doc, t: Store)
    requires Inv(s) && Step(s, Updated(doc), t)
    ensures Inv(t) && DefaultDoc(t) == doc && t.nextId == s.nextId + 1
  {
    RoomCanAlwaysBeMade(s);
    var m :| RoomMade(s, m) && t == AddDefault(m, doc);
    AddKeepsInv(m, doc);
  }

  /** What a successful update leaves: the new version, with the update's document
      and date, as the default, and before it what was there, without the default
      and without at most one version, which only a store of five loses. */
  lemma UpdateLeaves(s: Store, doc: Doc, t: Store)
    requires Inv(s) && Step(s, Updated(doc), t)
    ensures |t.versions| == if |s.versions| == 5 then 5 else |s.versions| + 1
    ensures Last(t.versions) == Version(s.nextId, s.now, doc, true)
    ensures forall i :: 0 <= i < |t.versions| - 1 ==>
              !t.versions[i].isDefault && KeptFrom(s.versions, t.versions[i])
    ensures |s.versions| != 5 ==> forall i :: 0 <= i < |s.versions| ==> OnlyDefaultDiffers(t.versions[i], s.versions[i])
  {
    var m :| RoomMade(s, m) && t == AddDefault(m, doc);
    AddLeaves(m, doc);
    if |s.versions| == LIMIT {
      var k :| Evicted(s, m, k);
      forall i | 0 <= i < |m.versions|
        ensures KeptFrom(s.versions, t.versions[i])
      {
        RemovalSource(s.versions, k, i);
        assert OnlyDefaultDiffers(t.versions[i], s.versions[if i < k then i else i + 1]);
      }
    } else {
      forall i | 0 <= i < |m.versions|
        ensures KeptFrom(s.versions, t.versions[i])
      {
        assert OnlyDefaultDiffers(t.versions[i], s.versions[i]);
      }
    }
  }

  lemma AddLeaves(s: Store, doc: Doc)
    ensures var t := AddDefault(s, doc);
            && |t.versions| == |s.versions| + 1 && Last(t.versions) == Version(s.nextId, s.now, doc, true)
            && forall i :: 0 <= i < |s.versions| ==>
                 !t.versions[i].isDefault && OnlyDefaultDiffers(t.versions[i], s.versions[i])
  {
  }

  lemma RemovalSource(vs: seq<Version>, k: nat, i: nat)
    requires k < |vs| && i < |vs| - 1
    ensures RemoveAt(vs, k)[i] == vs[if i < k then i else i + 1]
  {
  }

  /** `v` is one of these versions, the default mark apart. */
  ghost predicate KeptFrom(vs: seq<Version>, v: Version) {
    exists j :: 0 <= j < |vs| && OnlyDefaultDiffers(v, vs[j])
  }

  predicate OnlyDefaultDiffers(v: Version, w: Version) {
    v.id == w.id && v.created == w.created && v.doc == w.doc
  }

  lemma StepKeepsInv(s: Store, e: Event, t: Store)
    requires Inv(s) && Step(s, e, t)
    ensures Inv(t)
  {
    match e
    case Updated(doc) => UpdateKeepsInv(s, doc, t);
    case OutsideCreate(doc, asDefault) =>
      AddKeepsInv(s, doc);
    case OutsideDelete(i) => RemovalKeepsInv(s, i);
    case OutsideDefault(i) => MovingDefaultKeepsInv(s, i);
    case Waited =>
      assert s.versions == t.versions;
    case Failed =>
      if t != s { RoomCanAlwaysBeMade(s); }
  }

  ghost predicate HasId(vs: seq<Version>, id: nat) {
    exists i :: 0 <= i < |vs| && vs[i].id == id
  }

  lemma RemovedIds(vs: seq<Version>, i: nat, j: nat)
    requires i < |vs| && j < |vs| && i != j
    ensures HasId(RemoveAt(vs, i), vs[j].id)
  {
    var r := RemoveAt(vs, i);
    assert r[if j < i then j else j - 1] == vs[j];
  }

  /** An update, whatever its outcome, never takes away the default version,
      takes away at most one version, and only an oldest non-default one. */
  lemma UpdateEvictsOnlyTheOldest(s: Store, e: Event, t: Store)
    requires Inv(s) && Step(s, e, t) && (e.Updated? || e.Failed?)
    ensures forall j :: 0 <= j < |s.versions| && !HasId(t.versions, s.versions[j].id) ==>
              |s.versions| == LIMIT && OldestNonDefault(s.versions, j)
    ensures forall j, k :: 0 <= j < k < |s.versions| ==>
              HasId(t.versions, s.versions[j].id) || HasId(t.versions, s.versions[k].id)
  {
    var m := s;
    if e.Updated? {
      m :| RoomMade(s, m) && t == AddDefault(m, e.doc);
    } else if t != s {
      m := t;
    }
    forall j | 0 <= j < |m.versions|
      ensures HasId(t.versions, m.versions[j].id)
    {
      assert t.versions[j].id == m.versions[j].id;
    }
    if m != s {
      var i :| Evicted(s, m, i);
      forall j | 0 <= j < |s.versions| && j != i
        ensures HasId(t.versions, s.versions[j].id)
      {
        RemovedIds(s.versions, i, j);
        var k :| 0 <= k < |m.versions| && m.versions[k].id == s.versions[j].id;
        assert HasId(t.versions, m.versions[k].id);
      }
    }
  }

  // ---- whole runs ----

  lemma RunFront(tr: seq<Store>, evs: seq<Event>)
    requires Run(tr, evs) && evs != []
    ensures Run(tr[..|evs|], evs[..|evs| - 1])
    ensures Last(tr[..|evs|]) == tr[|evs| - 1] && Step(tr[|evs| - 1], Last(evs), Last(tr))
  {
  }

  /** Safety over every run, with failures and outside changes anywhere
      between updates: one to five versions, exactly one default. */
  lemma {:induction false} RunKeepsInv(tr: seq<Store>, evs: seq<Event>)
    requires Run(tr, evs) && Inv(tr[0])
    ensures Inv(Last(tr)) && 1 <= |Last(tr).versions| <= 5
    ensures exists v :: v in Last(tr).versions && v.isDefault
    ensures forall v, w :: v in Last(tr).versions && w in Last(tr).versions && v.isDefault && w.isDefault ==> v == w
    decreases |evs|
  {
    if evs == [] {
    } else {
      RunFront(tr, evs);
      RunKeepsInv(tr[..|evs|], evs[..|evs| - 1]);
      StepKeepsInv(tr[|evs| - 1], Last(evs), Last(tr));
    }
    var d :| IsDefaultAt(Last(tr).versions, d);
    assert Last(tr).versions[d] in Last(tr).versions;
  }

  /** After any run whose last event is a successful update, the policy reads
      back the document of that update. */
  lemma UpdateReadsBack(tr: seq<Store>, evs: seq<Event>)
    requires Run(tr, evs) && Inv(tr[0]) && evs != [] && Last(evs).Updated?
    ensures Inv(Last(tr)) && DefaultDoc(Last(tr)) == Last(evs).doc
  {
    RunFront(tr, evs);
    RunKeepsInv(tr[..|evs|], evs[..|evs| - 1]);
    StepKeepsInv(tr[|evs| - 1], Last(evs), Last(tr));
  }

  ghost predicate LostOne(vs: seq<Version>, ws: seq<Version>) {
    |vs| == LIMIT && exists i :: OldestNonDefault(vs, i) && ws == RemoveAt(vs, i)
  }

  /** However many update attempts fail in a row, together they destroy at most
      one version, and only if the store was full when they began. */
  lemma {:induction false} FailedAttemptsLoseAtMostOne(tr: seq<Store>, evs: seq<Event>)
    requires Run(tr, evs) && Inv(tr[0])
    requires forall i :: 0 <= i < |evs| ==> evs[i].Failed? || evs[i].Waited?
    ensures Last(tr).nextId == tr[0].nextId
    ensures Last(tr).versions == tr[0].versions || LostOne(tr[0].versions, Last(tr).versions)
    decreases |evs|
  {
    if evs == [] {
    } else {
      RunFront(tr, evs);
      FailedAttemptsLoseAtMostOne(tr[..|evs|], evs[..|evs| - 1]);
    }
  }

  // ---- the retention window ----

  function Min(a: int, b: int): int {
    if a < b then a else b
  }

  /** A policy just created: version 1 is the only one and the default. */
  ghost predicate Fresh(s: Store) {
    && |s.versions| == 1 && s.versions[0].id == 1 && s.nextId == 2
    && s.versions[0].isDefault && s.versions[0].created <= s.now
  }

  /** The kept versions are the last ones ever created, in order of date, and
      the newest is the default. */
  ghost predicate Window(s: Store) {
    && 1 <= |s.versions| < s.nextId
    && (forall i :: 0 <= i < |s.versions| ==> s.versions[i].id == s.nextId - |s.versions| + i)
    && (forall i, j :: 0 <= i < j < |s.versions| ==> s.versions[i].created <= s.versions[j].created)
    && IsDefaultAt(s.versions, |s.versions| - 1)
    && Last(s.versions).created <= s.now
  }

  function Updates(evs: seq<Event>): nat {
    if evs == [] then 0 else Updates(evs[..|evs| - 1]) + if Last(evs).Updated? then 1 else 0
  }

  ghost predicate NoOutsider(evs: seq<Event>) {
    forall i :: 0 <= i < |evs| ==> evs[i].Updated? || evs[i].Failed? || evs[i].Waited?
  }

  /** An eviction from here can only take the first version. */
  ghost predicate HeadStrict(s: Store) {
    |s.versions| == LIMIT ==> s.versions[0].created < s.versions[1].created
  }

  /** Whenever an update met a full store, its first version was strictly older
      than its second. */
  ghost predicate NoTieAtHead(tr: seq<Store>, evs: seq<Event>) {
    |tr| == |evs| + 1 && forall i :: 0 <= i < |evs| && !evs[i].Waited? ==> HeadStrict(tr[i])
  }

  lemma WindowEvicts(s: Store, t: Store)
    requires Window(s) && HeadStrict(s) && RoomMade(s, t)
    ensures Window(t) && t.now == s.now && t.nextId == s.nextId
    ensures Last(t.versions) == Last(s.versions)
    ensures |t.versions| == if |s.versions| == LIMIT then LIMIT - 1 else |s.versions|
  {
    if |s.versions| == LIMIT {
      var i :| Evicted(s, t, i);
      var vs := s.versions;
      assert !vs[0].isDefault;
      assert vs[i].created <= vs[0].created;
      assert i == 0;
    }
  }

  lemma WindowAdds(s: Store, doc: Doc)
    requires Window(s)
    ensures Window(AddDefault(s, doc))
  {
    var t := AddDefault(s, doc);
    forall i | 0 <= i < |s.versions|
      ensures t.versions[i].id == s.versions[i].id && t.versions[i].created == s.versions[i].created
      ensures t.versions[i].created <= s.now
    {
      assert s.versions[i].created <= Last(s.versions).created;
    }
  }

  /** After n successful updates the window holds all of the last five
      versions, unless a failed update has evicted without creating. */
  ghost predicate Kept(s: Store, n: nat) {
    && Window(s) && s.nextId == n + 2
    && (|s.versions| == Min(LIMIT, n + 1) || (|s.versions| == LIMIT - 1 && n + 1 >= LIMIT))
  }

  lemma KeptAfterUpdate(s: Store, n: nat, doc: Doc, t: Store)
    requires Kept(s, n) && HeadStrict(s)
    requires Step(s, Updated(doc), t)
    ensures Kept(t, n + 1) && |t.versions| == Min(LIMIT, n + 2) && Last(t.versions).doc == doc
  {
    var m :| RoomMade(s, m) && t == AddDefault(m, doc);
    WindowEvicts(s, m);
    WindowAdds(m, doc);
  }

  lemma KeptAfterFailure(s: Store, n: nat, e: Event, t: Store)
    requires Kept(s, n) && Step(s, e, t) && (e.Waited? || (e.Failed? && HeadStrict(s)))
    ensures Kept(t, n)
  {
    if e.Failed? && t != s {
      WindowEvicts(s, t);
    }
  }

  /** With a tie at the head the second version can go instead of the first. */
  lemma TieEvictsSecond(s: Store) returns (m: Store)
    requires Window(s) && !HeadStrict(s)
    ensures RoomMade(s, m) && !Window(m) && forall doc :: !Window(AddDefault(m, doc))
  {
    m := s.(versions := RemoveAt(s.versions, 1));
    assert Evicted(s, m, 1);
    assert m.versions[0].id != m.nextId - |m.versions|;
    forall doc ensures !Window(AddDefault(m, doc)) {
      var t := AddDefault(m, doc);
      assert t.versions[0].id == m.versions[0].id != t.nextId - |t.versions|;
    }
  }

  /** From a store in which the window holds, an attempt keeps it whichever
      version the sort puts first, exactly when no tie heads a full store. */
  lemma AttemptKeepsWindowExactlyWhen(s: Store, n: nat, doc: Doc)
    requires Kept(s, n)
    ensures (forall t :: Step(s, Updated(doc), t) ==> Kept(t, n + 1)) <==> HeadStrict(s)
    ensures (forall t :: Step(s, Failed, t) ==> Kept(t, n)) <==> HeadStrict(s)
  {
    if HeadStrict(s) {
      forall t | Step(s, Updated(doc), t) ensures Kept(t, n + 1) {
        KeptAfterUpdate(s, n, doc, t);
      }
      forall t | Step(s, Failed, t) ensures Kept(t, n) {
        KeptAfterFailure(s, n, Failed, t);
      }
    } else {
      var m := TieEvictsSecond(s);
      assert Step(s, Updated(doc), AddDefault(m, doc)) && Step(s, Failed, m);
    }
  }

  /** From a fresh policy, with n successful updates and any failed ones in
      between: n+1 versions were ever created, the kept ones are the most recent
      of them with the newest as default, and right after a success they are
      exactly the last min(5, n+1). Equal dates do no harm unless they head a
      full store. */
  lemma {:induction false} RetentionWindow(tr: seq<Store>, evs: seq<Event>)
    requires Run(tr, evs) && Fresh(tr[0]) && NoOutsider(evs) && NoTieAtHead(tr, evs)
    ensures Kept(Last(tr), Updates(evs))
    ensures evs != [] && Last(evs).Updated? ==>
              && |Last(tr).versions| == Min(5, Updates(evs) + 1)
              && Last(Last(tr).versions).doc == Last(evs).doc
    ensures var vs := Last(tr).versions;
            && vs != [] && Last(vs).isDefault
            && forall i :: 0 <= i < |vs| ==> vs[i].id == Updates(evs) + 2 - |vs| + i
    decreases |evs|
  {
    if evs == [] {
    } else {
      RunFront(tr, evs);
      RetentionWindow(tr[..|evs|], evs[..|evs| - 1]);
      var s, n := tr[|evs| - 1], Updates(evs[..|evs| - 1]);
      assert Kept(s, n);
      if Last(evs).Updated? {
        KeptAfterUpdate(s, n, Last(evs).doc, Last(tr));
      } else {
        KeptAfterFailure(s, n, Last(evs), Last(tr));
      }
    }
  }

  /** At every step of the run, the window is kept by every outcome the step
      could have had. */
  ghost predicate WindowSure(tr: seq<Store>, evs: seq<Event>)
    requires |tr| == |evs| + 1
  {
    forall i, t :: 0 <= i < |evs| && Step(tr[i], evs[i], t) ==> Kept(t, Updates(evs[..i + 1]))
  }

  lemma KeptThroughout(tr: seq<Store>, evs: seq<Event>, i: nat)
    requires Run(tr, evs) && Fresh(tr[0]) && i <= |evs|
    requires WindowSure(tr, evs)
    ensures Kept(tr[i], Updates(evs[..i]))
  {
    if i > 0 {
      assert Step(tr[i - 1], evs[i - 1], tr[i]);
      assert Kept(tr[i], Updates(evs[..i - 1 + 1]));
    }
  }

  lemma UpdatesSnoc(evs: seq<Event>, i: nat)
    requires i < |evs|
    ensures Updates(evs[..i + 1]) == Updates(evs[..i]) + if evs[i].Updated? then 1 else 0
  {
    assert evs[..i + 1][..i] == evs[..i];
  }

  lemma SureMeansStrict(tr: seq<Store>, evs: seq<Event>, i: nat)
    requires Run(tr, evs) && Fresh(tr[0]) && NoOutsider(evs) && WindowSure(tr, evs)
    requires i < |evs| && !evs[i].Waited?
    ensures HeadStrict(tr[i])
  {
    KeptThroughout(tr, evs, i);
    UpdatesSnoc(evs, i);
    AttemptKeepsWindowExactlyWhen(tr[i], Updates(evs[..i]), if evs[i].Updated? then evs[i].doc else []);
  }

  lemma StrictMeansKept(tr: seq<Store>, evs: seq<Event>, i: nat, t: Store)
    requires Run(tr, evs) && Fresh(tr[0]) && NoOutsider(evs) && NoTieAtHead(tr, evs)
    requires i < |evs| && Step(tr[i], evs[i], t)
    ensures Kept(t, Updates(evs[..i + 1]))
  {
    RetentionWindow(tr[..i + 1], evs[..i]);
    UpdatesSnoc(evs, i);
    if evs[i].Updated? {
      KeptAfterUpdate(tr[i], Updates(evs[..i]), evs[i].doc, t);
    } else {
      KeptAfterFailure(tr[i], Updates(evs[..i]), evs[i], t);
    }
  }

  /** For every run without outside writers: the window is sure to be kept at
      every step exactly when no attempt met a full store headed by a tie. */
  lemma WindowSureExactlyWhenNoTieAtHead(tr: seq<Store>, evs: seq<Event>)
    requires Run(tr, evs) && Fresh(tr[0]) && NoOutsider(evs)
    ensures WindowSure(tr, evs) <==> NoTieAtHead(tr, evs)
  {
    if WindowSure(tr, evs) {
      forall i | 0 <= i < |evs| && !evs[i].Waited? ensures HeadStrict(tr[i]) {
        SureMeansStrict(tr, evs, i);
      }
    }
    if NoTieAtHead(tr, evs) {
      forall i, t | 0 <= i < |evs| && Step(tr[i], evs[i], t) ensures Kept(t, Updates(evs[..i + 1])) {
        StrictMeansKept(tr, evs, i, t);
      }
    }
  }

  /** Creation dates are what eviction compares. When the default is the newest
      of five versions, the first created is sure to go exactly when it is
      strictly older than the second. */
  lemma FirstGoesExactlyWhenStrictlyOldest(s: Store)
    requires Inv(s) && |s.versions| == LIMIT && IsDefaultAt(s.versions, LIMIT - 1)
    ensures (forall t :: RoomMade(s, t) ==> t.versions == s.versions[1..])
            <==> s.versions[0].created < s.versions[1].created
  {
    var vs := s.versions;
    var t := s.(versions := RemoveAt(vs, 1));
    if vs[0].created == vs[1].created {
      assert OldestNonDefault(vs, 1);
      assert Evicted(s, t, 1) && RoomMade(s, t);
      assert t.versions[0].id != s.versions[1..][0].id;
    } else {
      forall t | RoomMade(s, t)
        ensures t.versions == s.versions[1..]
      {
        var i :| Evicted(s, t, i);
        assert vs[0].created <= vs[i].created;
        assert i == 0;
      }
    }
  }

  function Date(i: nat): nat {
    if i < 2 then 0 else i
  }

  /** The first k of five versions, of which two were created in one instant. */
  function Tied(k: nat, now: nat): Store {
    Store(seq(k, i requires 0 <= i < k => Version(i + 1, Date(i), [], i == k - 1)), k + 1, now)
  }

  lemma ExtendRun(tr: seq<Store>, evs: seq<Event>, e: Event, t: Store)
    requires Run(tr, evs) && Step(Last(tr), e, t)
    ensures Run(tr + [t], evs + [e]) && Last(tr + [t]) == t && (tr + [t])[0] == tr[0]
  {
    var tr', evs' := tr + [t], evs + [e];
    forall i | 0 <= i < |evs'|
      ensures Step(tr'[i], evs'[i], tr'[i + 1])
    {
      if i < |evs| {
        assert Step(tr[i], evs[i], tr[i + 1]);
      }
    }
  }

  /** Waiting until the next date and updating creates the next version. */
  lemma NextTied(k: nat)
    requires 1 <= k < LIMIT
    ensures Step(Tied(k, Date(k - 1)), Waited, Tied(k, Date(k)))
    ensures Step(Tied(k, Date(k)), Updated([]), Tied(k + 1, Date(k)))
  {
    var s := Tied(k, Date(k));
    assert RoomMade(s, s);
    assert AddDefault(s, []).versions == Tied(k + 1, Date(k)).versions;
  }

  lemma {:induction false} TiedIsReachable(k: nat) returns (tr: seq<Store>, evs: seq<Event>)
    requires 1 <= k <= LIMIT
    ensures Run(tr, evs) && Fresh(tr[0]) && Last(tr) == Tied(k, Date(k - 1))
    ensures forall e :: e in evs ==> e.Updated? || e.Waited?
  {
    if k == 1 {
      tr, evs := [Tied(1, 0)], [];
    } else {
      tr, evs := TiedIsReachable(k - 1);
      NextTied(k - 1);
      ExtendRun(tr, evs, Waited, Tied(k - 1, Date(k - 1)));
      tr, evs := tr + [Tied(k - 1, Date(k - 1))], evs + [Waited];
      ExtendRun(tr, evs, Updated([]), Tied(k, Date(k - 1)));
      tr, evs := tr + [Tied(k, Date(k - 1))], evs + [Updated([])];
    }
  }

  /** A run from a fresh policy, with updates only, in which two versions share
      a date: version 2 is evicted while version 1 stays. */
  lemma TiedDatesBreakTheWindow() returns (tr: seq<Store>, evs: seq<Event>)
    ensures Run(tr, evs) && Fresh(tr[0]) && forall e :: e in evs ==> e.Updated? || e.Waited?
    ensures |Last(tr).versions| == LIMIT && Last(tr).versions[0].id == 1 && Last(tr).versions[1].id == 3
  {
    tr, evs := TiedIsReachable(LIMIT);
    var s := Last(tr);
    var m := s.(versions := RemoveAt(s.versions, 1));
    assert Evicted(s, m, 1) && RoomMade(s, m);
    var t := AddDefault(m, []);
    ExtendRun(tr, evs, Updated([]), t);
    tr, evs := tr + [t], evs + [Updated([])];
  }
}
