// Comparing two tag lists regardless of order: which tags to set, which keys to
// remove, and when the lists count as equal.
module TagDelta {
  import opened Base
  import opened Tags

  /** Nil and empty count as equal. A non-empty string against nil is outside
      the domain: the code would follow the nil pointer. */
  predicate EqualStrings(a: Option<string>, b: Option<string>)
    requires a.Some? && a.value != "" ==> b.Some?
    ensures EqualStrings(a, b) <==> Text(a) == Text(b)
  {
    if a.None? then b.None? || b.value == ""
    else (a.value == "" && b.None?) || a.value == b.value
  }

  /** Whether some tag has key k. */
  predicate HasKey(ts: seq<Tag>, k: Option<string>) {
    exists t | t in ts :: t.key == k
  }

  /** The first tag with key k. */
  function FirstWith(ts: seq<Tag>, k: Option<string>): (t: Tag)
    requires HasKey(ts, k)
    ensures t in ts && t.key == k
  {
    if ts[0].key == k then ts[0]
    else
      assert HasKey(ts[1..], k);
      FirstWith(ts[1..], k)
  }

  predicate SameValue(ts: seq<Tag>, t: Tag) {
    HasKey(ts, t.key) && Text(FirstWith(ts, t.key).value) == Text(t.value)
  }

  ghost predicate Keyed(ts: seq<Tag>) {
    forall t :: t in ts ==> t.key.Some?
  }

  /** What the code needs of its callers, or it would follow a nil pointer. */
  ghost predicate Comparable(a: seq<Tag>, b: seq<Tag>) {
    && Keyed(a) && Keyed(b)
    && forall t :: t in a && Text(t.value) != "" && HasKey(b, t.key) ==> FirstWith(b, t.key).value.Some?
  }

  /** Tags of b that replace a tag of a, in a's order. */
  function Changed(a: seq<Tag>, b: seq<Tag>): seq<Tag> {
    if a == [] then []
    else
      var t := a[|a| - 1];
      Changed(a[..|a| - 1], b) + if HasKey(b, t.key) && !SameValue(b, t) then [FirstWith(b, t.key)] else []
  }

  /** Keys of a that b lacks. */
  function Gone(a: seq<Tag>, b: seq<Tag>): seq<Option<string>> {
    if a == [] then []
    else
      var t := a[|a| - 1];
      Gone(a[..|a| - 1], b) + if HasKey(b, t.key) then [] else [t.key]
  }

  /** Tags of b whose key a lacks. */
  function Added(a: seq<Tag>, b: seq<Tag>): seq<Tag> {
    if b == [] then []
    else
      var t := b[|b| - 1];
      Added(a, b[..|b| - 1]) + if HasKey(a, t.key) then [] else [t]
  }

  function Keys(ts: seq<Tag>): seq<Option<string>> {
    seq(|ts|, i requires 0 <= i < |ts| => ts[i].key)
  }

  lemma NextOfFirst(a: seq<Tag>, b: seq<Tag>, i: nat)
    requires i < |a|
    ensures Keys(a[..i + 1]) == Keys(a[..i]) + [a[i].key]
    ensures Changed(a[..i + 1], b) == Changed(a[..i], b)
            + if HasKey(b, a[i].key) && !SameValue(b, a[i]) then [FirstWith(b, a[i].key)] else []
    ensures Gone(a[..i + 1], b) == Gone(a[..i], b) + if HasKey(b, a[i].key) then [] else [a[i].key]
  {
    assert a[..i + 1][..i] == a[..i];
  }

  lemma NextOfSecond(a: seq<Tag>, b: seq<Tag>, j: nat)
    requires j < |b|
    ensures Added(a, b[..j + 1]) == Added(a, b[..j]) + if HasKey(a, b[j].key) then [] else [b[j]]
  {
    assert b[..j + 1][..j] == b[..j];
  }

  lemma KeyedAt(ts: seq<Tag>, i: nat)
    requires Keyed(ts) && i < |ts|
    ensures ts[i].key.Some?
  {
    assert ts[i] in ts;
  }

  ghost predicate NoKeyBefore(ts: seq<Tag>, j: nat, k: Option<string>)
    requires j <= |ts|
  {
    forall i :: 0 <= i < j ==> ts[i].key != k
  }

  lemma NoKey(ts: seq<Tag>, k: Option<string>)
    requires NoKeyBefore(ts, |ts|, k)
    ensures !HasKey(ts, k)
  {
  }

  /** Two entries the loop compares by value: the second is the first match. */
  lemma ValuesComparable(a: seq<Tag>, b: seq<Tag>, i: nat, j: nat)
    requires Comparable(a, b) && i < |a| && j < |b| && a[i].key == b[j].key
    requires NoKeyBefore(b, j, a[i].key)
    ensures HasKey(b, a[i].key) && FirstWith(b, a[i].key) == b[j]
    ensures Text(a[i].value) != "" ==> b[j].value.Some?
  {
    FirstMatch(b, j, a[i].key);
    assert a[i] in a;
  }

  /** The tags of b whose key has not been visited. */
  method AddUnvisited(a: seq<Tag>, b: seq<Tag>, visited: seq<Option<string>>, changed: seq<Tag>)
    returns (addedOrUpdated: seq<Tag>)
    requires visited == Keys(a)
    ensures addedOrUpdated == changed + Added(a, b)
  {
    addedOrUpdated := changed;
    for j := 0 to |b|
      invariant addedOrUpdated == changed + Added(a, b[..j])
    {
      NextOfSecond(a, b, j);
      KeysHas(a, b[j].key);
      if b[j].key !in visited {
        addedOrUpdated := addedOrUpdated + [b[j]];
      }
    }
    assert b[..|b|] == b;
  }

  method ComputeTagsDelta(a: seq<Tag>, b: seq<Tag>)
    returns (addedOrUpdated: seq<Tag>, removed: seq<Option<string>>)
    requires Comparable(a, b)
    ensures addedOrUpdated == Changed(a, b) + Added(a, b)
    ensures removed == Gone(a, b)
  {
    var visited: seq<Option<string>> := [];
    addedOrUpdated, removed := [], [];
    label mainLoop:
    for i := 0 to |a|
      invariant visited == Keys(a[..i])
      invariant addedOrUpdated == Changed(a[..i], b) && removed == Gone(a[..i], b)
    {
      KeyedAt(a, i);
      NextOfFirst(a, b, i);
      visited := visited + [a[i].key];
      for j := 0 to |b|
        invariant NoKeyBefore(b, j, a[i].key)
        invariant addedOrUpdated == Changed(a[..i], b) && removed == Gone(a[..i], b)
      {
        KeyedAt(b, j);
        if EqualStrings(a[i].key, b[j].key) {
          ValuesComparable(a, b, i, j);
          if !EqualStrings(a[i].value, b[j].value) {
            addedOrUpdated := addedOrUpdated + [b[j]];
          }
          continue mainLoop;
        }
      }
      NoKey(b, a[i].key);
      removed := removed + [a[i].key];
    }
    assert a[..|a|] == a;
    addedOrUpdated := AddUnvisited(a, b, visited, addedOrUpdated);
  }

  lemma {:induction false} FirstMatch(ts: seq<Tag>, j: nat, k: Option<string>)
    requires j < |ts| && ts[j].key == k && forall i :: 0 <= i < j ==> ts[i].key != k
    ensures HasKey(ts, k) && FirstWith(ts, k) == ts[j]
  {
    assert ts[j] in ts;
    if j == 0 {
    } else {
      FirstMatch(ts[1..], j - 1, k);
    }
  }

  lemma KeysHas(ts: seq<Tag>, k: Option<string>)
    ensures k in Keys(ts) <==> HasKey(ts, k)
  {
    if k in Keys(ts) {
      var i :| 0 <= i < |Keys(ts)| && Keys(ts)[i] == k;
      assert ts[i] in ts && ts[i].key == k;
    }
    if HasKey(ts, k) {
      var t :| t in ts && t.key == k;
      var i :| 0 <= i < |ts| && ts[i] == t;
      assert Keys(ts)[i] == k;
    }
  }

  method EqualTags(a: seq<Tag>, b: seq<Tag>) returns (equal: bool)
    requires Comparable(a, b)
    ensures equal <==> TagsEqual(a, b)
  {
    var addedOrUpdated, removed := ComputeTagsDelta(a, b);
    equal := |addedOrUpdated| == 0 && |removed| == 0;
  }

  ghost predicate TagsEqual(a: seq<Tag>, b: seq<Tag>) {
    Changed(a, b) + Added(a, b) == [] && Gone(a, b) == []
  }

  // ---- contents of the delta ----

  lemma {:induction false} ChangedContents(a: seq<Tag>, b: seq<Tag>)
    ensures forall t :: t in Changed(a, b) <==>
              HasKey(a, t.key) && HasKey(b, t.key) && t == FirstWith(b, t.key)
              && exists s :: s in a && s.key == t.key && Text(s.value) != Text(t.value)
  {
    if a == [] {
    } else {
      var front, last := a[..|a| - 1], a[|a| - 1];
      ChangedContents(front, b);
      assert a == front + [last];
    }
  }

  lemma {:induction false} GoneContents(a: seq<Tag>, b: seq<Tag>)
    ensures forall k :: k in Gone(a, b) <==> HasKey(a, k) && !HasKey(b, k)
  {
    if a == [] {
    } else {
      var front, last := a[..|a| - 1], a[|a| - 1];
      GoneContents(front, b);
      assert a == front + [last];
      forall k ensures HasKey(a, k) <==> HasKey(front, k) || last.key == k {
      }
    }
  }

  lemma {:induction false} AddedContents(a: seq<Tag>, b: seq<Tag>)
    ensures forall t :: t in Added(a, b) <==> t in b && !HasKey(a, t.key)
  {
    if b == [] {
    } else {
      AddedContents(a, b[..|b| - 1]);
      assert b == b[..|b| - 1] + [b[|b| - 1]];
    }
  }

  lemma EmptyWhenNoMember<T>(s: seq<T>)
    ensures s == [] <==> forall x :: x !in s
  {
    assert |s| == 0 || s[0] in s;
  }

  /** For any two lists: they compare equal exactly when each tag of a has the
      value of b's first tag with that key, and b has no further keys. */
  lemma TagsEqualExactlyWhen(a: seq<Tag>, b: seq<Tag>)
    ensures TagsEqual(a, b) <==> (forall t :: t in a ==> SameValue(b, t)) && (forall t :: t in b ==> HasKey(a, t.key))
  {
    ChangedContents(a, b);
    AddedContents(a, b);
    GoneContents(a, b);
    EmptyWhenNoMember(Changed(a, b));
    EmptyWhenNoMember(Added(a, b));
    EmptyWhenNoMember(Gone(a, b));
    if TagsEqual(a, b) {
      forall t | t in a ensures SameValue(b, t) {
        assert HasKey(a, t.key) && t.key !in Gone(a, b);
        assert FirstWith(b, t.key) !in Changed(a, b);
      }
    }
  }

  // ---- lists without repeated keys ----

  lemma {:induction false} UniqueFirst(ts: seq<Tag>, t: Tag)
    requires KeyUnique(ts) && t in ts
    ensures HasKey(ts, t.key) && FirstWith(ts, t.key) == t
  {
    var i :| 0 <= i < |ts| && ts[i] == t;
    FirstMatch(ts, i, t.key);
  }

  /** On such lists, comparing equal is having the same tags, and so standing
      for the same map. */
  lemma EqualTagsMeansSameTags(a: seq<Tag>, b: seq<Tag>)
    requires NonNil(a) && NonNil(b) && KeyUnique(a) && KeyUnique(b)
    ensures TagsEqual(a, b) <==> multiset(a) == multiset(b)
    ensures TagsEqual(a, b) <==> ToMap(a) == ToMap(b)
  {
    TagsEqualExactlyWhen(a, b);
    MapOfUnique(a);
    MapOfUnique(b);
    forall t | t in b ensures HasKey(b, t.key) && FirstWith(b, t.key) == t {
      UniqueFirst(b, t);
    }
    if TagsEqual(a, b) {
      forall t ensures t in a <==> t in b {
        if t in b {
          var s :| s in a && s.key == t.key;
          assert SameValue(b, s);
        }
        if t in a {
          assert SameValue(b, t) && FirstWith(b, t.key) == t;
        }
      }
      SameMembersSameMultiset(a, b);
      SameMembersSameMap(a, b);
    }
    if multiset(a) == multiset(b) {
      forall t ensures t in a <==> t in b {
        assert t in multiset(a) <==> t in multiset(b);
      }
    }
    if (forall t :: t in a <==> t in b) {
      forall t | t in a ensures SameValue(b, t) {}
    }
  }

  lemma SameMembersSameMap(a: seq<Tag>, b: seq<Tag>)
    requires NonNil(a) && NonNil(b) && KeyUnique(a) && KeyUnique(b)
    requires forall t :: t in a <==> t in b
    ensures ToMap(a) == ToMap(b)
  {
    MapOfUnique(a);
    MapOfUnique(b);
    forall k ensures k in ToMap(a) <==> k in ToMap(b) {
      if k in ToMap(a) { assert Make(k, ToMap(a)[k]) in a; }
      if k in ToMap(b) { assert Make(k, ToMap(b)[k]) in b; }
    }
    forall k | k in ToMap(a) ensures ToMap(a)[k] == ToMap(b)[k] {
      assert Make(k, ToMap(a)[k]) in b;
    }
  }

  lemma {:induction false} CountOfUnique(ts: seq<Tag>, t: Tag)
    requires KeyUnique(ts)
    ensures multiset(ts)[t] == if t in ts then 1 else 0
  {
    if ts == [] {
    } else {
      var front, last := ts[..|ts| - 1], ts[|ts| - 1];
      assert ts == front + [last];
      CountOfUnique(front, t);
    }
  }

  lemma SameMembersSameMultiset(a: seq<Tag>, b: seq<Tag>)
    requires KeyUnique(a) && KeyUnique(b) && forall t :: t in a <==> t in b
    ensures multiset(a) == multiset(b)
  {
    forall t ensures multiset(a)[t] == multiset(b)[t] {
      CountOfUnique(a, t);
      CountOfUnique(b, t);
    }
  }

  /** So on such lists equality is reflexive, symmetric and transitive. */
  lemma EqualTagsIsAnEquivalence(a: seq<Tag>, b: seq<Tag>, c: seq<Tag>)
    requires NonNil(a) && NonNil(b) && NonNil(c) && KeyUnique(a) && KeyUnique(b) && KeyUnique(c)
    ensures TagsEqual(a, a)
    ensures TagsEqual(a, b) ==> TagsEqual(b, a)
    ensures TagsEqual(a, b) && TagsEqual(b, c) ==> TagsEqual(a, c)
  {
    EqualTagsMeansSameTags(a, a);
    EqualTagsMeansSameTags(a, b);
    EqualTagsMeansSameTags(b, a);
    EqualTagsMeansSameTags(b, c);
    EqualTagsMeansSameTags(a, c);
  }

  /** With a repeated key it is neither a permutation test nor symmetric, even
      for lists of one length. */
  lemma RepeatedKeysBreakEquality()
    ensures var a, b := [Make("k", "1"), Make("k", "1")], [Make("k", "1"), Make("k", "2")];
            TagsEqual(a, b) && !TagsEqual(b, a) && multiset(a) != multiset(b)
  {
    var one, two := Make("k", "1"), Make("k", "2");
    var a, b := [one, one], [one, two];
    TagsEqualExactlyWhen(a, b);
    TagsEqualExactlyWhen(b, a);
    FirstMatch(a, 0, Some("k"));
    FirstMatch(b, 0, Some("k"));
    assert one in a && one in b && two in b;
    assert two !in multiset(a) && two in multiset(b);
  }

  // ---- when it is a permutation test ----

  lemma SameKeys(ts: seq<Tag>)
    ensures |Keys(ts)| == |ts| && (KeyUnique(ts) <==> Distinct(Keys(ts)))
    ensures forall k :: k in Keys(ts) <==> HasKey(ts, k)
  {
    forall k ensures k in Keys(ts) <==> HasKey(ts, k) {
      KeysHas(ts, k);
    }
    if Distinct(Keys(ts)) {
      forall i, j | 0 <= i < j < |ts| ensures ts[i].key != ts[j].key {
        assert Keys(ts)[i] != Keys(ts)[j];
      }
    }
  }

  /** A list as long as a key-unique one, with all of its keys, is key-unique. */
  lemma UniqueByCount(a: seq<Tag>, b: seq<Tag>)
    requires KeyUnique(a) && |b| == |a| && forall t :: t in a ==> HasKey(b, t.key)
    ensures KeyUnique(b)
  {
    SameKeys(a);
    SameKeys(b);
    DistinctCount(Keys(a));
    ElementsBound(Keys(b));
    forall k | k in Elements(Keys(a)) ensures k in Elements(Keys(b)) {
      var t :| t in a && t.key == k;
    }
    SubsetSize(Elements(Keys(a)), Elements(Keys(b)));
  }

  lemma SubsetSize<T>(s: set<T>, t: set<T>)
    requires s <= t
    ensures |s| <= |t|
  {
    assert t == s + (t - s);
  }

  lemma PermutationKeepsKeys(a: seq<Tag>, b: seq<Tag>)
    requires KeyUnique(a) && multiset(a) == multiset(b)
    ensures KeyUnique(b)
  {
    assert |multiset(a)| == |a| && |multiset(b)| == |b|;
    forall t | t in a ensures HasKey(b, t.key) {
      assert t in multiset(b);
      assert t in b;
    }
    UniqueByCount(a, b);
  }

  /** For lists of one length it is enough that one of them is key-unique. */
  lemma PermutationTest(a: seq<Tag>, b: seq<Tag>)
    requires NonNil(a) && NonNil(b) && |a| == |b| && (KeyUnique(a) || KeyUnique(b))
    ensures TagsEqual(a, b) <==> multiset(a) == multiset(b)
  {
    TagsEqualExactlyWhen(a, b);
    if TagsEqual(a, b) {
      if KeyUnique(a) {
        UniqueByCount(a, b);
      } else {
        UniqueByCount(b, a);
      }
      EqualTagsMeansSameTags(a, b);
    }
    if multiset(a) == multiset(b) {
      if KeyUnique(a) {
        PermutationKeepsKeys(a, b);
      } else {
        PermutationKeepsKeys(b, a);
      }
      EqualTagsMeansSameTags(a, b);
    }
  }

  lemma {:induction false} FirstIndex(ts: seq<Tag>, k: Option<string>) returns (p: nat)
    requires HasKey(ts, k)
    ensures p < |ts| && ts[p].key == k && FirstWith(ts, k) == ts[p]
    ensures forall i :: 0 <= i < p ==> ts[i].key != k
  {
    if ts[0].key == k {
      p := 0;
    } else {
      p := FirstIndex(ts[1..], k);
      forall i | 0 <= i < p + 1 ensures ts[i].key != k {
        assert i == 0 || ts[i] == ts[1..][i - 1];
      }
      p := p + 1;
    }
  }

  /** Changing the value of a tag that is not the first of its key changes no
      first tag. */
  lemma LaterChangeIsUnseen(a: seq<Tag>, i: nat, j: nat, value: string, k: Option<string>)
    requires i < j < |a| && a[i].key == a[j].key && HasKey(a, k)
    ensures HasKey(a[j := Tag(a[j].key, Some(value))], k)
    ensures FirstWith(a[j := Tag(a[j].key, Some(value))], k) == FirstWith(a, k)
  {
    var b := a[j := Tag(a[j].key, Some(value))];
    var p := FirstIndex(a, k);
    assert p != j;
    assert b[p] == a[p];
    FirstMatch(b, p, k);
  }

  lemma OneChanged<T>(s: seq<T>, j: nat, x: T)
    requires j < |s| && x != s[j]
    ensures multiset(s) != multiset(s[j := x])
    ensures forall y :: y in s[j := x] ==> y in s || y == x
  {
    assert multiset(s[j := x]) == multiset(s) - multiset{s[j]} + multiset{x};
    assert multiset(s[j := x])[x] == multiset(s)[x] + 1;
  }

  /** A repeated key hides a tag: a list that compares equal with itself also
      compares equal with one in which that tag has another value. */
  lemma ChangeIsHidden(a: seq<Tag>, i: nat, j: nat, value: string)
    requires TagsEqual(a, a) && i < j < |a| && a[i].key == a[j].key
    ensures TagsEqual(a, a[j := Tag(a[j].key, Some(value))])
  {
    var b := a[j := Tag(a[j].key, Some(value))];
    TagsEqualExactlyWhen(a, a);
    forall s | s in a ensures SameValue(b, s) {
      LaterChangeIsUnseen(a, i, j, value, s.key);
    }
    forall s | s in b ensures HasKey(a, s.key) {
      var k :| 0 <= k < |b| && b[k] == s;
      assert a[k] in a;
    }
    TagsEqualExactlyWhen(a, b);
  }

  /** Compared the other way round it shows. */
  lemma ChangeShows(a: seq<Tag>, j: nat, value: string)
    requires TagsEqual(a, a) && j < |a| && value != Text(a[j].value)
    ensures !TagsEqual(a[j := Tag(a[j].key, Some(value))], a)
  {
    var t := Tag(a[j].key, Some(value));
    var b := a[j := t];
    TagsEqualExactlyWhen(a, a);
    TagsEqualExactlyWhen(b, a);
    assert a[j] in a && b[j] in b;
    assert !SameValue(a, t);
  }

  lemma HiddenChange(a: seq<Tag>, i: nat, j: nat) returns (b: seq<Tag>)
    requires NonNil(a) && TagsEqual(a, a) && i < j < |a| && a[i].key == a[j].key
    ensures NonNil(b) && |b| == |a| && TagsEqual(a, b) && multiset(a) != multiset(b) && !TagsEqual(b, a)
  {
    assert a[j] in a;
    var value := a[j].value.value + "x";
    assert |value| == |a[j].value.value| + 1;
    b := a[j := Tag(a[j].key, Some(value))];
    OneChanged(a, j, Tag(a[j].key, Some(value)));
    ChangeIsHidden(a, i, j, value);
    ChangeShows(a, j, value);
  }

  /** The list in which every tag has the value of the first with its key. */
  function Firsts(a: seq<Tag>): seq<Tag> {
    seq(|a|, i requires 0 <= i < |a| => assert a[i] in a; FirstWith(a, a[i].key))
  }

  lemma FirstsOf(a: seq<Tag>)
    requires NonNil(a)
    ensures NonNil(Firsts(a)) && |Firsts(a)| == |a| && TagsEqual(Firsts(a), a)
    ensures !TagsEqual(a, a) ==> !TagsEqual(a, Firsts(a))
  {
    var b := Firsts(a);
    TagsEqualExactlyWhen(b, a);
    TagsEqualExactlyWhen(a, a);
    TagsEqualExactlyWhen(a, b);
    forall t | t in b ensures t in a && SameValue(a, t) {
      var i :| 0 <= i < |b| && b[i] == t;
      assert a[i] in a;
    }
    forall t | t in a ensures HasKey(b, t.key) && FirstWith(b, t.key) == FirstWith(a, t.key) {
      var i :| 0 <= i < |a| && a[i] == t;
      assert b[i] in b && b[i].key == t.key;
      var p := FirstIndex(b, t.key);
      assert a[p] in a;
    }
  }

  ghost predicate TestsPermutations(a: seq<Tag>) {
    forall b :: NonNil(b) && |b| == |a| ==> (TagsEqual(a, b) <==> multiset(a) == multiset(b))
  }

  ghost predicate ComparesSymmetrically(a: seq<Tag>) {
    forall b :: NonNil(b) && |b| == |a| ==> (TagsEqual(a, b) <==> TagsEqual(b, a))
  }

  /** Among lists of its length, comparing with `a` tests for a permutation, and
      gives the same answer either way round, exactly when `a` repeats no key. */
  lemma PermutationTestExactlyWhenUnique(a: seq<Tag>)
    requires NonNil(a)
    ensures TestsPermutations(a) <==> KeyUnique(a)
    ensures ComparesSymmetrically(a) <==> KeyUnique(a)
  {
    if KeyUnique(a) {
      forall b | NonNil(b) && |b| == |a|
        ensures TagsEqual(a, b) <==> multiset(a) == multiset(b)
        ensures TagsEqual(a, b) <==> TagsEqual(b, a)
      {
        PermutationTest(a, b);
        PermutationTest(b, a);
      }
    } else {
      var i, j :| 0 <= i < j < |a| && a[i].key == a[j].key;
      if TagsEqual(a, a) {
        var b := HiddenChange(a, i, j);
      } else {
        FirstsOf(a);
        assert multiset(a) == multiset(a);
      }
    }
  }

  // ---- nil values ----

  /** The list with nil values made empty. */
  ghost function Filled(ts: seq<Tag>): seq<Tag> {
    seq(|ts|, i requires 0 <= i < |ts| => Tag(ts[i].key, Some(Text(ts[i].value))))
  }

  lemma FilledFirst(ts: seq<Tag>, k: Option<string>)
    ensures HasKey(Filled(ts), k) <==> HasKey(ts, k)
    ensures HasKey(ts, k) ==> FirstWith(Filled(ts), k).value == Some(Text(FirstWith(ts, k).value))
  {
    var f := Filled(ts);
    if HasKey(f, k) {
      var i: nat := FirstIndex(f, k);
      assert ts[i] in ts;
    }
    if HasKey(ts, k) {
      var p := FirstIndex(ts, k);
      assert f[p] in f;
      FirstMatch(f, p, k);
    }
  }

  lemma FilledSameValue(ts: seq<Tag>, t: Tag)
    ensures SameValue(ts, t) <==> SameValue(Filled(ts), Tag(t.key, Some(Text(t.value))))
  {
    FilledFirst(ts, t.key);
  }

  lemma FilledUnique(ts: seq<Tag>)
    ensures KeyUnique(Filled(ts)) <==> KeyUnique(ts)
  {
    assert forall i :: 0 <= i < |ts| ==> Filled(ts)[i].key == ts[i].key;
  }

  /** Nil and empty values are the same to the comparison. */
  lemma NilCountsAsEmpty(a: seq<Tag>, b: seq<Tag>)
    requires Keyed(a) && Keyed(b)
    ensures TagsEqual(a, b) <==> TagsEqual(Filled(a), Filled(b))
    ensures NonNil(Filled(a)) && (KeyUnique(Filled(a)) <==> KeyUnique(a))
  {
    TagsEqualExactlyWhen(a, b);
    TagsEqualExactlyWhen(Filled(a), Filled(b));
    FilledTags(a);
    FilledTags(b);
    FilledUnique(a);
    forall k ensures HasKey(Filled(a), k) <==> HasKey(a, k) {
      FilledFirst(a, k);
    }
    forall t | t in a ensures SameValue(b, t) <==> SameValue(Filled(b), Tag(t.key, Some(Text(t.value)))) {
      FilledSameValue(b, t);
    }
  }

  lemma FilledTags(ts: seq<Tag>)
    requires Keyed(ts)
    ensures NonNil(Filled(ts))
    ensures forall t :: t in ts ==> Tag(t.key, Some(Text(t.value))) in Filled(ts)
    ensures forall f :: f in Filled(ts) ==> exists t :: t in ts && f == Tag(t.key, Some(Text(t.value)))
  {
    var fs := Filled(ts);
    forall t | t in ts ensures Tag(t.key, Some(Text(t.value))) in fs {
      var i :| 0 <= i < |ts| && ts[i] == t;
      assert fs[i] in fs;
    }
    forall f | f in fs ensures f.key.Some? && exists t :: t in ts && f == Tag(t.key, Some(Text(t.value))) {
      var i :| 0 <= i < |fs| && fs[i] == f;
      assert ts[i] in ts;
    }
  }

  lemma FilledIsSame(ts: seq<Tag>)
    requires NonNil(ts)
    ensures Filled(ts) == ts
  {
    forall i | 0 <= i < |ts| ensures Filled(ts)[i] == ts[i] {
      assert ts[i] in ts;
    }
  }

  /** The resource comparison: lengths first, then the lists. If one of them
      repeats no key, it tests for a permutation, nil values being empty. */
  method CompareTags(a: seq<Tag>, b: seq<Tag>) returns (differ: bool)
    requires Comparable(a, b)
    ensures differ <==> |a| != |b| || !TagsEqual(a, b)
    ensures KeyUnique(a) || KeyUnique(b) ==> (differ <==> multiset(Filled(a)) != multiset(Filled(b)))
  {
    ghost var fa, fb := Filled(a), Filled(b);
    assert |fa| == |a| && |fb| == |b|;
    assert |multiset(fa)| == |fa| && |multiset(fb)| == |fb|;
    NilCountsAsEmpty(a, b);
    NilCountsAsEmpty(b, a);
    if |a| != |b| {
      return true;
    }
    if KeyUnique(a) || KeyUnique(b) {
      PermutationTest(fa, fb);
    }
    if |a| > 0 {
      var equal := EqualTags(a, b);
      differ := !equal;
    } else {
      assert a == [] && b == [];
      differ := false;
    }
  }

  /** So for lists without nils or repeated keys it says whether they stand for
      different maps. */
  lemma ComparingComparesMaps(a: seq<Tag>, b: seq<Tag>)
    requires NonNil(a) && NonNil(b) && KeyUnique(a) && KeyUnique(b)
    ensures Comparable(a, b)
    ensures multiset(Filled(a)) == multiset(Filled(b)) <==> ToMap(a) == ToMap(b)
  {
    FilledIsSame(a);
    FilledIsSame(b);
    EqualTagsMeansSameTags(a, b);
  }

  // ---- diff and patch ----

  function Patch(m: TagMap, addedOrUpdated: seq<Tag>, removed: seq<Option<string>>): TagMap {
    (map k | k in m && Some(k) !in removed :: m[k]) + ToMap(addedOrUpdated)
  }

  lemma DeltaUnique(a: seq<Tag>, b: seq<Tag>)
    requires NonNil(a) && NonNil(b) && KeyUnique(a) && KeyUnique(b)
    ensures NonNil(Changed(a, b) + Added(a, b)) && KeyUnique(Changed(a, b) + Added(a, b))
  {
    ChangedContents(a, b);
    AddedContents(a, b);
    ChangedUnique(a, b);
    AddedUnique(a, b);
    forall i, j | 0 <= i < |Changed(a, b)| && 0 <= j < |Added(a, b)|
      ensures Changed(a, b)[i].key != Added(a, b)[j].key
    {
      assert Changed(a, b)[i] in Changed(a, b) && Added(a, b)[j] in Added(a, b);
    }
  }

  lemma {:induction false} ChangedUnique(a: seq<Tag>, b: seq<Tag>)
    requires KeyUnique(a)
    ensures KeyUnique(Changed(a, b))
  {
    if a == [] {
    } else {
      var front, last := a[..|a| - 1], a[|a| - 1];
      ChangedUnique(front, b);
      ChangedContents(front, b);
      forall t | t in Changed(front, b) ensures t.key != last.key {
        var s :| s in front && s.key == t.key;
      }
    }
  }

  lemma {:induction false} AddedUnique(a: seq<Tag>, b: seq<Tag>)
    requires KeyUnique(b)
    ensures KeyUnique(Added(a, b))
  {
    if b == [] {
    } else {
      var front, last := b[..|b| - 1], b[|b| - 1];
      AddedUnique(a, front);
      AddedContents(a, front);
      forall t | t in Added(a, front) ensures t.key != last.key {
      }
    }
  }

  lemma KeyInMap(ts: seq<Tag>, k: string)
    requires NonNil(ts) && KeyUnique(ts)
    ensures HasKey(ts, Some(k)) <==> k in ToMap(ts)
    ensures k in ToMap(ts) ==> Make(k, ToMap(ts)[k]) in ts && FirstWith(ts, Some(k)) == Make(k, ToMap(ts)[k])
  {
    MapOfUnique(ts);
    if k in ToMap(ts) {
      UniqueFirst(ts, Make(k, ToMap(ts)[k]));
    }
  }

  lemma PatchAt(a: seq<Tag>, b: seq<Tag>, k: string)
    requires NonNil(a) && NonNil(b) && KeyUnique(a) && KeyUnique(b)
    ensures var patched := Patch(ToMap(a), Changed(a, b) + Added(a, b), Gone(a, b));
            (k in patched <==> k in ToMap(b)) && (k in patched ==> patched[k] == ToMap(b)[k])
  {
    var d := Changed(a, b) + Added(a, b);
    DeltaUnique(a, b);
    ChangedContents(a, b);
    AddedContents(a, b);
    GoneContents(a, b);
    KeyInMap(a, k);
    KeyInMap(b, k);
    KeyInMap(d, k);
    if k in ToMap(b) {
      var t := Make(k, ToMap(b)[k]);
      if k in ToMap(a) && ToMap(a)[k] != ToMap(b)[k] {
        assert Make(k, ToMap(a)[k]) in a;
        assert t in Changed(a, b);
      } else if k !in ToMap(a) {
        assert t in Added(a, b);
      }
    }
    if k in ToMap(d) {
      assert Make(k, ToMap(d)[k]) in d && FirstWith(b, Some(k)) in b;
      MapOfUnique(b);
    }
  }

  /** Applying the difference of two lists to the map of the first gives the map
      of the second. */
  lemma PatchReaches(a: seq<Tag>, b: seq<Tag>)
    requires NonNil(a) && NonNil(b) && KeyUnique(a) && KeyUnique(b)
    ensures Patch(ToMap(a), Changed(a, b) + Added(a, b), Gone(a, b)) == ToMap(b)
  {
    var patched := Patch(ToMap(a), Changed(a, b) + Added(a, b), Gone(a, b));
    forall k ensures (k in patched <==> k in ToMap(b)) && (k in patched ==> patched[k] == ToMap(b)[k]) {
      PatchAt(a, b, k);
    }
  }
}
