// Shared vocabulary: optional values, the ways a backend call can fail, and
// the list helpers that several hooks use.
module Base {

  datatype Option<+T> = None | Some(value: T)

  /** How a call ends when it does not succeed. `Injected` is any failure the
      backend or the network may produce at will; it leaves the backend as it
      was. The other cases are refusals the backend gives for a reason. */
  datatype Fault =
    | Injected
    | NotFound        // the object itself does not exist
    | NoSuchEntity    // the thing to remove is not there
    | DeleteConflict  // the object still has dependants
    | LimitExceeded   // a quota is already used up
    | BadEncoding     // a document is not valid percent-encoding
    | InvalidInput    // the request itself is malformed

  type Err = Option<Fault>

  /** An operation ends in `Injected` exactly when one of its calls was made to
      fail; `before` and `after` count the injected failures. So an operation
      none of whose calls fail either succeeds or is refused for a reason. */
  ghost predicate Counted(err: Err, before: nat, after: nat) {
    after == before + if err == Some(Injected) then 1 else 0
  }

  // ---- lists ----

  ghost predicate Distinct<T>(s: seq<T>) {
    forall i, j :: 0 <= i < j < |s| ==> s[i] != s[j]
  }

  ghost function Elements<T>(s: seq<T>): set<T> {
    set x | x in s
  }

  /** Entries of `xs` that do not occur in `ys`, in their order in `xs`. */
  function Without<T(==)>(xs: seq<T>, ys: seq<T>): seq<T> {
    if xs == [] then []
    else Without(xs[..|xs| - 1], ys) + if xs[|xs| - 1] in ys then [] else [xs[|xs| - 1]]
  }

  lemma {:induction false} WithoutMembers<T>(xs: seq<T>, ys: seq<T>)
    ensures forall x :: x in Without(xs, ys) <==> x in xs && x !in ys
  {
    if xs == [] {
    } else {
      WithoutMembers(xs[..|xs| - 1], ys);
      assert xs == xs[..|xs| - 1] + [xs[|xs| - 1]];
    }
  }

  lemma {:induction false} WithoutSource<T>(xs: seq<T>, ys: seq<T>, i: nat) returns (p: nat)
    requires i < |Without(xs, ys)|
    ensures p < |xs| && xs[p] == Without(xs, ys)[i]
  {
    var front := xs[..|xs| - 1];
    if i < |Without(front, ys)| {
      p := WithoutSource(front, ys, i);
    } else {
      p := |front|;
    }
  }

  /** What is left is in the order it had. */
  lemma {:induction false} WithoutInOrder<T>(xs: seq<T>, ys: seq<T>, i: nat, j: nat) returns (p: nat, q: nat)
    requires i < j < |Without(xs, ys)|
    ensures p < q < |xs| && xs[p] == Without(xs, ys)[i] && xs[q] == Without(xs, ys)[j]
  {
    var front := xs[..|xs| - 1];
    if j < |Without(front, ys)| {
      p, q := WithoutInOrder(front, ys, i, j);
    } else {
      p := WithoutSource(front, ys, i);
      q := |front|;
    }
  }

  lemma {:induction false} WithoutDistinct<T>(xs: seq<T>, ys: seq<T>)
    requires Distinct(xs)
    ensures Distinct(Without(xs, ys))
  {
    if xs == [] {
    } else {
      WithoutDistinct(xs[..|xs| - 1], ys);
      WithoutMembers(xs[..|xs| - 1], ys);
    }
  }

  /** One more entry scanned by a filtering loop. */
  lemma WithoutSnoc<T>(xs: seq<T>, ys: seq<T>, i: nat)
    requires i < |xs|
    ensures Without(xs[..i + 1], ys) == Without(xs[..i], ys) + if xs[i] in ys then [] else [xs[i]]
  {
    assert xs[..i + 1][..i] == xs[..i];
  }

  lemma {:induction false} DistinctCount<T>(s: seq<T>)
    requires Distinct(s)
    ensures |Elements(s)| == |s|
  {
    if s == [] {
    } else {
      var front, last := s[..|s| - 1], s[|s| - 1];
      DistinctCount(front);
      assert s == front + [last];
      assert Elements(s) == Elements(front) + {last};
    }
  }

  lemma {:induction false} ElementsBound<T>(s: seq<T>)
    ensures |Elements(s)| <= |s|
    ensures |Elements(s)| == |s| ==> Distinct(s)
  {
    if s == [] {
    } else {
      var front, last := s[..|s| - 1], s[|s| - 1];
      ElementsBound(front);
      assert s == front + [last];
      assert Elements(s) == Elements(front) + {last};
    }
  }

  ghost function Sum(ks: seq<nat>): nat {
    if ks == [] then 0 else Sum(ks[..|ks| - 1]) + ks[|ks| - 1]
  }

  /** Entry by entry one less. */
  lemma {:induction false} Telescope(d: seq<int>, k: nat)
    requires k < |d| && forall i :: 0 <= i < |d| - 1 ==> d[i] == d[i + 1] + 1
    ensures d[k] + k == d[0]
    decreases k
  {
    if k == 0 {
    } else {
      Telescope(d, k - 1);
    }
  }

  /** A delta is the set of fields found to differ. */
  function AddIf<F(!new)>(delta: set<F>, f: F, differs: bool): (r: set<F>)
    ensures forall g :: g in r <==> g in delta || (differs && g == f)
  {
    if differs then delta + {f} else delta
  }

  /** On how many values two sets disagree. */
  ghost function Distance<T>(s: set<T>, t: set<T>): nat {
    |s - t| + |t - s|
  }

  /** Two maps agree on a key: neither has it, or both with the same value. */
  predicate SameAt<K, V(==)>(a: map<K, V>, b: map<K, V>, k: K) {
    if k in a then k in b && a[k] == b[k] else k !in b
  }

  lemma SameEverywhere<K(!new), V>(a: map<K, V>, b: map<K, V>)
    requires forall k :: SameAt(a, b, k)
    ensures a == b
  {
    forall k ensures k in a <==> k in b {
      assert SameAt(a, b, k);
    }
    forall k | k in a ensures a[k] == b[k] {
      assert SameAt(a, b, k);
    }
  }

  // ---- paginated listings ----

  ghost function Flatten<T>(pages: seq<seq<T>>): seq<T> {
    if pages == [] then [] else Flatten(pages[..|pages| - 1]) + pages[|pages| - 1]
  }

  lemma FlattenSnoc<T>(pages: seq<seq<T>>, i: nat)
    requires i < |pages|
    ensures Flatten(pages[..i + 1]) == Flatten(pages[..i]) + pages[i]
  {
    assert pages[..i + 1][..i] == pages[..i];
  }

  lemma {:induction false} FlattenPrefix<T>(pages: seq<seq<T>>, k: nat)
    requires k <= |pages|
    ensures Flatten(pages[..k]) <= Flatten(pages)
    decreases |pages| - k
  {
    if k == |pages| {
      assert pages[..k] == pages;
    } else {
      FlattenSnoc(pages, k);
      FlattenPrefix(pages, k + 1);
    }
  }

  function OnePage<T>(s: seq<T>): (pages: seq<seq<T>>)
    ensures |pages| == 1 && Flatten(pages) == s
  {
    assert Flatten([s]) == Flatten([]) + s;
    [s]
  }

  /** What a listing loop has collected when it ends: everything, or the pages
      before the one that failed. */
  ghost predicate ReadSoFar<T>(read: seq<T>, pages: seq<seq<T>>, complete: bool) {
    exists k :: 0 <= k <= |pages| && (complete <==> k == |pages|) && read == Flatten(pages[..k])
  }

  /** The pages list every member of `s` once, in some order and some split. */
  ghost predicate Lists<T>(pages: seq<seq<T>>, s: set<T>) {
    && |pages| >= 1
    && Distinct(Flatten(pages))
    && Elements(Flatten(pages)) == s
  }

  /** `ps` is some enumeration of the entries of `m`. */
  ghost predicate Enumerates<K, V>(ps: seq<(K, V)>, m: map<K, V>) {
    && (forall i, j :: 0 <= i < j < |ps| ==> ps[i].0 != ps[j].0)
    && (forall p :: p in ps ==> p.0 in m && m[p.0] == p.1)
    && (forall k :: k in m ==> (k, m[k]) in ps)
  }
}
