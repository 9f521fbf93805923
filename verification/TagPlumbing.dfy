// What the manager does to a resource's tags around a sync: adding controller
// defaults, filtering out system tags, and mirroring tags owned by AWS.
module TagPlumbing {
  import opened Base
  import opened Tags

  /** The runtime library's merge: on a shared key the existing tag wins. */
  function Merge(existing: TagMap, defaults: TagMap): TagMap {
    defaults + existing
  }

  predicate IsSystem(k: string, systemTags: seq<string>) {
    IsAws(k) || k in systemTags
  }

  /** Deletes, one by one and in any order, the keys that are not the user's. */
  method IgnoreSystemTags(tags: TagMap, systemTags: seq<string>) returns (kept: TagMap)
    ensures kept == map k | k in tags && !IsSystem(k, systemTags) :: tags[k]
  {
    kept := tags;
    var todo := tags.Keys;
    while todo != {}
      invariant todo <= tags.Keys
      invariant kept == map k | k in tags && (k in todo || !IsSystem(k, systemTags)) :: tags[k]
    {
      var k :| k in todo;
      if IsSystem(k, systemTags) {
        kept := kept - {k};
      }
      todo := todo - {k};
    }
  }

  /** Copies, one by one and in any order, the AWS-owned entries of b into a. */
  method SyncAWSTags(a: TagMap, b: TagMap) returns (merged: TagMap)
    ensures merged == a + (map k | k in b && IsAws(k) :: b[k])
  {
    merged := a;
    var todo := b.Keys;
    while todo != {}
      invariant todo <= b.Keys
      invariant merged == a + (map k | k in b && IsAws(k) && k !in todo :: b[k])
    {
      var k :| k in todo;
      if IsAws(k) {
        merged := merged[k := b[k]];
      }
      todo := todo - {k};
    }
  }

  ghost predicate Ensured(ts: seq<Tag>, defaults: TagMap, result: seq<Tag>) {
    FromMap(Merge(ToMap(ts), defaults), KeyOrder(ts), result)
  }

  ghost predicate Filtered(ts: seq<Tag>, systemTags: seq<string>, result: seq<Tag>) {
    FromMap(map k | k in ToMap(ts) && !IsSystem(k, systemTags) :: ToMap(ts)[k], KeyOrder(ts), result)
  }

  function AwsPart(m: TagMap): TagMap {
    map k | k in m && IsAws(k) :: m[k]
  }

  ghost predicate Mirrored(desired: seq<Tag>, latest: seq<Tag>, result: seq<Tag>) {
    FromMap(ToMap(desired) + AwsPart(ToMap(latest)), KeyOrder(desired), result)
  }

  method EnsureTags(ts: seq<Tag>, defaults: TagMap) returns (result: seq<Tag>)
    ensures Ensured(ts, defaults, result)
  {
    var m, order := ConvertToOrderedACKTags(ts);
    result := FromACKTags(Merge(m, defaults), order);
  }

  method FilterSystemTags(ts: seq<Tag>, systemTags: seq<string>) returns (result: seq<Tag>)
    ensures Filtered(ts, systemTags, result)
  {
    var m, order := ConvertToOrderedACKTags(ts);
    var kept := IgnoreSystemTags(m, systemTags);
    result := FromACKTags(kept, order);
  }

  method MirrorAWSTags(desired: seq<Tag>, latest: seq<Tag>) returns (result: seq<Tag>)
    ensures Mirrored(desired, latest, result)
  {
    var desiredTags, order := ConvertToOrderedACKTags(desired);
    var latestTags, _ := ConvertToOrderedACKTags(latest);
    var merged := SyncAWSTags(desiredTags, latestTags);
    result := FromACKTags(merged, order);
  }

  lemma ContentsOf(ts: seq<Tag>, m: TagMap)
    requires TagsOf(ts, m)
    ensures forall t :: t in ts <==> t.key.Some? && t.key.value in m && t == Make(t.key.value, m[t.key.value])
  {
    MapOfUnique(ts);
  }

  /** What adding defaults gives: every tag the list stands for, in order, and then
      a default for each key it lacks; nothing else. */
  lemma EnsuredContents(ts: seq<Tag>, defaults: TagMap, result: seq<Tag>)
    requires Ensured(ts, defaults, result)
    ensures forall k :: k in ToMap(ts) ==> Make(k, ToMap(ts)[k]) in result
    ensures forall k :: k in defaults && k !in ToMap(ts) ==> Make(k, defaults[k]) in result
    ensures KeyUnique(result) && Normal(ts) <= result
    ensures forall t :: t in result ==> t.key.Some? && (t.key.value in ToMap(ts) || t.key.value in defaults)
  {
    var rest := EnsuredShape(ts, defaults, result);
    FromMapIsTagsOf(Merge(ToMap(ts), defaults), KeyOrder(ts), result);
    ContentsOf(result, Merge(ToMap(ts), defaults));
  }

  /** What filtering leaves: the tags the list stands for whose key neither begins
      with the four characters "aws:" nor is listed. */
  lemma FilteredContents(ts: seq<Tag>, systemTags: seq<string>, result: seq<Tag>)
    requires Filtered(ts, systemTags, result)
    ensures KeyUnique(result)
    ensures forall t :: t in result <==>
              && t.key.Some? && t.key.value in ToMap(ts) && t == Make(t.key.value, ToMap(ts)[t.key.value])
              && !(|t.key.value| >= 4 && t.key.value[..4] == "aws:") && t.key.value !in systemTags
  {
    AwsKeys();
    var kept := map k | k in ToMap(ts) && !IsSystem(k, systemTags) :: ToMap(ts)[k];
    FromMapIsTagsOf(kept, KeyOrder(ts), result);
    ContentsOf(result, kept);
  }

  /** What mirroring gives: the latest value of every key that begins with "aws:"
      and that the resource has, the desired value of all others; nothing else. */
  lemma MirroredContents(desired: seq<Tag>, latest: seq<Tag>, result: seq<Tag>)
    requires Mirrored(desired, latest, result)
    ensures KeyUnique(result)
    ensures forall k :: k in ToMap(latest) && |k| >= 4 && k[..4] == "aws:" ==> Make(k, ToMap(latest)[k]) in result
    ensures forall k :: k in ToMap(desired) && !(k in ToMap(latest) && |k| >= 4 && k[..4] == "aws:") ==>
              Make(k, ToMap(desired)[k]) in result
    ensures forall t :: t in result ==>
              t.key.Some? && (t.key.value in ToMap(desired)
                              || (t.key.value in ToMap(latest) && |t.key.value| >= 4 && t.key.value[..4] == "aws:"))
  {
    AwsKeys();
    var m := ToMap(desired) + AwsPart(ToMap(latest));
    FromMapIsTagsOf(m, KeyOrder(desired), result);
    ContentsOf(result, m);
  }

  // ---- filtering a list directly ----

  /** The tags whose key passes a test, in order. */
  function Select(ts: seq<Tag>, keep: string -> bool): seq<Tag> {
    if ts == [] then []
    else
      var t := ts[|ts| - 1];
      Select(ts[..|ts| - 1], keep) + if t.key.Some? && keep(t.key.value) then [t] else []
  }

  lemma {:induction false} SelectMembers(ts: seq<Tag>, keep: string -> bool)
    ensures forall t :: t in Select(ts, keep) <==> t in ts && t.key.Some? && keep(t.key.value)
  {
    if ts == [] {
    } else {
      SelectMembers(ts[..|ts| - 1], keep);
      assert ts == ts[..|ts| - 1] + [ts[|ts| - 1]];
    }
  }

  lemma {:induction false} SelectAppend(a: seq<Tag>, b: seq<Tag>, keep: string -> bool)
    ensures Select(a + b, keep) == Select(a, keep) + Select(b, keep)
  {
    if b == [] {
      assert a + b == a;
    } else {
      SelectAppend(a, b[..|b| - 1], keep);
      assert (a + b)[..|a + b| - 1] == a + b[..|b| - 1];
    }
  }

  lemma {:induction false} SelectNone(ts: seq<Tag>, keep: string -> bool)
    requires forall t :: t in ts && t.key.Some? ==> !keep(t.key.value)
    ensures Select(ts, keep) == []
  {
    if ts == [] {
    } else {
      assert ts[|ts| - 1] in ts;
      SelectNone(ts[..|ts| - 1], keep);
    }
  }

  /** Restricting the map and restricting the list come to the same. */
  lemma {:induction false} SelectListed(tags: TagMap, order: seq<string>, keep: string -> bool)
    ensures Select(Listed(tags, order), keep) == Listed(KeepKeys(tags, keep), order)
  {
    if order == [] {
    } else {
      var front, k := order[..|order| - 1], order[|order| - 1];
      SelectListed(tags, front, keep);
      var last := if k in tags && k !in front then [Make(k, tags[k])] else [];
      SelectAppend(Listed(tags, front), last, keep);
      if last != [] {
        assert last[..0] == [] && last == [Make(k, tags[k])];
      }
    }
  }

  /** Listing along the keys of a longer list whose extra keys the map lacks. */
  lemma {:induction false} ListedExtraKeys(tags: TagMap, a: seq<string>, b: seq<string>)
    requires forall k :: k in b ==> k !in tags
    ensures Listed(tags, a + b) == Listed(tags, a)
  {
    if b == [] {
      assert a + b == a;
    } else {
      ListedExtraKeys(tags, a, b[..|b| - 1]);
      assert (a + b)[..|a + b| - 1] == a + b[..|b| - 1];
    }
  }

  // ---- defaults added, then filtered ----

  /** Adding defaults leaves the normal form in front and only default keys
      behind it. */
  lemma EnsuredShape(ts: seq<Tag>, defaults: TagMap, mid: seq<Tag>) returns (rest: seq<Tag>)
    requires Ensured(ts, defaults, mid)
    ensures mid == Normal(ts) + rest && TagsOf(rest, defaults - ToMap(ts).Keys)
  {
    var m, order := ToMap(ts), KeyOrder(ts);
    rest :| mid == Listed(Merge(m, defaults), order) + rest && TagsOf(rest, Merge(m, defaults) - Elements(order));
    KeysOfMap(ts);
    ListedAgree(Merge(m, defaults), m, order);
    assert Merge(m, defaults) - Elements(order) == defaults - m.Keys;
  }

  /** Adding the controller's defaults and then filtering by their keys leaves
      the user's tags, in order: the normal form of the list without AWS-owned
      and default keys, whatever order any map was walked in. */
  lemma EnsureThenFilter(ts: seq<Tag>, defaults: TagMap, systemTags: seq<string>, mid: seq<Tag>, result: seq<Tag>)
    requires Ensured(ts, defaults, mid) && Filtered(mid, systemTags, result)
    requires forall k :: k in defaults ==> k in systemTags
    ensures result == Select(Normal(ts), k => !IsSystem(k, systemTags))
    ensures forall t :: t in result <==>
              && t in Normal(ts) && t.key.Some?
              && !(|t.key.value| >= 4 && t.key.value[..4] == "aws:") && t.key.value !in systemTags
  {
    var keep := k => !IsSystem(k, systemTags);
    var m, norm := ToMap(ts), Normal(ts);
    AwsKeys();
    SelectMembers(norm, keep);
    var rest := EnsuredShape(ts, defaults, mid);
    NormalIsTagsOf(ts);
    NormalIsIdempotent(ts);
    ToMapAppend(norm, rest);
    KeysOfMap(mid);
    KeysOfMap(norm);
    KeysOfMap(rest);
    var kept := map k | k in ToMap(mid) && !IsSystem(k, systemTags) :: ToMap(mid)[k];
    FromMapDetermined(kept, KeyOrder(mid), result);
    ListedExtraKeys(kept, KeyOrder(norm), KeyOrder(rest));
    ListedAgree(kept, KeepKeys(m, keep), KeyOrder(norm));
    SelectListed(m, KeyOrder(norm), keep);
  }

  /** Adding the controller's defaults before a call, and filtering by their
      keys after the reading, leaves the user's tags. */
  method EnsureAndFilter(ts: seq<Tag>, defaults: TagMap, systemTags: seq<string>) returns (result: seq<Tag>)
    requires forall k :: k in defaults ==> k in systemTags
    ensures result == Select(Normal(ts), k => !IsSystem(k, systemTags))
    ensures forall t :: t in result <==>
              && t in Normal(ts) && t.key.Some?
              && !(|t.key.value| >= 4 && t.key.value[..4] == "aws:") && t.key.value !in systemTags
  {
    var mid := EnsureTags(ts, defaults);
    result := FilterSystemTags(mid, systemTags);
    EnsureThenFilter(ts, defaults, systemTags, mid, result);
  }

  // ---- mirroring AWS-owned tags ----

  predicate NotAws(k: string) {
    !IsAws(k)
  }

  /** Everything mirroring appends is AWS-owned. */
  lemma MirroredShape(desired: seq<Tag>, latest: seq<Tag>, result: seq<Tag>) returns (rest: seq<Tag>)
    requires Mirrored(desired, latest, result)
    ensures result == Listed(ToMap(desired) + AwsPart(ToMap(latest)), KeyOrder(desired)) + rest
    ensures Select(rest, NotAws) == []
  {
    var m, order := ToMap(desired) + AwsPart(ToMap(latest)), KeyOrder(desired);
    rest :| result == Listed(m, order) + rest && TagsOf(rest, m - Elements(order));
    KeysOfMap(desired);
    KeysOfMap(rest);
    SelectNone(rest, NotAws);
  }

  /** The user's own tags come through unchanged and in order. */
  lemma MirrorKeepsUserTags(desired: seq<Tag>, latest: seq<Tag>, result: seq<Tag>)
    requires Mirrored(desired, latest, result)
    ensures Select(result, NotAws) == Select(Normal(desired), NotAws)
    ensures forall t :: t in Select(result, NotAws) <==>
              t in result && t.key.Some? && !(|t.key.value| >= 4 && t.key.value[..4] == "aws:")
  {
    AwsKeys();
    SelectMembers(result, NotAws);
    var m, order := ToMap(desired) + AwsPart(ToMap(latest)), KeyOrder(desired);
    var rest := MirroredShape(desired, latest, result);
    SelectAppend(Listed(m, order), rest, NotAws);
    SelectListed(m, order, NotAws);
    SelectListed(ToMap(desired), order, NotAws);
    ListedAgree(KeepKeys(m, NotAws), KeepKeys(ToMap(desired), NotAws), order);
  }

  /** A sync from the mirrored list never removes an AWS-owned key, and never
      sets one that the resource already holds. */
  lemma MirrorProtectsAwsTags(desired: seq<Tag>, latest: seq<Tag>, result: seq<Tag>)
    requires Mirrored(desired, latest, result) && NonNil(latest) && KeyUnique(latest)
    ensures NonNil(result) && KeyUnique(result)
    ensures forall t :: t in Without(latest, result) ==>
              t.key.Some? && !(|t.key.value| >= 4 && t.key.value[..4] == "aws:")
    ensures forall t :: t in Without(result, latest) ==>
              t.key.Some? && (|t.key.value| >= 4 && t.key.value[..4] == "aws:" ==> t.key.value !in ToMap(latest))
  {
    AwsKeys();
    var m := ToMap(desired) + AwsPart(ToMap(latest));
    FromMapIsTagsOf(m, KeyOrder(desired), result);
    MapOfUnique(result);
    MapOfUnique(latest);
    WithoutMembers(latest, result);
    WithoutMembers(result, latest);
  }
}
