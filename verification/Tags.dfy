// Tag lists and tag maps: the conversions between them, and the operations
// that add, filter and mirror tags by way of a map. Maps are walked in an order
// nothing is known about.
module Tags {
  import opened Base

  datatype Tag = Tag(key: Option<string>, value: Option<string>)

  type TagMap = map<string, string>

  function Make(k: string, v: string): Tag {
    Tag(Some(k), Some(v))
  }

  function Text(v: Option<string>): string {
    if v.Some? then v.value else ""
  }

  predicate IsAws(k: string) {
    "aws:" <= k
  }

  /** AWS-owned keys are those that begin with these four characters. */
  lemma AwsKeys()
    ensures forall k :: IsAws(k) <==> |k| >= 4 && k[0] == 'a' && k[1] == 'w' && k[2] == 's' && k[3] == ':'
    ensures forall k :: IsAws(k) <==> |k| >= 4 && k[..4] == "aws:"
  {
    forall k ensures IsAws(k) <==> |k| >= 4 && k[..4] == "aws:" {
      if |k| >= 4 && k[..4] == "aws:" {
        assert "aws:"[0] == k[0] && "aws:"[1] == k[1] && "aws:"[2] == k[2] && "aws:"[3] == k[3];
      }
    }
  }

  ghost predicate NonNil(ts: seq<Tag>) {
    forall t :: t in ts ==> t.key.Some? && t.value.Some?
  }

  ghost predicate KeyUnique(ts: seq<Tag>) {
    forall i, j :: 0 <= i < j < |ts| ==> ts[i].key != ts[j].key
  }

  /** The map a list stands for: tags without a key are dropped, a missing value
      is empty, and the last tag of a key wins. */
  function ToMap(ts: seq<Tag>): TagMap {
    if ts == [] then map[]
    else
      var m, t := ToMap(ts[..|ts| - 1]), ts[|ts| - 1];
      if t.key.Some? then m[t.key.value := Text(t.value)] else m
  }

  function KeyOrder(ts: seq<Tag>): seq<string> {
    if ts == [] then []
    else
      var t := ts[|ts| - 1];
      KeyOrder(ts[..|ts| - 1]) + if t.key.Some? then [t.key.value] else []
  }

  /** The last tag of a key decides its value, and a missing value is "". */
  lemma {:induction false} LastWins(ts: seq<Tag>, i: nat, k: string)
    requires i < |ts| && ts[i].key == Some(k) && forall j :: i < j < |ts| ==> ts[j].key != Some(k)
    ensures k in ToMap(ts) && ToMap(ts)[k] == if ts[i].value == None then "" else ts[i].value.value
  {
    if i < |ts| - 1 {
      LastWins(ts[..|ts| - 1], i, k);
    }
  }

  method ConvertToOrderedACKTags(ts: seq<Tag>) returns (tags: TagMap, keyOrder: seq<string>)
    ensures tags == ToMap(ts) && keyOrder == KeyOrder(ts)
    ensures forall i, k :: 0 <= i < |ts| && ts[i].key == Some(k)
                           && (forall j :: i < j < |ts| ==> ts[j].key != Some(k)) ==>
              k in tags && tags[k] == if ts[i].value == None then "" else ts[i].value.value
    ensures forall k :: k in tags ==> exists t :: t in ts && t.key == Some(k)
  {
    tags, keyOrder := map[], [];
    for i := 0 to |ts|
      invariant tags == ToMap(ts[..i]) && keyOrder == KeyOrder(ts[..i])
    {
      assert ts[..i + 1][..i] == ts[..i];
      var t := ts[i];
      if t.key.Some? {
        keyOrder := keyOrder + [t.key.value];
        tags := tags[t.key.value := if t.value.Some? then t.value.value else ""];
      }
    }
    assert ts[..|ts|] == ts;
    forall i, k | 0 <= i < |ts| && ts[i].key == Some(k) && forall j :: i < j < |ts| ==> ts[j].key != Some(k)
      ensures k in tags && tags[k] == if ts[i].value == None then "" else ts[i].value.value
    {
      LastWins(ts, i, k);
    }
    forall k | k in tags ensures exists t :: t in ts && t.key == Some(k) {
      KeySource(ts, k);
    }
  }

  /** The entries of a map in the order of a key list, each key at its first
      occurrence. */
  function Listed(tags: TagMap, order: seq<string>): seq<Tag> {
    if order == [] then []
    else
      var front, k := order[..|order| - 1], order[|order| - 1];
      Listed(tags, front) + if k in tags && k !in front then [Make(k, tags[k])] else []
  }

  /** `ts` holds exactly the entries of `m`, once each. */
  ghost predicate TagsOf(ts: seq<Tag>, m: TagMap) {
    NonNil(ts) && KeyUnique(ts) && ToMap(ts) == m
  }

  ghost predicate FromMap(tags: TagMap, order: seq<string>, result: seq<Tag>) {
    exists rest :: result == Listed(tags, order) + rest && TagsOf(rest, tags - Elements(order))
  }

  lemma PutBack(tags: TagMap, left: set<string>, k: string)
    requires k in left && left <= tags.Keys
    ensures (tags - left)[k := tags[k]] == tags - (left - {k})
  {
  }

  /** The entries of a map, in an order nothing is known about. */
  method Enumerate(tags: TagMap) returns (rest: seq<Tag>)
    ensures TagsOf(rest, tags)
  {
    rest := [];
    var left := tags.Keys;
    while left != {}
      invariant left <= tags.Keys && TagsOf(rest, tags - left)
    {
      var k :| k in left;
      AppendTag(rest, tags - left, k, tags[k]);
      PutBack(tags, left, k);
      rest, left := rest + [Make(k, tags[k])], left - {k};
    }
    assert tags - {} == tags;
  }

  /** Ordered keys first; whatever remains follows in the map's own order. */
  method FromACKTags(tags: TagMap, keyOrder: seq<string>) returns (result: seq<Tag>)
    ensures FromMap(tags, keyOrder, result)
  {
    result := [];
    var left := tags;
    for i := 0 to |keyOrder|
      invariant result == Listed(tags, keyOrder[..i]) && left == tags - Elements(keyOrder[..i])
    {
      var k := keyOrder[i];
      assert keyOrder[..i + 1] == keyOrder[..i] + [k];
      if k in left {
        result, left := result + [Make(k, left[k])], left - {k};
      }
    }
    assert keyOrder[..|keyOrder|] == keyOrder;
    var rest := Enumerate(left);
    result := result + rest;
  }

  lemma AppendTag(ts: seq<Tag>, m: TagMap, k: string, v: string)
    requires TagsOf(ts, m) && k !in m
    ensures TagsOf(ts + [Make(k, v)], m[k := v])
  {
    KeysOfMap(ts);
    assert (ts + [Make(k, v)])[..|ts|] == ts;
    forall i | 0 <= i < |ts| ensures ts[i].key != Some(k) {
      assert ts[i] in ts;
    }
  }

  // ---- what the map of a list knows ----

  lemma {:induction false} KeysOfMap(ts: seq<Tag>)
    ensures forall k :: k in ToMap(ts) <==> k in KeyOrder(ts)
    ensures forall t :: t in ts && t.key.Some? ==> t.key.value in ToMap(ts)
  {
    if ts == [] {
    } else {
      KeysOfMap(ts[..|ts| - 1]);
      assert ts == ts[..|ts| - 1] + [ts[|ts| - 1]];
    }
  }

  lemma {:induction false} KeySource(ts: seq<Tag>, k: string)
    requires k in ToMap(ts)
    ensures exists t :: t in ts && t.key == Some(k)
  {
    var front, last := ts[..|ts| - 1], ts[|ts| - 1];
    assert ts == front + [last] && last in ts;
    if last.key != Some(k) {
      KeySource(front, k);
      var t :| t in front && t.key == Some(k);
      assert t in ts;
    }
  }

  lemma NewKey(ts: seq<Tag>)
    requires NonNil(ts) && KeyUnique(ts) && ts != []
    ensures ts[|ts| - 1].key.Some? && ts[|ts| - 1].key.value !in ToMap(ts[..|ts| - 1])
  {
    var front, last := ts[..|ts| - 1], ts[|ts| - 1];
    assert last in ts;
    if last.key.value in ToMap(front) {
      KeySource(front, last.key.value);
    }
  }

  lemma {:induction false} MapOfUniqueAt(ts: seq<Tag>, t: Tag)
    requires NonNil(ts) && KeyUnique(ts)
    ensures t in ts <==>
              t.key.Some? && t.key.value in ToMap(ts) && t == Make(t.key.value, ToMap(ts)[t.key.value])
  {
    if ts == [] {
    } else {
      var front, last := ts[..|ts| - 1], ts[|ts| - 1];
      assert ts == front + [last];
      assert last in ts;
      MapOfUniqueAt(front, t);
      NewKey(ts);
    }
  }

  /** In a list without repeated keys or nils, the map holds exactly its tags. */
  lemma MapOfUnique(ts: seq<Tag>)
    requires NonNil(ts) && KeyUnique(ts)
    ensures forall t :: t in ts <==>
              t.key.Some? && t.key.value in ToMap(ts) && t == Make(t.key.value, ToMap(ts)[t.key.value])
  {
    forall t
      ensures t in ts <==>
                t.key.Some? && t.key.value in ToMap(ts) && t == Make(t.key.value, ToMap(ts)[t.key.value])
    {
      MapOfUniqueAt(ts, t);
    }
  }

  lemma {:induction false} ToMapAppend(a: seq<Tag>, b: seq<Tag>)
    ensures ToMap(a + b) == ToMap(a) + ToMap(b)
    ensures KeyOrder(a + b) == KeyOrder(a) + KeyOrder(b)
  {
    if b == [] {
      assert a + b == a;
    } else {
      var front := b[..|b| - 1];
      ToMapAppend(a, front);
      assert (a + b)[..|a + b| - 1] == a + front;
    }
  }

  // ---- Listed ----

  lemma {:induction false} ListedContents(tags: TagMap, order: seq<string>)
    ensures NonNil(Listed(tags, order)) && KeyUnique(Listed(tags, order))
    ensures forall t :: t in Listed(tags, order) <==>
              t.key.Some? && t.key.value in order && t.key.value in tags && t == Make(t.key.value, tags[t.key.value])
  {
    if order == [] {
    } else {
      var front, k := order[..|order| - 1], order[|order| - 1];
      assert order == front + [k];
      ListedContents(tags, front);
      forall i | 0 <= i < |Listed(tags, front)| && k !in front
        ensures Listed(tags, front)[i].key != Some(k)
      {
        assert Listed(tags, front)[i] in Listed(tags, front);
      }
    }
  }

  lemma ListedMap(tags: TagMap, order: seq<string>)
    ensures ToMap(Listed(tags, order)) == map k | k in tags && k in order :: tags[k]
  {
    var ts, m := Listed(tags, order), map k | k in tags && k in order :: tags[k];
    ListedContents(tags, order);
    MapOfUnique(ts);
    forall k ensures k in ToMap(ts) <==> k in m {
      if k in m { assert Make(k, tags[k]) in ts; }
      if k in ToMap(ts) { assert Make(k, ToMap(ts)[k]) in ts; }
    }
    forall k | k in m ensures ToMap(ts)[k] == m[k] {
      assert Make(k, tags[k]) in ts;
    }
  }

  lemma SomeEntry(ts: seq<Tag>)
    requires NonNil(ts) && ts != []
    ensures ToMap(ts) != map[]
  {
    assert ts[|ts| - 1] in ts;
    assert ts[|ts| - 1].key.value in ToMap(ts);
  }

  lemma EmptyRest(rest: seq<Tag>)
    requires TagsOf(rest, map[])
    ensures rest == []
  {
    if rest != [] {
      SomeEntry(rest);
    }
  }

  lemma TagsOfConcat(a: seq<Tag>, ma: TagMap, b: seq<Tag>, mb: TagMap)
    requires TagsOf(a, ma) && TagsOf(b, mb) && ma.Keys !! mb.Keys
    ensures TagsOf(a + b, ma + mb)
  {
    ToMapAppend(a, b);
    KeysOfMap(a);
    KeysOfMap(b);
    forall i, j | 0 <= i < |a| && 0 <= j < |b|
      ensures a[i].key != b[j].key
    {
      assert a[i] in a && b[j] in b;
    }
  }

  lemma ListedTagsOf(tags: TagMap, order: seq<string>)
    ensures TagsOf(Listed(tags, order), map k | k in tags && k in order :: tags[k])
  {
    ListedContents(tags, order);
    ListedMap(tags, order);
  }

  /** Any list built from a map stands for that map. */
  lemma FromMapIsTagsOf(tags: TagMap, order: seq<string>, result: seq<Tag>)
    requires FromMap(tags, order, result)
    ensures TagsOf(result, tags)
  {
    var rest: seq<Tag> :| result == Listed(tags, order) + rest && TagsOf(rest, tags - Elements(order));
    var m := map k | k in tags && k in order :: tags[k];
    ListedTagsOf(tags, order);
    TagsOfConcat(Listed(tags, order), m, rest, tags - Elements(order));
    assert m + (tags - Elements(order)) == tags;
  }

  /** When the key list covers the map, the result is determined. */
  lemma FromMapDetermined(tags: TagMap, order: seq<string>, result: seq<Tag>)
    requires FromMap(tags, order, result) && forall k :: k in tags ==> k in order
    ensures result == Listed(tags, order)
  {
    var rest :| result == Listed(tags, order) + rest && TagsOf(rest, tags - Elements(order));
    assert tags - Elements(order) == map[];
    EmptyRest(rest);
  }

  // ---- the normal form ----

  /** A list sent through the map and back. */
  function Normal(ts: seq<Tag>): seq<Tag> {
    Listed(ToMap(ts), KeyOrder(ts))
  }

  lemma NormalIsTagsOf(ts: seq<Tag>)
    ensures TagsOf(Normal(ts), ToMap(ts))
  {
    KeysOfMap(ts);
    ListedTagsOf(ToMap(ts), KeyOrder(ts));
    assert (map k | k in ToMap(ts) && k in KeyOrder(ts) :: ToMap(ts)[k]) == ToMap(ts);
  }

  /** The round trip has one outcome: each non-nil key once, with its last value
      (a missing one becoming empty), standing for the same map. */
  lemma NormalForm(ts: seq<Tag>, result: seq<Tag>)
    requires FromMap(ToMap(ts), KeyOrder(ts), result)
    ensures result == Normal(ts) && TagsOf(result, ToMap(ts))
    ensures forall t :: t in result <==>
              t.key.Some? && t.key.value in ToMap(ts) && t == Make(t.key.value, ToMap(ts)[t.key.value])
  {
    KeysOfMap(ts);
    FromMapDetermined(ToMap(ts), KeyOrder(ts), result);
    NormalIsTagsOf(ts);
    MapOfUnique(result);
  }

  /** Where a key first occurs. */
  function First(order: seq<string>, k: string): nat {
    if order == [] || order[0] == k then 0 else 1 + First(order[1..], k)
  }

  lemma {:induction false} FirstSnoc(order: seq<string>, x: string, k: string)
    ensures k in order ==> First(order + [x], k) == First(order, k) < |order|
    ensures k !in order ==> First(order + [k], k) == |order|
  {
    if order == [] {
    } else {
      assert (order + [x])[1..] == order[1..] + [x];
      assert (order + [k])[1..] == order[1..] + [k];
      FirstSnoc(order[1..], x, k);
    }
  }

  /** Keys come out in the order of their first occurrence. */
  lemma {:induction false} ListedOrder(tags: TagMap, order: seq<string>, i: nat, j: nat)
    requires i < j < |Listed(tags, order)|
    ensures var ts := Listed(tags, order);
            ts[i].key.Some? && ts[j].key.Some? && First(order, ts[i].key.value) < First(order, ts[j].key.value)
  {
    var front, x := order[..|order| - 1], order[|order| - 1];
    var a, ts := Listed(tags, front), Listed(tags, order);
    assert order == front + [x];
    ListedContents(tags, front);
    assert ts[i] == a[i] && a[i] in a;
    FirstSnoc(front, x, a[i].key.value);
    if j < |a| {
      ListedOrder(tags, front, i, j);
      assert ts[j] == a[j] && a[j] in a;
      FirstSnoc(front, x, a[j].key.value);
    } else {
      FirstSnoc(front, x, x);
    }
  }

  /** The first occurrences of two keys of the list lie in that order in it. */
  lemma {:induction false} KeyPlace(ts: seq<Tag>, k: string) returns (p: nat)
    requires k in KeyOrder(ts)
    ensures p < |ts| && ts[p].key == Some(k) && forall q :: 0 <= q < p ==> ts[q].key != Some(k)
    ensures |KeyOrder(ts[..p])| == First(KeyOrder(ts), k)
  {
    var front, last := ts[..|ts| - 1], ts[|ts| - 1];
    assert ts == front + [last];
    if k in KeyOrder(front) {
      p := KeyPlace(front, k);
      assert front[..p] == ts[..p];
      if last.key.Some? {
        FirstSnoc(KeyOrder(front), last.key.value, k);
      } else {
        assert KeyOrder(ts) == KeyOrder(front);
      }
    } else {
      p := |front|;
      assert last.key == Some(k);
      FirstSnoc(KeyOrder(front), k, k);
      assert KeyOrder(ts) == KeyOrder(front) + [k];
      assert ts[..p] == front;
      forall q | 0 <= q < p ensures ts[q].key != Some(k) {
        assert front[q] in front;
        KeysOfMap(front);
      }
    }
  }

  lemma {:induction false} KeyOrderGrows(ts: seq<Tag>, p: nat, q: nat)
    requires p <= q <= |ts|
    ensures |KeyOrder(ts[..p])| <= |KeyOrder(ts[..q])|
    decreases q
  {
    if p < q {
      KeyOrderGrows(ts, p, q - 1);
      assert ts[..q][..q - 1] == ts[..q - 1];
    }
  }

  /** The round trip lists the keys in the order in which they first occur. */
  lemma NormalOrder(ts: seq<Tag>, i: nat, j: nat) returns (p: nat)
    requires i < j < |Normal(ts)|
    ensures p < |ts| && ts[p].key == Normal(ts)[i].key
    ensures forall q :: 0 <= q <= p ==> ts[q].key != Normal(ts)[j].key
  {
    ListedOrder(ToMap(ts), KeyOrder(ts), i, j);
    ListedContents(ToMap(ts), KeyOrder(ts));
    assert Normal(ts)[i] in Normal(ts) && Normal(ts)[j] in Normal(ts);
    var k, l := Normal(ts)[i].key.value, Normal(ts)[j].key.value;
    p := KeyPlace(ts, k);
    var q := KeyPlace(ts, l);
    if q <= p {
      KeyOrderGrows(ts, q, p);
    }
  }

  lemma {:induction false} UniqueIsNormal(ts: seq<Tag>)
    requires NonNil(ts) && KeyUnique(ts)
    ensures Normal(ts) == ts
  {
    if ts == [] {
    } else {
      var front, last := ts[..|ts| - 1], ts[|ts| - 1];
      assert ts == front + [last] && last in ts;
      UniqueIsNormal(front);
      KeysOfMap(front);
      NewKey(ts);
      ListedAgree(ToMap(front), ToMap(ts), KeyOrder(front));
      assert KeyOrder(ts)[..|KeyOrder(ts)| - 1] == KeyOrder(front);
    }
  }

  function KeepKeys(m: TagMap, keep: string -> bool): TagMap {
    map k | k in m && keep(k) :: m[k]
  }

  lemma {:induction false} ListedAgree(a: TagMap, b: TagMap, order: seq<string>)
    requires forall k :: k in order ==> (k in a <==> k in b) && (k in a ==> a[k] == b[k])
    ensures Listed(a, order) == Listed(b, order)
  {
    if order == [] {
    } else {
      ListedAgree(a, b, order[..|order| - 1]);
    }
  }

  /** The round trip is idempotent, and the identity exactly on lists without
      nils and repeated keys. */
  lemma NormalIsIdempotent(ts: seq<Tag>)
    ensures Normal(Normal(ts)) == Normal(ts)
    ensures Normal(ts) == ts <==> NonNil(ts) && KeyUnique(ts)
  {
    ListedContents(ToMap(ts), KeyOrder(ts));
    UniqueIsNormal(Normal(ts));
    if NonNil(ts) && KeyUnique(ts) {
      UniqueIsNormal(ts);
    }
  }
}
