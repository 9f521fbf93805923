// The client-ID part of an OIDC provider update. The loop over the desired IDs
// deletes from the map it is walking and from the one it compares with; what is
// left of the second map is then removed from the provider.
module ClientIds {
  import opened Base

  class Provider {
    var failures: nat        // injected failures so far
    var clientIDs: set<string>
    var added: seq<string>   // IDs of the add calls that succeeded, in order
    var removed: seq<string> // IDs of the remove calls that succeeded, in order

    constructor (clientIDs: set<string>)
      ensures this.clientIDs == clientIDs && added == [] && removed == []
    {
      this.clientIDs := clientIDs;
      failures, added, removed := 0, [], [];
    }

    /** Adding an ID that is already there succeeds. */
    method AddClientID(id: string) returns (err: Err)
      modifies this`failures, this`clientIDs, this`added
      ensures Counted(err, old(failures), failures) && (err.None? || err == Some(Injected))
      ensures err.Some? ==> clientIDs == old(clientIDs) && added == old(added)
      ensures err.None? ==> clientIDs == old(clientIDs) + {id} && added == old(added) + [id]
    {
      if * {
        failures := failures + 1;
        return Some(Injected);
      }
      err, clientIDs, added := None, clientIDs + {id}, added + [id];
    }

    /** Removing an ID that is not there succeeds. */
    method RemoveClientID(id: string) returns (err: Err)
      modifies this`failures, this`clientIDs, this`removed
      ensures Counted(err, old(failures), failures) && (err.None? || err == Some(Injected))
      ensures err.Some? ==> clientIDs == old(clientIDs) && removed == old(removed)
      ensures err.None? ==> clientIDs == old(clientIDs) - {id} && removed == old(removed) + [id]
    {
      if * {
        failures := failures + 1;
        return Some(Injected);
      }
      err, clientIDs, removed := None, clientIDs - {id}, removed + [id];
    }
  }

  method Collect(ids: seq<string>) returns (keys: set<string>)
    ensures keys == Elements(ids)
  {
    keys := {};
    for i := 0 to |ids|
      invariant keys == Elements(ids[..i])
    {
      assert ids[..i + 1] == ids[..i] + [ids[i]];
      keys := keys + {ids[i]};
    }
    assert ids[..|ids|] == ids;
  }

  /** The IDs of `calls` are pairwise different and all in `allowed`. */
  ghost predicate OncePerID(calls: seq<string>, allowed: set<string>) {
    Distinct(calls) && Elements(calls) <= allowed
  }

  lemma OneMore(calls: seq<string>, id: string, allowed: set<string>)
    requires OncePerID(calls, allowed) && id in allowed && id !in Elements(calls)
    ensures OncePerID(calls + [id], allowed) && Elements(calls + [id]) == Elements(calls) + {id}
  {
  }

  /** Walking a map visits its keys in any order, each at most once, and never
      one that has been deleted; `visited` is what the walk has produced so far.
      Every add is for an ID that only the desired list has, and on success
      there has been exactly one for each; what is left to remove is exactly
      what only the latest list has. */
  method AddMissing(b: Provider, desired: set<string>, latest: set<string>)
    returns (err: Err, leftover: set<string>, ghost adds: seq<string>)
    modifies b`failures, b`clientIDs, b`added
    ensures Counted(err, old(b.failures), b.failures) && (err.None? || err == Some(Injected))
    ensures b.added == old(b.added) + adds && OncePerID(adds, desired - latest)
    ensures b.clientIDs == old(b.clientIDs) + Elements(adds)
    ensures err.None? ==> Elements(adds) == desired - latest && leftover == latest - desired
  {
    var desiredIDs, latestIDs := desired, latest;
    var visited: set<string> := {};
    err, adds := None, [];
    while !(desiredIDs <= visited)
      invariant err.None? && b.failures == old(b.failures)
      invariant visited <= desired
      invariant desiredIDs == desired - (visited * latest) && latestIDs == latest - visited
      invariant b.added == old(b.added) + adds && OncePerID(adds, desired - latest)
      invariant Elements(adds) == visited - latest
      invariant b.clientIDs == old(b.clientIDs) + Elements(adds)
      decreases desired - visited
    {
      var id :| id in desiredIDs && id !in visited;
      if id !in latestIDs {
        OneMore(adds, id, desired - latest);
        err := b.AddClientID(id);
        if err.Some? {
          return err, latestIDs, adds;
        }
        adds := adds + [id];
      } else {
        desiredIDs := desiredIDs - {id};
        latestIDs := latestIDs - {id};
      }
      visited := visited + {id};
    }
    leftover := latestIDs;
    assert desired <= visited;
  }

  method RemoveLeftover(b: Provider, latestIDs: set<string>) returns (err: Err, ghost removes: seq<string>)
    modifies b`failures, b`clientIDs, b`removed
    ensures Counted(err, old(b.failures), b.failures) && (err.None? || err == Some(Injected))
    ensures b.removed == old(b.removed) + removes && OncePerID(removes, latestIDs)
    ensures b.clientIDs == old(b.clientIDs) - Elements(removes)
    ensures err.None? ==> Elements(removes) == latestIDs
  {
    var todo := latestIDs;
    err, removes := None, [];
    while todo != {}
      invariant err.None? && b.failures == old(b.failures) && todo <= latestIDs
      invariant b.removed == old(b.removed) + removes && OncePerID(removes, latestIDs)
      invariant Elements(removes) == latestIDs - todo
      invariant b.clientIDs == old(b.clientIDs) - Elements(removes)
    {
      var id :| id in todo;
      OneMore(removes, id, latestIDs);
      err := b.RemoveClientID(id);
      if err.Some? {
        return;
      }
      removes, todo := removes + [id], todo - {id};
    }
  }

  /** What an update that stops anywhere, or completes, has done to the IDs. */
  ghost predicate UpdateReached(before: set<string>, now: set<string>, desired: set<string>, latest: set<string>,
                                adds: seq<string>, removes: seq<string>, complete: bool) {
    && OncePerID(adds, desired - latest) && OncePerID(removes, latest - desired)
    && now == before + Elements(adds) - Elements(removes)
    && (removes != [] || complete ==> Elements(adds) == desired - latest)
    && (complete ==> Elements(removes) == latest - desired)
  }

  /** For any lists, duplicates included, and any order of the walks: one add at
      most per missing ID, one remove at most per surplus ID, no other call,
      removes only once all adds are done, and exactly one each on success. */
  method SyncClientIDs(b: Provider, desired: seq<string>, latest: seq<string>)
    returns (err: Err, ghost adds: seq<string>, ghost removes: seq<string>)
    modifies b`failures, b`clientIDs, b`added, b`removed
    ensures Counted(err, old(b.failures), b.failures) && (err.None? || err == Some(Injected))
    ensures b.added == old(b.added) + adds && b.removed == old(b.removed) + removes
    ensures UpdateReached(old(b.clientIDs), b.clientIDs, Elements(desired), Elements(latest), adds, removes, err.None?)
  {
    removes := [];
    var desiredClientIDs := Collect(desired);
    var latestClientIDs := Collect(latest);
    var leftover;
    err, leftover, adds := AddMissing(b, desiredClientIDs, latestClientIDs);
    if err.None? {
      err, removes := RemoveLeftover(b, leftover);
    }
  }

  /** So when `latest` was what the provider held, a complete update leaves
      exactly the desired IDs, each call has removed one difference, and an ID
      that is held and desired is never dropped, wherever the update stops. */
  lemma UpdateOutcome(before: set<string>, now: set<string>, desired: set<string>, latest: set<string>,
                      adds: seq<string>, removes: seq<string>, complete: bool)
    requires UpdateReached(before, now, desired, latest, adds, removes, complete)
    ensures before * desired <= now
    ensures before == latest && complete ==> now == desired
    ensures before == latest ==> Distance(now, desired) + |adds| + |removes| == Distance(before, desired)
  {
    if before == latest {
      CallsCount(before, desired, adds, removes);
    }
  }

  /** Each call that succeeds removes one difference. */
  lemma CallsCount(before: set<string>, desired: set<string>, adds: seq<string>, removes: seq<string>)
    requires OncePerID(adds, desired - before) && OncePerID(removes, before - desired)
    ensures Distance(before + Elements(adds) - Elements(removes), desired) + |adds| + |removes|
            == Distance(before, desired)
  {
    var a, r, now := Elements(adds), Elements(removes), before + Elements(adds) - Elements(removes);
    DistinctCount(adds);
    DistinctCount(removes);
    assert desired - now == (desired - before) - a;
    assert now - desired == (before - desired) - r;
  }
}
