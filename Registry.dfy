/**
 * The subscription registry: the `account_broadcast` table, one `AccountBroadcastInfo`
 * row per owning account, keyed by the owner's UUID, holding the ordered (and possibly
 * null) list of subscriber UUIDs.
 */
module Registry {
  import opened Types

  /** Owner UUID -> `broadcastAccounts` (None is a null list). */
  type Entries = map<UUID, Option<seq<UUID>>>

  /** Kotlin `xs - listOf(x)`: every occurrence of `x` dropped, the rest kept in order. */
  function RemoveAll(xs: seq<UUID>, x: UUID): (r: seq<UUID>)
    ensures x !in r
    ensures forall y :: y in r <==> y in xs && y != x
    ensures |r| <= |xs|
    ensures x !in xs ==> r == xs
  {
    if xs == [] then []
    else if xs[0] == x then RemoveAll(xs[1..], x)
    else [xs[0]] + RemoveAll(xs[1..], x)
  }

  /** Removal keeps every other id with its multiplicity and drops all copies of `x`. */
  lemma {:induction false} RemoveAllMultiset(xs: seq<UUID>, x: UUID)
    ensures multiset(RemoveAll(xs, x)) == multiset(xs)[x := 0]
  {
    if xs != [] {
      RemoveAllMultiset(xs[1..], x);
      assert xs == [xs[0]] + xs[1..];
    }
  }

  /** Removal works piecewise, so the survivors keep their relative order. */
  lemma {:induction false} RemoveAllConcat(a: seq<UUID>, b: seq<UUID>, x: UUID)
    ensures RemoveAll(a + b, x) == RemoveAll(a, x) + RemoveAll(b, x)
  {
    if a != [] {
      RemoveAllConcat(a[1..], b, x);
      assert (a + b)[0] == a[0] && (a + b)[1..] == a[1..] + b;
    } else {
      assert a + b == b;
    }
  }

  /** The stored list of `owner`; a missing entry or a null list reads as empty. */
  function Subscribers(entries: Entries, owner: UUID): (ids: seq<UUID>)
    ensures owner !in entries ==> ids == []
    ensures owner in entries && entries[owner].None? ==> ids == []
    ensures owner in entries && entries[owner].Some? ==> ids == entries[owner].value
  {
    if owner in entries && entries[owner].Some? then entries[owner].value else []
  }

  /**
   * The table after `AddBroadcastAccountToAccountFlow(owner, subscriber, add)`: a missing
   * entry is seeded with an empty list, the subscriber is appended or all its occurrences
   * removed, and the entry is stored. None when the stored list is null, where `!!` throws
   * and nothing is persisted.
   */
  function Upsert(entries: Entries, owner: UUID, subscriber: UUID, add: bool): (r: Option<Entries>)
    ensures r.None? <==> owner in entries && entries[owner].None?
    ensures r.Some? ==> owner in r.value && r.value[owner].Some?
  {
    if owner in entries && entries[owner].None? then None
    else
      var existing := if owner in entries then entries[owner].value else [];
      Some(entries[owner := Some(if add then existing + [subscriber] else RemoveAll(existing, subscriber))])
  }

  /** Only the owner's entry changes: every other key is present with the same value. */
  lemma UpsertFrame(entries: Entries, owner: UUID, subscriber: UUID, add: bool)
    requires Upsert(entries, owner, subscriber, add).Some?
    ensures Upsert(entries, owner, subscriber, add).value.Keys == entries.Keys + {owner}
    ensures forall k :: k in entries && k != owner ==>
              Upsert(entries, owner, subscriber, add).value[k] == entries[k]
  {
  }

  /**
   * Adding appends at the end: the old list is a prefix, the subscriber is last, and it is
   * appended again even if already present (one more occurrence).
   */
  lemma UpsertAddAppends(entries: Entries, owner: UUID, subscriber: UUID)
    requires Upsert(entries, owner, subscriber, true).Some?
    ensures var after := Subscribers(Upsert(entries, owner, subscriber, true).value, owner);
            var before := Subscribers(entries, owner);
            && |after| == |before| + 1
            && after[..|before|] == before
            && after[|before|] == subscriber
            && multiset(after)[subscriber] == multiset(before)[subscriber] + 1
  {
    var after := Subscribers(Upsert(entries, owner, subscriber, true).value, owner);
    var before := Subscribers(entries, owner);
    assert after == before + [subscriber];
    assert after[..|before|] == before;
  }

  /**
   * Removing drops every occurrence and nothing else, in order; removing an absent
   * subscriber leaves the stored list as it was.
   */
  lemma UpsertRemoveDeletesAll(entries: Entries, owner: UUID, subscriber: UUID)
    requires Upsert(entries, owner, subscriber, false).Some?
    ensures var after := Subscribers(Upsert(entries, owner, subscriber, false).value, owner);
            var before := Subscribers(entries, owner);
            && subscriber !in after
            && multiset(after) == multiset(before)[subscriber := 0]
            && (subscriber !in before ==> after == before)
  {
    RemoveAllMultiset(Subscribers(entries, owner), subscriber);
  }

  /** An owner without an entry gets one; removing from it leaves an empty list behind. */
  lemma UpsertSeedsMissingOwner(entries: Entries, owner: UUID, subscriber: UUID, add: bool)
    requires owner !in entries
    ensures Upsert(entries, owner, subscriber, add).Some?
    ensures owner in Upsert(entries, owner, subscriber, add).value
    ensures Upsert(entries, owner, subscriber, add).value[owner] ==
              Some(if add then [subscriber] else [])
  {
    assert [] + [subscriber] == [subscriber];
  }

  /** The persisted `account_broadcast` table. */
  class BroadcastStore {
    var entries: Entries

    constructor ()
      ensures entries == map[]
    {
      entries := map[];
    }

    /**
     * `AddBroadcastAccountToAccountFlow.call`: find the owner's entry or seed an empty one,
     * append or remove the subscriber, persist. Returns false, changing nothing, when the
     * stored list is null.
     */
    method AddOrRemove(accountUUID: UUID, accountToPermission: UUID, add: bool := true) returns (ok: bool)
      modifies this
      ensures ok == Upsert(old(entries), accountUUID, accountToPermission, add).Some?
      ensures entries == if ok then Upsert(old(entries), accountUUID, accountToPermission, add).value
                         else old(entries)
    {
      var existingEntry: Option<seq<UUID>> :=
        if accountUUID in entries then entries[accountUUID] else Some([]);
      if existingEntry.None? {
        return false;
      }
      var broadcastAccounts := existingEntry.value;
      if add {
        broadcastAccounts := broadcastAccounts + [accountToPermission];
      } else {
        broadcastAccounts := RemoveAll(broadcastAccounts, accountToPermission);
      }
      entries := entries[accountUUID := Some(broadcastAccounts)];
      ok := true;
    }
  }
}
