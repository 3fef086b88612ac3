/**
 * The interested-party resolver (`GetAllInterestedAccountsFlow`): the owner's stored
 * subscriber ids, looked up in the account directory, unresolvable ones dropped.
 */
module Resolver {
  import opened Types
  import opened Registry

  /**
   * Kotlin `ids.mapNotNull(getAccountFromAccountId(accountService))`: each id through the
   * directory, in order, keeping only the ids that resolve.
   */
  function MapNotNull(ids: seq<UUID>, dir: Directory): (r: seq<AccountInfo>)
    ensures |r| <= |ids|
  {
    if ids == [] then []
    else
      var rest := MapNotNull(ids[1..], dir);
      match dir(ids[0])
      case None => rest
      case Some(a) => [a] + rest
  }

  /**
   * An account is returned exactly when it is the record of some id in the list: nothing
   * resolvable is lost and nothing else appears.
   */
  lemma {:induction false} MapNotNullMembers(ids: seq<UUID>, dir: Directory)
    ensures forall a :: a in MapNotNull(ids, dir) <==> exists id :: id in ids && dir(id) == Some(a)
  {
    if ids != [] {
      MapNotNullMembers(ids[1..], dir);
      assert forall id :: id in ids <==> id == ids[0] || id in ids[1..];
    }
  }

  /** Resolution works piecewise: the result follows the order of the ids. */
  lemma {:induction false} MapNotNullConcat(a: seq<UUID>, b: seq<UUID>, dir: Directory)
    ensures MapNotNull(a + b, dir) == MapNotNull(a, dir) + MapNotNull(b, dir)
  {
    if a == [] {
      assert a + b == b;
    } else {
      MapNotNullConcat(a[1..], b, dir);
      assert (a + b)[0] == a[0] && (a + b)[1..] == a[1..] + b;
    }
  }

  /** Every id resolves exactly when nothing is dropped; then the result is the ids' records. */
  lemma {:induction false} MapNotNullAllResolve(ids: seq<UUID>, dir: Directory)
    requires forall i :: 0 <= i < |ids| ==> dir(ids[i]).Some?
    ensures |MapNotNull(ids, dir)| == |ids|
    ensures forall i :: 0 <= i < |ids| ==> MapNotNull(ids, dir)[i] == dir(ids[i]).value
  {
    if ids != [] {
      MapNotNullAllResolve(ids[1..], dir);
    }
  }

  /** With a directory keyed by id, every returned account's id is one of the ids. */
  lemma MapNotNullIdsStored(ids: seq<UUID>, dir: Directory)
    requires KeyedById(dir)
    ensures forall a :: a in MapNotNull(ids, dir) ==> a.accountId in ids
  {
    MapNotNullMembers(ids, dir);
    forall a | a in MapNotNull(ids, dir) ensures a.accountId in ids {
      var id :| id in ids && dir(id) == Some(a);
    }
  }

  /** `GetAllInterestedAccountsFlow(accountId).call()`. */
  function InterestedAccounts(entries: Entries, accountId: UUID, dir: Directory): (r: seq<AccountInfo>)
    ensures accountId !in entries ==> r == []
    ensures accountId in entries && entries[accountId].None? ==> r == []
    ensures |r| <= |Subscribers(entries, accountId)|
  {
    MapNotNull(Subscribers(entries, accountId), dir)
  }

  /**
   * After adding `s` to `o`, the resolved list is the old one followed by the record of `s`
   * if the directory knows `s`.
   */
  lemma InterestedAfterAdd(entries: Entries, o: UUID, s: UUID, dir: Directory)
    requires Upsert(entries, o, s, true).Some?
    ensures InterestedAccounts(Upsert(entries, o, s, true).value, o, dir) ==
              InterestedAccounts(entries, o, dir) + (if dir(s).Some? then [dir(s).value] else [])
  {
    var before := Subscribers(entries, o);
    assert Subscribers(Upsert(entries, o, s, true).value, o) == before + [s];
    MapNotNullConcat(before, [s], dir);
  }

  /**
   * Adding `s` and then resolving yields an account with id `s` if and only if the
   * directory resolves `s`.
   */
  lemma AddThenResolveIncludes(entries: Entries, o: UUID, s: UUID, dir: Directory)
    requires KeyedById(dir)
    requires Upsert(entries, o, s, true).Some?
    ensures (exists a :: a in InterestedAccounts(Upsert(entries, o, s, true).value, o, dir) && a.accountId == s)
            <==> dir(s).Some?
  {
    var after := Upsert(entries, o, s, true).value;
    assert s in Subscribers(after, o);
    MapNotNullMembers(Subscribers(after, o), dir);
    if dir(s).Some? {
      assert dir(s).value in InterestedAccounts(after, o, dir);
    }
    MapNotNullIdsStored(Subscribers(after, o), dir);
  }

  /**
   * After removing `s` from `o`, the resolved list is the remaining ids resolved in order,
   * and no account with id `s` is returned.
   */
  lemma InterestedAfterRemove(entries: Entries, o: UUID, s: UUID, dir: Directory)
    requires KeyedById(dir)
    requires Upsert(entries, o, s, false).Some?
    ensures InterestedAccounts(Upsert(entries, o, s, false).value, o, dir) ==
              MapNotNull(RemoveAll(Subscribers(entries, o), s), dir)
    ensures forall a :: a in InterestedAccounts(Upsert(entries, o, s, false).value, o, dir) ==> a.accountId != s
  {
    var after := Upsert(entries, o, s, false).value;
    MapNotNullIdsStored(Subscribers(after, o), dir);
  }
}
