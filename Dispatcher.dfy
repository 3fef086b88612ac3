/**
 * The broadcast dispatcher (`BroadcastToCarbonCopyReceiversFlow`): pick the receivers,
 * then ask the account service to share the state with each of them in turn.
 */
module Dispatcher {
  import opened Types
  import opened Registry
  import opened Resolver

  /** One `broadcastStateToAccount(accountId, state)` call. */
  datatype Share = Share(accountId: UUID, state: StateRef)

  /**
   * The share-state collaborator. It logs every call it receives, in order; a call for a
   * receiver in `unreachable` fails (throws) after being logged.
   */
  class AccountService {
    var calls: seq<Share>
    const unreachable: set<UUID>

    constructor (unreachable: set<UUID>)
      ensures calls == [] && this.unreachable == unreachable
    {
      calls := [];
      this.unreachable := unreachable;
    }

    method BroadcastStateToAccount(accountId: UUID, state: StateRef) returns (ok: bool)
      modifies this
      ensures calls == old(calls) + [Share(accountId, state)]
      ensures ok <==> accountId !in unreachable
    {
      calls := calls + [Share(accountId, state)];
      ok := accountId !in unreachable;
    }
  }

  /**
   * `carbonCopyReceivers ?: subFlow(GetAllInterestedAccountsFlow(owner))`: an explicit
   * collection, even an empty one, wins; only a null one consults the registry.
   */
  function Receivers(carbonCopyReceivers: Option<seq<AccountInfo>>, entries: Entries,
                     owner: UUID, dir: Directory): (r: seq<AccountInfo>)
    ensures carbonCopyReceivers.Some? ==> r == carbonCopyReceivers.value
    ensures carbonCopyReceivers.None? ==> r == InterestedAccounts(entries, owner, dir)
  {
    match carbonCopyReceivers
    case Some(rs) => rs
    case None => InterestedAccounts(entries, owner, dir)
  }

  /** Given an explicit collection, neither the registry, the owner nor the directory matter. */
  lemma ExplicitReceiversIgnoreRegistry(rs: seq<AccountInfo>, e1: Entries, e2: Entries,
                                        o1: UUID, o2: UUID, d1: Directory, d2: Directory)
    ensures Receivers(Some(rs), e1, o1, d1) == Receivers(Some(rs), e2, o2, d2) == rs
  {
  }

  /** The calls the loop makes for `receivers`, one per receiver, all for `state`, in order. */
  function Shares(receivers: seq<AccountInfo>, state: StateRef): (t: seq<Share>)
    ensures |t| == |receivers|
    ensures forall i :: 0 <= i < |receivers| ==> t[i] == Share(receivers[i].accountId, state)
  {
    seq(|receivers|, i requires 0 <= i < |receivers| => Share(receivers[i].accountId, state))
  }

  /** Extending the receivers by one extends the calls by that receiver's call. */
  lemma SharesSnoc(receivers: seq<AccountInfo>, r: AccountInfo, state: StateRef)
    ensures Shares(receivers + [r], state) == Shares(receivers, state) + [Share(r.accountId, state)]
  {
  }

  /** The position of the first receiver whose call fails, or |receivers| if none does. */
  function FirstFailing(receivers: seq<AccountInfo>, unreachable: set<UUID>): (k: nat)
    ensures k <= |receivers|
    ensures forall j :: 0 <= j < k ==> receivers[j].accountId !in unreachable
    ensures k < |receivers| ==> receivers[k].accountId in unreachable
  {
    if receivers == [] then 0
    else if receivers[0].accountId in unreachable then 0
    else 1 + FirstFailing(receivers[1..], unreachable)
  }

  /** No failure happens exactly when every receiver is reachable. */
  lemma FirstFailingNone(receivers: seq<AccountInfo>, unreachable: set<UUID>)
    ensures FirstFailing(receivers, unreachable) == |receivers| <==>
              forall j :: 0 <= j < |receivers| ==> receivers[j].accountId !in unreachable
  {
  }

  /**
   * `BroadcastToCarbonCopyReceiversFlow.call`. Returns false when a share call failed;
   * the loop then stops right after the failing receiver's call.
   */
  method BroadcastToCarbonCopyReceivers(store: BroadcastStore, dir: Directory,
                                        accountService: AccountService,
                                        owningAccount: AccountInfo, stateToBroadcast: StateRef,
                                        carbonCopyReceivers: Option<seq<AccountInfo>> := None)
    returns (ok: bool)
    modifies accountService
    ensures var rs := Receivers(carbonCopyReceivers, store.entries, owningAccount.accountId, dir);
            var k := FirstFailing(rs, accountService.unreachable);
            && ok == (k == |rs|)
            && accountService.calls ==
                 old(accountService.calls) + Shares(rs[..if ok then k else k + 1], stateToBroadcast)
  {
    var accountsToBroadcastTo: seq<AccountInfo>;
    if carbonCopyReceivers.Some? {
      accountsToBroadcastTo := carbonCopyReceivers.value;
    } else {
      accountsToBroadcastTo := InterestedAccounts(store.entries, owningAccount.accountId, dir);
    }
    assert accountsToBroadcastTo == Receivers(carbonCopyReceivers, store.entries, owningAccount.accountId, dir);
    ghost var k := FirstFailing(accountsToBroadcastTo, accountService.unreachable);
    for i := 0 to |accountsToBroadcastTo|
      invariant i <= k
      invariant accountService.calls ==
                  old(accountService.calls) + Shares(accountsToBroadcastTo[..i], stateToBroadcast)
    {
      ghost var before := accountService.calls;
      var receiver := accountsToBroadcastTo[i];
      ok := accountService.BroadcastStateToAccount(receiver.accountId, stateToBroadcast);
      assert accountsToBroadcastTo[..i + 1] == accountsToBroadcastTo[..i] + [receiver];
      SharesSnoc(accountsToBroadcastTo[..i], receiver, stateToBroadcast);
      if !ok {
        assert i == k;
        assert accountService.calls ==
                 old(accountService.calls) + Shares(accountsToBroadcastTo[..k + 1], stateToBroadcast);
        return;
      }
    }
    assert accountsToBroadcastTo[..|accountsToBroadcastTo|] == accountsToBroadcastTo;
    ok := true;
  }
}
