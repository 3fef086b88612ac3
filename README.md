# Carbon-copy subscriptions for accounts, in Dafny

This project models the carbon-copy logic of the gold-trading CorDapp's `AccountBroadcast.kt`.
An owning account keeps an ordered list of subscriber accounts. Every ledger state the owner
transacts is copied to those subscribers.

- **Registry** (`Registry.dfy`). The `account_broadcast` table is a map from owner UUID to a
  `broadcastAccounts` list that may be null (`Option<seq<UUID>>`). `BroadcastStore.AddOrRemove`
  is `AddBroadcastAccountToAccountFlow.call`. It seeds a missing entry with an empty list. Then
  it appends the subscriber (no duplicate check) or drops all of its occurrences (Kotlin
  `List - Iterable`), and stores the entry. A stored null list makes `!!` throw. The model returns
  `false` in that case and leaves the table unchanged, as the rolled-back transaction would.
  The pure function `Upsert` specifies the method, and the lemmas are about `Upsert`.
- **Resolver** (`Resolver.dfy`). `InterestedAccounts` is `GetAllInterestedAccountsFlow.call`. It
  reads the owner's list, with a missing entry or a null list counted as empty. It then applies
  `MapNotNull` through the account directory, keeping store order and dropping unresolved ids.
  The directory is a function `UUID -> Option<AccountInfo>`. `KeyedById` states that it returns
  the record of the id it was asked for.
- **Dispatcher** (`Dispatcher.dfy`). `BroadcastToCarbonCopyReceivers` is
  `BroadcastToCarbonCopyReceiversFlow.call`. A non-null explicit receiver collection is used
  as given. Otherwise the resolver runs. Then a `for` loop calls the account service once per
  receiver. The service is modelled by `AccountService`, which logs each call as
  `(receiverId, stateRef)`. A call for a receiver in its `unreachable` set throws, and that
  ends the loop (the model returns `false`). The failing call is logged too, because it was
  attempted.

The dispatcher calls `broadcastStateToAccount` directly (line 51), not through
`BroadcastOperation`, so there is no deduplication id on that path. Adding a subscriber keeps
duplicates, as the code does. The Kotlin default arguments `add = true` and
`carbonCopyReceivers = null` are Dafny default parameter values.

## Model

| member | source | states |
|---|---|---|
| `Registry.RemoveAll` | examples/gold-trading/cordapp/src/main/kotlin/net/corda/gold/trading/AccountBroadcast.kt:70 | the removed id no longer occurs; every other id is kept exactly when it was present; the list never grows; removing an absent id gives back the same list |
| `Registry.RemoveAllMultiset` | examples/gold-trading/cordapp/src/main/kotlin/net/corda/gold/trading/AccountBroadcast.kt:70 | removal sets the removed id's count to zero and keeps the count of every other id |
| `Registry.RemoveAllConcat` | examples/gold-trading/cordapp/src/main/kotlin/net/corda/gold/trading/AccountBroadcast.kt:70 | removal distributes over concatenation, so the remaining ids keep their relative order |
| `Registry.Subscribers` | examples/gold-trading/cordapp/src/main/kotlin/net/corda/gold/trading/AccountBroadcast.kt:84-92 | a missing entry or a null list reads as the empty list; otherwise the stored list is read |
| `Registry.Upsert` | examples/gold-trading/cordapp/src/main/kotlin/net/corda/gold/trading/AccountBroadcast.kt:63-74 | None exactly when the owner's stored list is null (the `!!` throws); otherwise the owner has a non-null entry; what that entry holds after an add, a remove or on a missing owner is stated by the three `Upsert…` lemmas below |
| `Registry.UpsertFrame` | examples/gold-trading/cordapp/src/main/kotlin/net/corda/gold/trading/AccountBroadcast.kt:63-74 | afterwards the keys are the old keys plus the owner, and every other owner's entry is unchanged |
| `Registry.UpsertAddAppends` | examples/gold-trading/cordapp/src/main/kotlin/net/corda/gold/trading/AccountBroadcast.kt:66-68 | adding makes the list one longer, keeps the old list as a prefix, puts the subscriber last, and adds one more occurrence even if it was already present |
| `Registry.UpsertRemoveDeletesAll` | examples/gold-trading/cordapp/src/main/kotlin/net/corda/gold/trading/AccountBroadcast.kt:69-71 | removing leaves no occurrence of the subscriber and keeps every other id's count; if the subscriber is absent the list is unchanged |
| `Registry.UpsertSeedsMissingOwner` | examples/gold-trading/cordapp/src/main/kotlin/net/corda/gold/trading/AccountBroadcast.kt:64-73 | an owner with no entry always gets one: `[subscriber]` after an add, the empty list after a remove |
| `Registry.BroadcastStore.AddOrRemove` | examples/gold-trading/cordapp/src/main/kotlin/net/corda/gold/trading/AccountBroadcast.kt:60-76 | the method fails exactly when `Upsert` does; on failure the table is unchanged, otherwise it becomes `Upsert` of the old table |
| `Resolver.MapNotNull` | examples/gold-trading/cordapp/src/main/kotlin/net/corda/gold/trading/AccountBroadcast.kt:91-96 | resolution never returns more accounts than there are ids |
| `Resolver.MapNotNullMembers` | examples/gold-trading/cordapp/src/main/kotlin/net/corda/gold/trading/AccountBroadcast.kt:91-96 | an account is returned if and only if it is the directory's record for some id in the list |
| `Resolver.MapNotNullConcat` | examples/gold-trading/cordapp/src/main/kotlin/net/corda/gold/trading/AccountBroadcast.kt:91 | resolution distributes over concatenation, so results follow the stored order |
| `Resolver.MapNotNullAllResolve` | examples/gold-trading/cordapp/src/main/kotlin/net/corda/gold/trading/AccountBroadcast.kt:91-96 | when every id resolves, nothing is dropped and position i holds the record of the i-th id |
| `Resolver.MapNotNullIdsStored` | examples/gold-trading/cordapp/src/main/kotlin/net/corda/gold/trading/AccountBroadcast.kt:95-96 | with a directory keyed by id, every returned account's id occurs in the list |
| `Resolver.InterestedAccounts` | examples/gold-trading/cordapp/src/main/kotlin/net/corda/gold/trading/AccountBroadcast.kt:81-93 | an owner with no entry or a null list gets the empty result, never an error; the result is no longer than the stored list |
| `Resolver.InterestedAfterAdd` | examples/gold-trading/cordapp/src/main/kotlin/net/corda/gold/trading/AccountBroadcast.kt:63-92 | after adding `s`, the resolved list is the old one followed by `s`'s record if the directory knows `s` |
| `Resolver.AddThenResolveIncludes` | examples/gold-trading/cordapp/src/main/kotlin/net/corda/gold/trading/AccountBroadcast.kt:63-92 | after adding `s`, an account with id `s` is resolved if and only if the directory resolves `s` |
| `Resolver.InterestedAfterRemove` | examples/gold-trading/cordapp/src/main/kotlin/net/corda/gold/trading/AccountBroadcast.kt:63-92 | after removing `s`, the result is the remaining ids resolved in order, and no account with id `s` is returned |
| `Dispatcher.AccountService.BroadcastStateToAccount` | examples/gold-trading/cordapp/src/main/kotlin/net/corda/gold/trading/AccountBroadcast.kt:51 | each call is appended to the log as `(receiverId, state)`; it fails exactly for an unreachable receiver |
| `Dispatcher.Receivers` | examples/gold-trading/cordapp/src/main/kotlin/net/corda/gold/trading/AccountBroadcast.kt:48-49 | a non-null explicit collection, even an empty one, is the receiver list as given; only a null one resolves through the registry |
| `Dispatcher.ExplicitReceiversIgnoreRegistry` | examples/gold-trading/cordapp/src/main/kotlin/net/corda/gold/trading/AccountBroadcast.kt:48-49 | with an explicit collection, the receivers are the same for any registry contents, owner and directory |
| `Dispatcher.Shares` | examples/gold-trading/cordapp/src/main/kotlin/net/corda/gold/trading/AccountBroadcast.kt:50-52 | one call per receiver, for the same state, in receiver order |
| `Dispatcher.SharesSnoc` | examples/gold-trading/cordapp/src/main/kotlin/net/corda/gold/trading/AccountBroadcast.kt:50-52 | one more loop iteration adds exactly that receiver's call at the end |
| `Dispatcher.FirstFailing` | examples/gold-trading/cordapp/src/main/kotlin/net/corda/gold/trading/AccountBroadcast.kt:50-52 | the stop position: every receiver before it is reachable, and the receiver at it (if any) is not |
| `Dispatcher.FirstFailingNone` | examples/gold-trading/cordapp/src/main/kotlin/net/corda/gold/trading/AccountBroadcast.kt:50-52 | the loop runs to the end if and only if every receiver is reachable |
| `Dispatcher.BroadcastToCarbonCopyReceivers` | examples/gold-trading/cordapp/src/main/kotlin/net/corda/gold/trading/AccountBroadcast.kt:45-54 | succeeds exactly when no receiver fails; the log grows by the calls for the receivers up to the first failing one (that one included), all for the same state and in order, and by every receiver's call when none fails; the registry is not changed |

## Left out

- JPA/Hibernate mapping (`@Entity`, `MappedSchema`, `withEntityManager`, `find`, `persist`): the table is a Dafny map. The transaction's rollback on an exception is modelled as "table unchanged".
- `serviceHub.cordaService(KeyManagementBackedAccountService)`: the directory is passed in as a function, and the share service as an `AccountService` object.
- The `CordaFuture` returned by `broadcastStateToAccount`: it is not awaited, so only a failure raised by the call itself stops the loop. `AccountService` decides failure per receiver through a fixed set. Failures that depend on time or on earlier calls are not modelled.
- `BroadcastOperation.execute` and its `deduplicationId`: the method ignores the id and only forwards the call, and nothing in the source calls it. Retry and at-most-once delivery belong to the host runtime.
- The `AtomicReference`/`Consumer` holder in `GetAllInterestedAccountsFlow` (lines 82-89): it only carries the loaded entry out of the lambda, so the model reads the map directly.
- Concurrency: concurrent add/remove calls for one owner, lost updates and `@Suspendable` fiber suspension are not modelled. Every operation is one atomic step.
- The directory is a single fixed function during a broadcast. Directory contents changing between lookups are not modelled.
