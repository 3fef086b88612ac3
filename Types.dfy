/** Values shared by the registry, the resolver and the dispatcher. */
module Types {

  /** Kotlin's nullable `T?`: None stands for `null`. */
  datatype Option<+T> = None | Some(value: T)

  /** A `java.util.UUID`: two 64-bit halves, compared by value. */
  datatype UUID = UUID(mostSigBits: bv64, leastSigBits: bv64)

  /** The part of an account record the carbon-copy logic uses. */
  datatype AccountInfo = AccountInfo(name: string, accountId: UUID)

  /** A reference to the ledger state being copied (transaction hash and output index). */
  datatype StateRef = StateRef(txHash: seq<bv8>, index: nat)

  /** The account directory: `accountService.accountInfo(id)?.state?.data`. */
  type Directory = UUID -> Option<AccountInfo>

  /** The directory answers a lookup of `id` with the record of account `id`, if with any. */
  ghost predicate KeyedById(dir: Directory)
  {
    forall id :: dir(id).Some? ==> dir(id).value.accountId == id
  }
}
