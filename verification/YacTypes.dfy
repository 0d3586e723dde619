/** Messages and results exchanged by the YAC consensus (messages.hpp,
    storage_result.hpp, yac_hash_provider.hpp). */
module YacTypes {
  import opened Wrappers

  datatype YacHash = YacHash(proposalHash: string, blockHash: string)

  datatype Signature = Signature(signature: string, pubkey: string)

  datatype Vote = Vote(hash: YacHash, signature: Signature)

  datatype Commit = Commit(votes: seq<Vote>)

  datatype Reject = Reject(votes: seq<Vote>)

  datatype Peer = Peer(address: string, pubkey: string)

  datatype CommitState = NotCommitted | Committed | CommittedBefore

  datatype Answer = Answer(commit: Option<Commit>, reject: Option<Reject>)

  datatype StorageResult = StorageResult(answer: Answer, state: CommitState)

  /** The default-constructed StorageResult: nothing decided, nothing answered. */
  const UNDECIDED := StorageResult(Answer(None, None), NotCommitted)
}
