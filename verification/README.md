# Iroha: a verified model of consensus, ledger and their tools

Iroha is a distributed ledger. Peers collect transactions into a proposal, each
peer filters the proposal against its world state and makes a block, the YAC
consensus ("yet another consensus") agrees on one block, and every peer applies
it. This project models those steps, the 64-bit calendar and the small fast
algorithms the peers rely on, and proves what they are for. Run
`dafny verify dfyconfig.toml` to check everything.

The main theorems:

- **Agreement** (`YacAgreement`). Correct peers that report a commit report the
  same hash, in every run, with fewer than a third of the peers faulty.
  The network may delay, repeat, reorder and drop messages, and faulty peers may
  send anything they can sign. `YacProgress` says exactly when
  a peer reports the certificate of a completed quorum, and that a peer which does not
  report it never will; `YacRotation` that the vote goes to each peer once;
  `YacGate` carries agreement over to the ledgers.
- **Storage refinement** (`YacStorage`, `YacStorageLaws`, `YacReplies`). The nested vote
  lists, updated in place, are one table from hashes to received votes, committed
  exactly at a quorum; what is answered to every vote, and when voting stops.
- **Replay and chains** (`Validator`, `Chain`, `Synchronizer`, `YacGate`). A filtered
  proposal, signed by a certificate, is accepted by the chain validator and
  reproduces the validator's state; the ledger is always the replay of everything
  announced.
- **Commands** (`CommandEffects`). For each of the eleven commands, exactly when it may be
  run and succeeds, and which rows it writes.
- **Ledger invariants** (`Conservation`, `Signatories`, `Authorization`). What every run
  of validated transactions conserves, keeps and cannot do.
- **Calendar** (`Calendar`, `Time64`, `SafeYear`). Both conversions against a closed
  form of the Gregorian calendar, as inverses of each other; the reduction of any
  year to 1971..2037.
- **Fast forms** (`Lookup3`, `MapQueue`, `Base64`, `FixedPoint`). Each against a simple
  definition.

How the model is built. Code that changes state is a class or a method with loops,
proved equal to a function on values (`View() == Spec(old(View()))`); the theorems are
about those functions and about whole runs of them. The database is its tables
(`WorldState`): a statement yields new tables, or fails on a duplicate key, a missing
reference or a value that does not fit its column, as the schema in
`irohad/ametsuchi/impl/storage_impl.hpp` says. Savepoints are copies of the tables.
Timers, message delivery, the peer orderer, block loading and the creation of
storages are parameters or steps of a run. Keys, hashes and signatures are abstract:
`verify` is a parameter, and agreement assumes of it that it accepts only votes
signed with a ledger key, with a signature determined by key and hash.

Where the code differs from what it says about itself, the model follows the code:

- A transfer from an account to itself destroys the amount, because the source row
  is written last (`Conservation.TransferConservesIff`).
- `RemoveSignatory` is commented to fail for a signatory that does not exist; deleting
  a missing row succeeds (`Signatories.RemoveSucceeds`).
- `MapQueue` is described as dropping the last pushed element when it is full; it
  drops the oldest, and only when the size is set.
- No amount of an asset of precision 0 is ever added or transferred, since a fraction
  always has at least one digit (`Conservation.PrecisionZeroIsFixed`).
- Precisions above 9 overflow the scale (`FixedPoint.ScaleIsExactIff`); the model takes
  the two's complement value. At 12, 15, 18 and above an issue can therefore wrap a
  balance around 2^64 (`FixedPoint.WrapsIff`), and then takes away instead of adding
  (`Conservation.ConservedIff`, `Authorization.OnlyOwnerSpends`).
- A quorum may exceed the number of signatories (`Signatories.CommandKeepsSignableIff`).
- A peer that has committed and then learns one more vote no longer reports the commit,
  even if it had not reported it before, so a report can be lost for good; and a commit
  delivered twice is reported twice (`YacProgress.LostReport`, `YacProgress.RepeatedReport`).
- A vote that arrives after the commit opens its proposal for voting again
  (`YacReplies.LateVoteReopens`).
- `seconds_between_years` counts the right-hand year in place of the left-hand one,
  moves years up to 1200 the wrong way and misses leap days before year 1
  (`SafeYear.SecondsBetweenYears`).

## Model

| member | source | states |
|---|---|---|
| `YacAgreement.Agreement` | irohad/consensus/yac/impl/yac.cpp:67-160 | in every run of a round with n keys of which at most (n - 1) / 3 are faulty, any two commits reported by correct peers at any two moments carry the same hash, and a correct peer voted for it |
| `YacAgreement.NextKeepsSafe` | irohad/consensus/yac/impl/yac.cpp:56-160 | every step (start of voting, timer, delivery of a vote, commit or reject in any order and any number of times, a message made up by faulty peers) keeps the safety invariant |
| `YacAgreement.RunIsSafe` | irohad/consensus/yac/impl/yac.cpp:56-160 | the safety invariant holds at every moment of every run |
| `YacAgreement.OnVoteOk` | irohad/consensus/yac/impl/yac.cpp:133-160 | a delivered vote keeps a correct peer's stored, sent and reported votes trustworthy |
| `YacAgreement.OnCommitOk` | irohad/consensus/yac/impl/yac.cpp:109-126 | a delivered commit keeps a correct peer sound, and what it reports is a certificate |
| `YacAgreement.ReportedCertifies` | irohad/consensus/yac/storage/impl/yac_block_storage.cpp:57-70 | a commit the storage answers as committed is a set of distinct genuine votes of a quorum for one hash |
| `YacAgreement.CertificateSigners` | irohad/consensus/yac/storage/impl/yac_block_storage.cpp:112-123 | the distinct votes of a certificate come from as many distinct ledger keys, which form a quorum |
| `YacAgreement.CertificatesAgree` | irohad/consensus/yac/storage/impl/yac_common.cpp:24-29 | two certificates of the same round are for the same hash |
| `YacProgress.QuorumReachesPeers` | irohad/consensus/yac/impl/yac.cpp:109-160 | the vote that completes a quorum makes its receiver send the certificate to every peer once; a peer of the round that accepts it reports it if and only if it is undecided, or committed and holding all its votes; otherwise the hash is muted there |
| `YacProgress.QuorumIsSpread` | irohad/consensus/yac/impl/yac.cpp:133-168 | completing a quorum sends exactly the certificate of all stored votes to each peer of the order |
| `YacProgress.ReportsIff` | irohad/consensus/yac/impl/yac.cpp:109-126 | delivery of any commit message adds exactly one report, of all votes then held, if and only if it verifies, is not empty and the storage's outcome is committed; otherwise none |
| `YacProgress.CertificateIsReportedIff` | irohad/consensus/yac/impl/yac.cpp:109-126 | a verified certificate is reported if and only if the peer is undecided on its hash, or committed and holding all its votes; exactly the unreported ones leave the hash muted; the votes are joined and the round closed either way |
| `YacProgress.RunEvolves` | irohad/consensus/yac/storage/impl/yac_block_storage.cpp:30-70 | over every run of a peer a committed store stays exactly as it is, or has more votes and answers committed_before |
| `YacProgress.MutedForever` | irohad/consensus/yac/impl/yac.cpp:109-126 | a muted hash, one answered committed_before, stays muted over every run of calls, timers, votes, commits and rejects, and no commit reported from then on carries a vote for it |
| `YacProgress.UnreportedIsLost` | irohad/consensus/yac/impl/yac.cpp:109-126 | a certificate that a peer does not report is the last chance: the peer never reports its hash afterwards, in any run |
| `YacProgress.CollectorReportsIff` | irohad/consensus/yac/impl/yac.cpp:109-168 | the peer that completed the quorum, after any run until its own certificate comes back, reports it if and only if it has accepted no further vote for the hash |
| `YacProgress.CollectorMuted` | irohad/consensus/yac/storage/impl/yac_block_storage.cpp:45-47 | one further vote in between costs it the report |
| `YacProgress.RedeliveryReports` | irohad/consensus/yac/impl/yac.cpp:118 | a certificate just reported, delivered again, is reported again with the same votes |
| `YacProgress.RepeatedReport` | irohad/consensus/yac/impl/yac.cpp:118 | the concrete repeated report of three of four votes |
| `YacProgress.LostReport` | irohad/consensus/yac/impl/yac.cpp:120-122 | the concrete lost report: the peer that collects the fourth vote before its certificate of three returns spreads the certificate and never reports the hash, whatever follows |
| `YacProgress.CompletedQuorumCertifies` | irohad/consensus/yac/storage/impl/yac_block_storage.cpp:112-123 | the votes of a completed quorum pass the commit check of every store of the same hash and n |
| `YacQuorum.SupermajorityIsQuorum` | irohad/consensus/yac/storage/impl/yac_common.cpp:24-29 | the division by 3.0 decides exactly 3 * current >= 2 * n + 1 with current <= n, and never holds for n = 0 |
| `YacQuorum.ChainCheckIsQuorum` | irohad/validation/impl/chain_validator_impl.cpp:68-77 | the ledger's check is exactly 3 * signatures >= 2 * peers + 1 |
| `YacQuorum.QuorumsIntersect` | irohad/consensus/yac/storage/impl/yac_common.cpp:24-29 | two quorums share a key outside any set of at most (n - 1) / 3 faulty keys |
| `YacQuorum.QuorumHasHonest` | irohad/consensus/yac/storage/impl/yac_common.cpp:24-29 | every quorum contains a correct key |
| `YacStorage.BlockStorage.constructor` | irohad/consensus/yac/storage/impl/yac_block_storage.cpp:23-28 | a fresh store has no votes and is not committed |
| `YacStorage.BlockStorage.UniqueVote` | irohad/consensus/yac/storage/impl/yac_block_storage.cpp:103-110 | the search says whether the vote is new |
| `YacStorage.BlockStorage.Insert` | irohad/consensus/yac/storage/impl/yac_block_storage.cpp:30-55 | updates the store in place as the specification InsertVote says and answers the new state |
| `YacStorage.BlockStorage.CheckCommitScheme` | irohad/consensus/yac/storage/impl/yac_block_storage.cpp:112-123 | accepts exactly the commits of a supermajority of votes that all carry this store's hash |
| `YacStorage.BlockStorage.InsertCommit` | irohad/consensus/yac/storage/impl/yac_block_storage.cpp:57-70 | updates the store as InsertCommit says: vote by vote, with the state corrected to committed on the first commit |
| `YacStorage.ProposalStorage.constructor` | irohad/consensus/yac/storage/impl/yac_proposal_storage.cpp:23-27 | a fresh proposal store has no block stores |
| `YacStorage.ProposalStorage.FindStore` | irohad/consensus/yac/storage/impl/yac_proposal_storage.cpp:122-137 | finds the store of a hash or appends an empty one |
| `YacStorage.ProposalStorage.Insert` | irohad/consensus/yac/storage/impl/yac_proposal_storage.cpp:29-73 | stores a vote in the block store of its hash and caches a committed answer |
| `YacStorage.ProposalStorage.Apply` | irohad/consensus/yac/storage/impl/yac_proposal_storage.cpp:75-85 | applies a commit and caches the answer only when it is committed |
| `YacStorage.VoteStorage.FindProposalStorage` | irohad/consensus/yac/storage/impl/yac_vote_storage.cpp:59-69 | finds the proposal store of a hash or appends one for this number of peers |
| `YacStorage.VoteStorage.Store` | irohad/consensus/yac/storage/impl/yac_vote_storage.cpp:24-29 | stores a vote in the nested lists as StoreVote says and leaves everything else unchanged |
| `YacStorage.VoteStorage.Apply` | irohad/consensus/yac/storage/impl/yac_vote_storage.cpp:31-37 | applies a commit in the nested lists as ApplyCommit says; an empty one changes nothing |
| `YacStorage.VoteStorage.Find` | irohad/consensus/yac/storage/impl/yac_vote_storage.cpp:47-55 | the cached state of the first store with this proposal hash, if any |
| `YacStorageLaws.StorageRefinement` | irohad/consensus/yac/storage/impl/yac_vote_storage.cpp:24-69 | after every run of votes and commits there is one block store per hash mentioned, and its distinct votes are exactly those received directly or in an accepted commit |
| `YacStorageLaws.CommittedIffQuorum` | irohad/consensus/yac/storage/impl/yac_block_storage.cpp:30-70 | after every run a store is past not_committed exactly when 3 * votes >= 2 * n + 1 and n >= 1 |
| `YacStorageLaws.NeverUncommits` | irohad/consensus/yac/storage/impl/yac_block_storage.cpp:30-70 | whatever follows, a committed hash stays committed, answers exactly its votes as the commit, and keeps all it had |
| `YacStorageLaws.StoreVoteTable` | irohad/consensus/yac/storage/impl/yac_vote_storage.cpp:24-29 | storing a vote changes the entry of its own hash and of no other |
| `YacStorageLaws.ApplyCommitTable` | irohad/consensus/yac/storage/impl/yac_vote_storage.cpp:31-37 | applying a commit changes the entry of its first vote's hash and of no other, and answers what that entry answers |
| `YacStorageLaws.StoreVoteKeeps` | irohad/consensus/yac/storage/impl/yac_vote_storage.cpp:24-29 | storing a vote keeps one store per hash, distinct votes, and a sound cache |
| `YacStorageLaws.ApplyCommitKeeps` | irohad/consensus/yac/storage/impl/yac_vote_storage.cpp:31-37 | applying a commit keeps the same invariant |
| `YacStorageLaws.InsertVoteKeeps` | irohad/consensus/yac/storage/impl/yac_block_storage.cpp:30-55 | a vote extends the votes by itself, keeps them distinct, and yields committed exactly on reaching the quorum or on repeating a vote of a committed store |
| `YacStorageLaws.InsertCommitKeeps` | irohad/consensus/yac/storage/impl/yac_block_storage.cpp:57-70 | a commit adds exactly its votes if its scheme is accepted and nothing otherwise; its answer is committed for a store that was undecided, or committed and already holding all its votes, and committed_before for one that learns new votes or answered so before |
| `YacStorageLaws.ProposalInsertKeeps` | irohad/consensus/yac/storage/impl/yac_proposal_storage.cpp:29-73 | a proposal store is not_committed exactly while all its block stores are, and caches a supermajority prefix of one store's votes, never a reject |
| `YacStorageLaws.ProposalApplyKeeps` | irohad/consensus/yac/storage/impl/yac_proposal_storage.cpp:75-85 | applying a commit keeps that invariant |
| `YacStorageLaws.OneWinner` | irohad/consensus/yac/storage/impl/yac_proposal_storage.cpp:29-85 | if each of n keys has at most one vote in a proposal, at most one block store is committed and the cached commit is a supermajority prefix of its votes |
| `YacStorageLaws.OneWinnerInRun` | irohad/consensus/yac/storage/impl/yac_proposal_storage.cpp:29-85 | the same over every run: no second hash of the proposal commits, and the proposal's cached commit is a supermajority prefix of the votes of the one that does |
| `YacStorageLaws.CertificateTransfers` | irohad/consensus/yac/storage/impl/yac_block_storage.cpp:57-123 | a committed store's certificate of at most n votes is accepted by every other store of the hash and n, commits an uncommitted one, and brings all its votes |
| `YacReplies.StoreVoteCaches` | irohad/consensus/yac/storage/impl/yac_proposal_storage.cpp:29-73 | a vote refreshes the cached answer of its proposal exactly if its own store is committed then, of no other proposal, and is answered with the cache |
| `YacReplies.ApplyCommitCaches` | irohad/consensus/yac/storage/impl/yac_proposal_storage.cpp:75-85 | a commit refreshes the cached answer of its proposal only if it is answered committed |
| `YacReplies.KnownCommitKeepsCache` | irohad/consensus/yac/storage/impl/yac_proposal_storage.cpp:81-83 | a commit answered committed_before leaves what every proposal has cached |
| `YacReplies.CachedStateIff` | irohad/consensus/yac/storage/impl/yac_proposal_storage.cpp:29-85 | over every run a proposal is cached as committed, or as committed_before, if and only if the last message that decided anything about it decided so |
| `YacReplies.VotingStopsIff` | irohad/consensus/yac/impl/yac.cpp:87-92 | so a peer does not vote for a proposal exactly if that last decision was committed |
| `YacReplies.LateVoteReopens` | irohad/consensus/yac/impl/yac.cpp:87-92 | a vote that comes after the commit opens the proposal for voting again |
| `YacReplies.LateCommitKeepsClosed` | irohad/consensus/yac/storage/impl/yac_proposal_storage.cpp:81-83 | a commit that brings the same news does not |
| `YacReplies.VoteAnswered` | irohad/consensus/yac/impl/yac.cpp:133-160 | the complete answer to any verified vote: the certificate of its hash, once committed, to all peers under the label committed and to the voter alone under committed_before; while its hash is undecided, in the same way, the certificate the proposal has cached, or nothing |
| `YacReplies.LateVoteAnswered` | irohad/consensus/yac/impl/yac.cpp:150-154 | a vote after the commit is answered to its sender with the grown certificate |
| `YacReplies.RepeatedVoteAnswered` | irohad/consensus/yac/impl/yac.cpp:141-158 | a repeated vote is answered to all peers, or to the voter once the hash is muted |
| `Yac.ClusterOrdering.CurrentLeader` | irohad/consensus/yac/impl/cluster_order.cpp:28-33 | the leader at the index, reset to 0 past the end; no leader for an empty order |
| `Yac.ClusterOrdering.HasNext` | irohad/consensus/yac/impl/cluster_order.cpp:35-37 | whether the index differs from the number of peers |
| `Yac.ClusterOrdering.SwitchToNext` | irohad/consensus/yac/impl/cluster_order.cpp:39-42 | advances the index, keeping the peers |
| `Yac.YacPeer.Vote` | irohad/consensus/yac/impl/yac.cpp:56-59 | takes a copy of the order and makes a voting step |
| `Yac.YacPeer.VotingStep` | irohad/consensus/yac/impl/yac.cpp:87-101 | sends the vote to the current leader and sets the timer, unless the proposal is committed |
| `Yac.YacPeer.OnTimer` | irohad/consensus/yac/impl/yac.cpp:95-100 | moves to the next leader and votes again while there is one |
| `Yac.YacPeer.OnVote` | irohad/consensus/yac/impl/yac.cpp:67-71 | stores a verified vote and sends a certificate to all, to the voter alone, or to nobody |
| `Yac.YacPeer.OnCommit` | irohad/consensus/yac/impl/yac.cpp:73-77 | applies a verified commit, reports it when the storage answers committed, and closes the round |
| `Yac.YacPeer.OnReject` | irohad/consensus/yac/impl/yac.cpp:79-83 | a verified reject only closes the round |
| `Yac.YacPeer.Propagate` | irohad/consensus/yac/impl/yac.cpp:164-178 | sends the certificate and the reject, where there is one, to each peer in list order |
| `YacRotation.Rotation` | irohad/consensus/yac/impl/yac.cpp:87-101 | undisturbed, from any index of the order, an index past the end starting over, after k expiries of the timer exactly the first k + 1 peers from there have been sent the vote, each once and in list order; after the last the round is over and nothing else has changed |
| `YacRotation.VotesIff` | irohad/consensus/yac/impl/yac.cpp:87-94 | a call of vote sends the vote to the leader and starts the timer if and only if the proposal is not cached as committed and there is a peer |
| `YacRotation.VerifiedMessageCloses` | irohad/consensus/yac/impl/yac.cpp:103-131 | after a verified commit or reject no vote is sent in any run until the next call of vote |
| `YacRotation.UnverifiedIsIgnored` | irohad/consensus/yac/impl/yac.cpp:67-83 | a message that does not verify has no effect at all |
| `YacRotation.VotesFollowOrder` | irohad/consensus/yac/impl/yac.cpp:56-101 | in any run after a call of vote, from any earlier state, all votes sent are for one hash and go to successive peers of the order, each once: from the first peer, or from the second where an older timer resumes because the proposal is already committed |
| `YacRotation.AtMostOneRound` | irohad/consensus/yac/impl/cluster_order.cpp:28-42 | from any earlier state, one call of vote leads to at most n votes in any run, with n - index bounding those to come |
| `YacRotation.OnVoteSendsNoVotes` | irohad/consensus/yac/impl/yac.cpp:133-160 | receiving a vote sends no vote and touches neither order nor timer |
| `YacGate.Gate.Vote` | irohad/consensus/yac/impl/yac_gate_impl.cpp:39-49 | remembers the block and its hash exactly when the orderer knows the peers |
| `YacGate.Gate.OnCommit` | irohad/consensus/yac/impl/yac_gate_impl.cpp:51-67 | signs the remembered block with the votes' signatures in order if the hash is its own, else yields an empty block; a commit without votes is an error |
| `YacGate.CertificateSignsBlock` | irohad/consensus/yac/impl/yac_gate_impl.cpp:53-59 | a block of filtered transactions signed with a committed store's certificate passes the ledger's supermajority check and is accepted, reproducing the validator's state |
| `YacGate.LedgersAgree` | irohad/consensus/yac/impl/yac_hash_provider_impl.cpp:25-37 | consensus on the ledger: where a block hash determines the content, two correct peers that report commits of their remembered blocks in one round remember the same content, and from one ledger state the blocks they sign get the same verdict, world state and top hash unless only one of them verifies |
| `YacGate.OneBlockPerProposal` | irohad/consensus/yac/impl/yac_hash_provider_impl.cpp:25-37 | hashes made of blocks are equal as soon as they name the same proposal, which is the hash of the block |
| `YacGate.SignedByVoters` | irohad/consensus/yac/impl/yac_gate_impl.cpp:53-59 | the signatures of a block signed with a certificate are the genuine ones of exactly the keys that voted, a quorum of the ledger keys |
| `YacGate.CertifiedVerdict` | irohad/validation/impl/chain_validator_impl.cpp:47-54 | a block signed with a certificate always has the supermajority, so verification and application alone decide |
| `Time64.IsLeap` | libs/datetime/time64/time64.c:134 | with C remainders, the Gregorian rule for every year, negative ones included |
| `Calendar.TablesAgree` | libs/datetime/time64/time64.c:57-76 | month lengths, month starts and year lengths agree |
| `Calendar.MonthRule` | libs/datetime/time64/time64.c:57-76 | month and year lengths by the usual rule |
| `Calendar.KnownWeekdays` | libs/datetime/time64/time64.c:633-635 | January 1st of 1970, 1900 and 2000 fall on the known weekdays, and weekdays follow each other |
| `Calendar.YearStartStep` | libs/datetime/time64/time64.c:57-81 | the closed form for January 1st advances by the length of each year |
| `Calendar.YearStartCycles` | libs/datetime/time64/time64.c:79-81 | 400 years are 146097 days and repeat the leap years |
| `Time64.WalkYears` | libs/datetime/time64/time64.c:257-270 | the walk to 1970 in either direction counts the days of the closed form |
| `Time64.TimeGm` | libs/datetime/time64/time64.c:238-282 | the time of every date, given in closed form, whatever its year |
| `Time64.InstantFits` | libs/datetime/time64/time64.c:238-282 | no valid date whose year fits an int leaves the 64-bit range |
| `Time64.CivilIsMonotone` | libs/datetime/time64/time64.c:185-217 | comparing two dates without leap seconds with cmp_date is comparing their times |
| `Time64.InstantIsMonotone` | libs/datetime/time64/time64.c:185-217 | with leap seconds the order is never reversed, and the two comparisons agree if and only if the dates are not a leap second and the second that follows it |
| `Time64.SplitTime` | libs/datetime/time64/time64.c:621-631 | truncating divisions and borrows split a time, negative ones included, into day, hour, minute and second |
| `Time64.WeekdayOf` | libs/datetime/time64/time64.c:633-635 | the day of the week of every day number |
| `Time64.DateForward` | libs/datetime/time64/time64.c:643-664 | year, month and day of every day on or after the start year |
| `Time64.YearForward` | libs/datetime/time64/time64.c:651-657 | the walk forward over years |
| `Time64.MonthForward` | libs/datetime/time64/time64.c:659-664 | the walk forward over months |
| `Time64.DateBackward` | libs/datetime/time64/time64.c:665-690 | year, month and day of every day before the start year |
| `Time64.YearBackward` | libs/datetime/time64/time64.c:675-681 | the walk backward over years |
| `Time64.MonthBackward` | libs/datetime/time64/time64.c:683-689 | the walk backward over months |
| `Time64.Epochs` | libs/datetime/time64/time64.c:129-131 | the 2008 shortcut is consistent with the calendar |
| `Time64.DateOfDay` | libs/datetime/time64/time64.c:636-690 | with the 2008 shortcut, the date of every day number |
| `Time64.GmTime` | libs/datetime/time64/time64.c:589-717 | a date exactly when the year fits an int; it satisfies check_tm, denotes the time, and has the right weekday and day of the year |
| `Time64.YearFitsIff` | libs/datetime/time64/time64.c:698-703 | a date's year overflows exactly when its time lies outside two bounds |
| `Time64.TimeRoundTrip` | libs/datetime/time64/time64.c:238-282 | timegm64(gmtime64_r(t)) = t for every t whose year fits |
| `Time64.CheckTmIff` | libs/datetime/time64/time64.c:285-318 | check_tm accepts a date with its right weekday and day of the year if and only if it is one that may name a leap second; the day of the year may be one too large |
| `Time64.LeapDayOf2000` | libs/datetime/time64/time64.c:238-282 | known time of February 29th, 2000 |
| `Time64.BillionSeconds` | libs/datetime/time64/time64.c:238-282 | known date of the time 1000000000 |
| `Time64.EndOf32BitTime` | libs/datetime/time64/time64.c:238-282 | known date of the last 32-bit time |
| `Time64.LeapSecondOf2008` | libs/datetime/time64/time64.c:185-217 | a concrete pair of different valid dates, 2008-12-31 23:59:60 and 2009-01-01 00:00:00, with one time |
| `Time64.DateRoundTrip` | libs/datetime/time64/time64.c:589-717 | gmtime64_r(timegm64(d)) is d, completed, for every valid date with at most 59 seconds; with a leap second it is a strictly later date; there is none if and only if d is the leap second at the end of the last 32-bit year |
| `Time64.LeapSecondFitsIff` | libs/datetime/time64/time64.c:698-703 | only that leap second overflows the year |
| `Time64.DateIsUnique` | libs/datetime/time64/time64.c:285-318 | an instant has one date |
| `Time64.LeapSecondIsLater` | libs/datetime/time64/time64.c:285-318 | a date naming a leap second has the instant of a later date |
| `SafeYear.SafeYear` | libs/datetime/time64/time64.c:359-401 | the result lies in 1971..2037 |
| `SafeYear.SafeYearIsEquivalent` | libs/datetime/time64/time64.c:359-401 | for every integer year: same leap status, same weekday on January 1st, same leap status of the year before, and the next year starts on the same weekday |
| `SafeYear.SafeYearWindow` | libs/datetime/time64/time64.c:359-401 | which equivalent year it is: itself in the safe range, one of 1971..1998 for earlier years and of 2010..2037 for later ones |
| `SafeYear.KnownSafeYears` | libs/datetime/time64/time64.c:359-401 | the results for the years next to the range and around the centuries 1900 and 2100 |
| `SafeYear.CycleOffsetIs` | libs/datetime/time64/time64.c:324-340 | both branches give 16 years for each skipped leap day since 1971, despite truncation |
| `SafeYear.TableLookup` | libs/datetime/time64/time64.c:88-111 | both tables give the safe year congruent modulo 28 to the equivalent Julian year |
| `SafeYear.JulianLeap` | libs/datetime/time64/time64.c:359-401 | the shifted year has the leap days of the Gregorian one |
| `SafeYear.JulianWeekday` | libs/datetime/time64/time64.c:359-401 | and starts on the same day of the week |
| `SafeYear.IsLeapAbs` | libs/datetime/time64/time64.c:135 | the Gregorian rule for positive years; of the others only every 400th |
| `SafeYear.CountUp` | libs/datetime/time64/time64.c:529-536 | counting up gives the distance of the two January 1sts in the macro's own calendar |
| `SafeYear.CountDown` | libs/datetime/time64/time64.c:537-544 | counting down gives the distance of the two December 31sts in it |
| `SafeYear.AbsStartStep` | libs/datetime/time64/time64.c:135 | that calendar is the Gregorian one but for the leap days it misses before year 1 |
| `SafeYear.NothingMissedIff` | libs/datetime/time64/time64.c:135 | no leap day is missed from a year on if and only if the year is above -4 |
| `SafeYear.YearReduced` | libs/datetime/time64/time64.c:515-527 | whole cycles move a year above 2400 towards it and a year up to 1200 away from 1600 |
| `SafeYear.SecondsBetweenYears` | libs/datetime/time64/time64.c:510-545 | for every pair of years from which the loops reach their goal: exact if and only if left > 1200 and either left > right > -4, or left <= right and both years have the same length; the error in the other cases |
| `SafeYear.RunsAwayIff` | libs/datetime/time64/time64.c:529-536 | the other pairs are exactly those in which the upward loop never meets its goal, however far it counts |
| `SafeYear.RunsAwayFrom2900` | libs/datetime/time64/time64.c:515-519 | the years 3000 and 2900 are such a pair |
| `SafeYear.DistanceToSafeYear` | libs/datetime/time64/time64.c:510-545 | to the safe year of any year: exact if and only if the year is above 1200 |
| `SafeYear.DistanceFrom1200` | libs/datetime/time64/time64.c:521-527 | the year 1200 is a concrete failure |
| `FixedPoint.IPow` | libs/common/types.hpp:195-204 | the squaring loop is the power in 32-bit arithmetic for every exponent |
| `FixedPoint.GetJointAmount` | libs/common/types.hpp:181-184 | scaled integer part plus fraction, modulo 2^64 |
| `FixedPoint.DigitsBound` | libs/common/types.hpp:179 | a fraction has at most p digits exactly when p >= 1 and it is below 10^p |
| `FixedPoint.SquaringIs` | libs/common/types.hpp:195-204 | what the loop does to its variables multiplies the result by the power, for any result, base and exponent |
| `FixedPoint.ScaleIsExactIff` | libs/common/types.hpp:195-204 | the scale is 10^p if and only if p <= 9 |
| `FixedPoint.LargeScales` | libs/common/types.hpp:195-204 | the scales that overflow leaves for precisions 10 to 19, four of them negative |
| `FixedPoint.JointIsValueIff` | libs/common/types.hpp:181-184 | a joint value is int * 10^p + frac if and only if that is below 2^64 and p <= 9 or the integer part is 0, for every amount and precision |
| `FixedPoint.WrapsIff` | irohad/model/impl/stateful_command_validation.cpp:43-51 | some accepted amount wraps some stored balance around 2^64 if and only if the precision is 12, 15, 18 or more |
| `FixedPoint.JointIsExact` | irohad/model/impl/stateful_command_validation.cpp:43-51 | an accepted amount of precision up to 9 has a fraction below 10^p and an exact joint value below 2^63 |
| `FixedPoint.JointOrders` | libs/common/types.hpp:181-184 | up to precision 9 joint values order accepted amounts by integer part then fraction, and are injective |
| `FixedPoint.OrdersIff` | libs/common/types.hpp:181-184 | they order all accepted amounts of a precision if and only if it is at most 9 |
| `Database.Connection.Run` | irohad/ametsuchi/impl/postgres_wsv_command.cpp:27-63 | a failing statement yields false and changes nothing |
| `Database.Connection.Add` | irohad/model/impl/command_execution.cpp:37-69 | AddAssetQuantity on the tables in place, statement by statement |
| `Database.Connection.OpenAccount` | irohad/model/impl/command_execution.cpp:95-109 | CreateAccount: signatory, account and their link, in this order |
| `Database.Connection.Transfer` | irohad/model/impl/command_execution.cpp:157-206 | TransferAsset: destination row, then source row |
| `Database.Connection.Execute` | irohad/model/impl/command_execution.cpp:37-206 | each of the eleven commands changes the tables as the specification Execute says, also when it fails half way |
| `CommandEffects.AddEffect` | irohad/model/impl/command_execution.cpp:37-69 | AddAssetQuantity: exactly when it succeeds and when an issuer may run it, and the one wallet it writes |
| `CommandEffects.AddPeerEffect` | irohad/model/impl/command_execution.cpp:71-78 | AddPeer: exactly for a new key and a new address of at most 21 characters, by anyone; the one new row |
| `CommandEffects.AddSignatoryEffect` | irohad/model/impl/command_execution.cpp:80-83 | AddSignatory: exactly for an existing account and key not yet linked, by the owner or an administrator; the one new row |
| `CommandEffects.AssignMasterKeyEffect` | irohad/model/impl/command_execution.cpp:85-93 | AssignMasterKey: exactly when it succeeds and when it may be run; only the master key changes |
| `CommandEffects.CreateAccountEffect` | irohad/model/impl/command_execution.cpp:95-109 | CreateAccount: exactly when it succeeds and when it may be run; the three new rows, without rights and with quorum 1; what a failure leaves behind |
| `CommandEffects.CreateAssetEffect` | irohad/model/impl/command_execution.cpp:111-119 | CreateAsset: exactly when it succeeds and when it may be run; the one new row with the given precision |
| `CommandEffects.CreateDomainEffect` | irohad/model/impl/command_execution.cpp:121-127 | CreateDomain: exactly when it succeeds and when it may be run; the one new row |
| `CommandEffects.RemoveSignatoryEffect` | irohad/model/impl/command_execution.cpp:129-133 | RemoveSignatory: always succeeds and removes just the pair; may be run for any key but the master key |
| `CommandEffects.SetPermissionsEffect` | irohad/model/impl/command_execution.cpp:135-144 | SetAccountPermissions: exactly when it succeeds and when it may be run; the account then has exactly the new permissions |
| `CommandEffects.SetQuorumEffect` | irohad/model/impl/command_execution.cpp:146-155 | SetQuorum: exactly when it succeeds and when it may be run; only the quorum changes |
| `CommandEffects.TransferEffect` | irohad/model/impl/command_execution.cpp:157-206 | TransferAsset executed: exactly when it succeeds, both rows it writes, and the destination row that a failing source leaves behind |
| `CommandEffects.TransferRunsIff` | irohad/model/impl/stateful_command_validation.cpp:211-236 | TransferAsset validated and executed: exactly for the owner with the right, an amount the wallet holds and a destination that stays below 2^63 |
| `Validator.TemporaryWsv.Check` | irohad/validation/impl/stateful_validator_impl.cpp:33-56 | quorum, signatories, then validate and execute every command until one fails |
| `Validator.TemporaryWsv.Apply` | irohad/ametsuchi/impl/temporary_wsv_impl.cpp:23-35 | a transaction that fails leaves no trace |
| `Validator.ValidateProposal` | irohad/validation/impl/stateful_validator_impl.cpp:29-77 | the kept transactions and the final state are those of the specification Filter; the height is kept |
| `Validator.FilterKeepsOrder` | irohad/validation/impl/stateful_validator_impl.cpp:33-73 | the result is the subsequence, in order, of exactly the transactions that are admissible at their turn |
| `Validator.AdmissibleIff` | irohad/validation/impl/stateful_validator_impl.cpp:33-56 | a transaction passes if and only if its creator has an account, its signatures reach that account's quorum, and each command, at its turn, is allowed to the creator and executes |
| `Validator.RunCommandsIff` | irohad/validation/impl/stateful_validator_impl.cpp:49-54 | the commands pass if and only if each does at its turn |
| `Validator.ExecuteAllIff` | irohad/validation/impl/chain_validator_impl.cpp:37-44 | a block's commands execute if and only if each does at its turn |
| `Validator.ExecuteAllState` | irohad/validation/impl/chain_validator_impl.cpp:37-44 | and then the state is that after the last turn |
| `Validator.ReplayReproduces` | irohad/validation/impl/chain_validator_impl.cpp:32-45 | executing only the kept commands from the same start never fails and reaches the validator's final state |
| `Validator.FilterIsIdempotent` | irohad/validation/impl/stateful_validator_impl.cpp:29-77 | filtering a filtered proposal changes nothing |
| `Validator.RunIsExecution` | irohad/validation/impl/stateful_validator_impl.cpp:49-54 | validation adds no effect to a run that passes |
| `Validator.ExecuteAllAppend` | irohad/validation/impl/chain_validator_impl.cpp:37-44 | executing a concatenation is executing one part after the other, stopping at a failure |
| `Conservation.TransferIsExact` | irohad/model/impl/command_execution.cpp:157-206 | a validated transfer moves exactly its joint amount; neither side wraps and no other balance changes |
| `Conservation.TransferPaysValueIff` | irohad/model/impl/command_execution.cpp:157-206 | what the source pays is int * 10^p + frac if and only if that is below 2^64 and p <= 9 or the integer part is 0 |
| `Conservation.WrappedTransferExample` | irohad/model/impl/stateful_command_validation.cpp:211-236 | a concrete validated transfer of 2^63 units that moves nothing |
| `Conservation.AddIsExact` | irohad/model/impl/command_execution.cpp:37-69 | a successful issue, at any precision, adds exactly its joint amount if and only if the sum is below 2^64, and changes no other balance |
| `Conservation.AddFlowIff` | irohad/model/impl/command_execution.cpp:59-68 | it raises the asset's total by its joint amount under exactly that condition |
| `Conservation.WrappedIssueExample` | irohad/model/impl/command_execution.cpp:59-68 | at precision 12 a concrete validated issue of one unit destroys the whole supply |
| `Conservation.TransferConservesIff` | irohad/model/impl/command_execution.cpp:200-206 | a validated transfer conserves the total if and only if source and destination differ or the amount is zero |
| `Conservation.SelfTransferExample` | irohad/model/impl/command_execution.cpp:200-206 | a concrete validated self-transfer that destroys the amount |
| `Conservation.CommandFlow` | irohad/model/impl/command_execution.cpp:37-206 | a validated command changes an asset's total, at any precision, by what it issues minus what a self-transfer burns minus 2^64 where an issue wraps |
| `Conservation.RunFlow` | irohad/validation/impl/stateful_validator_impl.cpp:49-54 | the same over a transaction |
| `Conservation.Conserved` | irohad/validation/impl/stateful_validator_impl.cpp:29-77 | the same over every run of the validator, for every asset |
| `Conservation.ConservedIff` | irohad/validation/impl/stateful_validator_impl.cpp:29-77 | over every run the total changes by issues and burns alone if and only if no issue of the asset wraps at its turn |
| `Conservation.OnlyIssueChangesTotal` | irohad/validation/impl/stateful_validator_impl.cpp:29-77 | over every run the total grows by exactly what is issued if and only if nothing is burned and no issue wraps; without self-transfers nothing is burned |
| `Conservation.SafePrecisionConserves` | irohad/validation/impl/stateful_validator_impl.cpp:29-77 | at precisions up to 11, 13, 14, 16 and 17 no run contains a wrapping issue |
| `Conservation.PrecisionZeroIsFixed` | irohad/model/impl/command_execution.cpp:43-45 | whatever is executed, validated or not, the wallets of an asset of precision 0 never change |
| `Conservation.BalancesStayOk` | irohad/ametsuchi/impl/storage_impl.hpp:123-129 | every execution keeps all balances below 2^63, validated or not |
| `Signatories.ExecuteKeepsReferential` | irohad/ametsuchi/impl/storage_impl.hpp:85-138 | every execution keeps the references between the tables |
| `Signatories.CommandKeepsKeyedIff` | irohad/model/impl/command_execution.cpp:85-155 | an executed command keeps each master key among its account's signatories and each quorum in 1..9 if and only if it does not remove a master key, assign one that is no signatory, or set a quorum outside 1..9 |
| `Signatories.ValidatedKeepsKeys` | irohad/model/impl/stateful_command_validation.cpp:81-203 | validation lets none of those commands through |
| `Signatories.StaysKeyedIff` | irohad/validation/impl/chain_validator_impl.cpp:37-44 | over every sequence of commands that executes, the keys are whole throughout if and only if no command breaks them at its turn |
| `Signatories.ChainStaysKeyedIff` | irohad/validation/impl/chain_validator_impl.cpp:29-66 | the same for every accepted chain of blocks |
| `Signatories.FilterKeepsKeys` | irohad/validation/impl/stateful_validator_impl.cpp:29-77 | the kept transactions of any run contain no such command at its turn |
| `Signatories.MasterKeysStay` | irohad/validation/impl/stateful_validator_impl.cpp:29-77 | so over every run of the validator master keys stay signatories and quorums stay in 1..9, after every single command |
| `Signatories.UnvalidatedCommandUnkeys` | irohad/model/impl/command_execution.cpp:129-133 | a concrete command that, executed without validation as in a block, removes a master key |
| `Signatories.RemoveSucceeds` | irohad/model/impl/command_execution.cpp:129-133 | RemoveSignatory always succeeds and changes nothing for a key that is no signatory |
| `Signatories.CommandKeepsSignableIff` | irohad/model/impl/command_execution.cpp:129-155 | a command keeps every quorum within the number of signatories if and only if it does not set a higher one or remove a signatory that the quorum needs |
| `Signatories.StaysSignableIff` | irohad/validation/impl/chain_validator_impl.cpp:37-44 | the same throughout every sequence of commands that executes |
| `Signatories.ValidatedCommandOverasks` | irohad/model/impl/stateful_command_validation.cpp:195-203 | a concrete validated command that sets a quorum of nine for an account with one key |
| `Authorization.NoEscalation` | irohad/model/impl/stateful_command_validation.cpp:183-187 | while nobody may set permissions, a right that nobody holds is held by nobody after any run |
| `Authorization.OnlyOwnerChanges` | irohad/model/impl/stateful_command_validation.cpp:59-203 | where nobody administers, an account that creates none of the kept transactions keeps its row and signatories over any run |
| `Authorization.OthersCredit` | irohad/validation/impl/stateful_validator_impl.cpp:29-77 | over every run that keeps none of its transactions, an account's balance changes by what it is credited minus 2^64 for each issue that wraps it |
| `Authorization.OnlyOwnerSpends` | irohad/model/impl/stateful_command_validation.cpp:211-236 | such a balance falls at no command if and only if no issue to it wraps at its turn, and then ends no lower, whoever administers |
| `Authorization.SafePrecisionKeepsBalance` | irohad/model/impl/stateful_command_validation.cpp:211-236 | at the safe precisions it therefore never falls |
| `Authorization.IssueEmptiesWallet` | irohad/model/impl/command_execution.cpp:59-68 | at precision 12 a concrete run in which an issuer empties somebody else's wallet by adding one unit to it |
| `Authorization.NobodyIssues` | irohad/model/impl/stateful_command_validation.cpp:43-51 | where nobody may issue or set permissions, no run increases the total of an asset |
| `Authorization.NobodyCreates` | irohad/model/impl/stateful_command_validation.cpp:108-159 | where nobody may create or set permissions, no run adds a domain, asset, account or key |
| `Chain.MutableStorage.constructor` | irohad/ametsuchi/impl/mutable_storage_impl.cpp:40-54 | a storage starts from the given tables and top hash with no blocks |
| `Chain.MutableStorage.ExecuteTransactions` | irohad/validation/impl/chain_validator_impl.cpp:37-44 | the nested loops execute the commands in order and stop at the first failure |
| `Chain.MutableStorage.Apply` | irohad/ametsuchi/impl/mutable_storage_impl.cpp:23-38 | a block that links and executes moves the state, the top hash and the kept blocks; any other leaves all three |
| `Chain.MutableStorage.Validate` | irohad/validation/impl/chain_validator_impl.cpp:29-55 | supermajority, verification, application, in this order |
| `Chain.MutableStorage.ValidateAll` | irohad/validation/impl/chain_validator_impl.cpp:57-66 | blocks are taken until one fails |
| `Chain.ChainAccepted` | irohad/validation/impl/chain_validator_impl.cpp:29-77 | true exactly when each block links, verifies, has 3 * sigs >= 2 * peers + 1 for the peers in force at its point, and executes; then the state is the fold of all commands and the top hash the last block's |
| `Chain.ChainValidAppend` | irohad/validation/impl/chain_validator_impl.cpp:57-66 | a valid chain continued is valid if and only if the continuation is valid after it |
| `Chain.RejectionKeepsPrefix` | irohad/validation/impl/chain_validator_impl.cpp:57-66 | on rejection the storage holds the longest valid prefix: the first block that does not fit leaves no trace |
| `Chain.RejectionStands` | irohad/validation/impl/chain_validator_impl.cpp:57-66 | blocks after a rejected one are not looked at |
| `Chain.FilteredBlockAccepted` | irohad/validation/impl/chain_validator_impl.cpp:29-55 | a linked, verified block of filtered transactions with a quorum of signatures is accepted and reproduces the validator's state |
| `Chain.BlocksKept` | irohad/ametsuchi/impl/mutable_storage_impl.cpp:31 | after an accepted chain the block store holds, of all blocks with equal height modulo 2^32, the first, and nothing else |
| `Synchronizer.Synchronizer.ProcessCommit` | irohad/synchronizer/impl/synchronizer_impl.cpp:39-80 | commits and announces the agreed block if valid, else the first valid chain among its signers' answers, else nothing; the ledger stays the replay of everything announced, and while each call is given the last announced hash, all announced chains together stay one valid chain |
| `Synchronizer.Synchronizer.Commit` | irohad/synchronizer/impl/synchronizer_impl.cpp:73-74 | the validated storage becomes the ledger and the chain is announced |
| `Synchronizer.ChoiceIff` | irohad/synchronizer/impl/synchronizer_impl.cpp:39-80 | exactly what is committed: the agreed block if valid, otherwise the answer of the first signer in the list with a valid answer for whose turn storages can be created |
| `Synchronizer.ChoiceIsValid` | irohad/synchronizer/impl/synchronizer_impl.cpp:46-77 | whatever is committed is fully valid and is the agreed block or a signer's answer |
| `Synchronizer.OneBlock` | irohad/synchronizer/impl/synchronizer_impl.cpp:46-53 | validating a block is validating the chain of that block |
| `Lookup3.MixState` | libs/crypto/lookup3.c:116-124 | the macro computes the specification Mix |
| `Lookup3.MixIsBijective` | libs/crypto/lookup3.c:116-124 | mix has a two-sided inverse on triples of words |
| `Lookup3.FinalState` | libs/crypto/lookup3.c:151-160 | the macro computes the specification Final |
| `Lookup3.Masks` | libs/crypto/lookup3.c:320-333 | masking a word read past the end keeps exactly the bytes inside |
| `Lookup3.Take` | libs/crypto/lookup3.c:293-451 | word, half-word and byte reads of up to four bytes add the same word |
| `Lookup3.TakeBlock` | libs/crypto/lookup3.c:293-451 | each strategy adds the same block, whole or last |
| `Lookup3.DigestBlock` | libs/crypto/lookup3.c:298-306 | one turn of the loop moves a block from the key into the state without changing the digest |
| `Lookup3.DigestRest` | libs/crypto/lookup3.c:308-333 | the last switch completes the digest; an empty rest leaves the state as it is |
| `Lookup3.HashBytes` | libs/crypto/lookup3.c:293-451 | the loop gives the digest of the first length bytes and of nothing after them, for each of the three strategies |
| `Lookup3.HashLittle` | libs/crypto/lookup3.c:284-451 | for every alignment, the reference hash of the bytes and the seed |
| `Lookup3Vectors.EmptyKeys` | libs/crypto/lookup3.c:974-979 | the known answers on the empty key for three pairs of seeds |
| `Lookup3Vectors.KnownAnswers` | libs/crypto/lookup3.c:980-988 | the known answers on the 30-byte text for both words and the seeds 0 and 1 |
| `Lookup3.DigestIs` | libs/crypto/lookup3.c:293-451 | a key of n bytes has (n - 1) / 12 blocks mixed in and its last one to twelve bytes finalised, also where n is a multiple of twelve |
| `Lookup3.HashLittle2` | libs/crypto/lookup3.c:464-636 | both words of the reference hash; the first one equals hashlittle's when the second seed is 0 |
| `Lookup3.HashWord` | libs/crypto/lookup3.c:175-208 | on the packed words of a key, the same hash as on its bytes |
| `Lookup3.LengthInBytes` | libs/crypto/lookup3.c:182-183 | shifting the number of words gives the number of bytes modulo 2^32 |
| `MapQueue.MapQueue.constructor` | libs/map_queue/map_queue.hpp:58 | a new queue is empty and keeps the invariant |
| `MapQueue.MapQueue.Set` | libs/map_queue/map_queue.hpp:87-94 | a new key is stored at the end, a known one is left alone; the maxima stay the suffix maxima |
| `MapQueue.MapQueue.PopLast` | libs/map_queue/map_queue.hpp:48-55 | the oldest key goes, with its value; the maxima stay the suffix maxima |
| `MapQueue.MapQueue.SetCacheSize` | libs/map_queue/map_queue.hpp:78-83 | the newest keys that fit remain, with their values |
| `MapQueue.MapQueue.GetMaxKey` | libs/map_queue/map_queue.hpp:112-115 | the largest stored key; an error exactly on the empty queue |
| `MapQueue.MapQueue.Clear` | libs/map_queue/map_queue.hpp:121-125 | nothing remains |
| `MapQueue.MaximaDecrease` | libs/map_queue/map_queue.hpp:87-94 | the maxima strictly decrease and the first is the largest key of all |
| `MapQueue.MaximaAre` | libs/map_queue/map_queue.hpp:87-94 | they are exactly the keys larger than all that came after them |
| `MapQueue.MaximaAfterAppend` | libs/map_queue/map_queue.hpp:90-91 | dropping smaller ones at the end and appending the key gives the maxima of the longer queue |
| `MapQueue.FrontMaximum` | libs/map_queue/map_queue.hpp:50-52 | comparing only the two fronts suffices to keep the maxima when the oldest key goes |
| `Base64.EncodeBytes` | libs/crypto/base64.hpp:53-92 | the buffer loop computes the recursive encoding |
| `Base64.PushByte` | libs/crypto/base64.hpp:61-74 | one byte into the buffer; a full buffer becomes four characters |
| `Base64.EncodeRest` | libs/crypto/base64.hpp:76-89 | the last bytes with padding |
| `Base64.Find` | libs/crypto/base64.hpp:95-100 | the position of a character in the table, or -1 |
| `Base64.DecodeString` | libs/crypto/base64.hpp:102-147 | the buffer loop computes the recursive decoding of the longest valid prefix |
| `Base64.Push` | libs/crypto/base64.hpp:113-130 | one character into the buffer; a full buffer becomes three bytes |
| `Base64.DecodeRest` | libs/crypto/base64.hpp:132-144 | the last characters |
| `Base64.EncodingShape` | libs/crypto/base64.hpp:53-92 | length 4 * ceil(n / 3); alphabet characters followed by the padding of section 4 of RFC 4648 |
| `Base64.FirstGroup` | libs/crypto/base64.hpp:61-89 | the first four characters are the 24-bit number of the first three bytes, with zero bits for missing ones, as in section 4 of RFC 4648 |
| `Base64.EncodeFrom` | libs/crypto/base64.hpp:61-89 | and so is every later group, since groups are encoded each on its own |
| `Base64.KnownEncodings` | libs/crypto/base64.hpp:53-92 | vectors of section 10 of RFC 4648 and one with the last two characters of the alphabet |
| `Base64.DecodedLength` | libs/crypto/base64.hpp:113-144 | decoding any string stops at the first character outside the alphabet and gives the whole bytes among the bits before it |
| `Base64.DecodedByte` | libs/crypto/base64.hpp:113-144 | each decoded byte comes from the two characters that hold its bits and from nothing else |
| `Base64.RoundTrip` | libs/crypto/base64.hpp:53-147 | decoding an encoding gives the bytes back, for every byte sequence |
| `Base64.EncodeIsInjective` | libs/crypto/base64.hpp:53-92 | different byte sequences have different encodings |

## Left out

- SecondsBetweenYears: not for pairs of years in which the reduced left-hand year falls below a right-hand year that was below it, where the upward loop of the source steps away from its goal and ends only by overflow.
- HasSupermajority: the quotient is exact, over `real`; rounding of `double` for huge peer counts is not modelled.
- CheckSupermajority: the same; and a failing query for the peers is not modelled.
- TimeGm: the fields of a date are unbounded integers, so the overflow of an `int` field product is not modelled; `InstantFits` shows that valid dates do not reach it.
- IPow: signed overflow, undefined in C++, is taken as two's complement wrap-around; the exponent is not negative, as at its only caller.
- Agreement: for a round in which every correct peer votes for one hash and all orders list the n ledger keys' number of peers; a change of the peer set during a round is not modelled.
- LedgersAgree: takes as given that the block hash, whose computation is not modelled, determines everything but the signatures.
- QuorumReachesPeers: says what happens once a message arrives; that messages do arrive, and so termination of a round, depends on the network and is not claimed.
- OnReject: reject messages carry no further meaning, since the source only closes the round; the reject branches of the proposal storage are dead (`hasRejectProof` always answers false) and `applyReject` is a stub.
- SwitchToNext: the index does not wrap at 32 bits.
- HashLittle, HashLittle2, HashBytes: the 32-bit path needs the whole last word to be readable, as the source assumes; the variant for memory checkers and big-endian machines are not modelled.
- HashWord: for word arrays of any length, but `hashword2` and `hashbig` are not modelled.
- PopLast: the popped key is a copy; the source keeps a reference to it past its removal.
- Find, DecodeString: the character test is that of the C locale.
- Run: after an error the database refuses further statements until the rollback to the savepoint; no command issues one after a failure and both callers roll back, so that state is not modelled.
- ProcessCommit: the hash of the last stored block, which the source reads back from its block files, and the answers of the block loader are parameters; writing committed blocks to the block store and the index is not modelled.
- `mktime64`, `localtime64_r`, `asctime64_r`: they call the system library or only format text.
- Block storage on disk, the key-value index and `StorageImpl::commit`'s last identifier: input and output, and an order the source leaves to a hash table.
- Queries, stateless validation, the ordering service, peer service, torii, JSON and protobuf converters, CLI: plumbing or easy members.
- SHA-3, Ed25519 and the model hash provider: foreign code; kept abstract.
