# TrustFlow in Dafny

This project models the core of TrustFlow, a chain-of-custody framework for shared
documents, and proves what its protocols and data structures promise. It covers:

- threshold secret sharing over a prime field, from bytes to printed shares and back;
- the cascading deletion protocol between peers, and the storage it works on;
- the custody forest of documents, and path search in it;
- gossip dissemination, and duplicate and replay suppression under a clock;
- boardroom proposals that several members approve at the same time;
- two hash-chained logs, the time-lock key store and the zero-width watermark.

`dafny verify dfyconfig.toml` checks the whole project.

## How to read it

| file | what it holds |
|---|---|
| `Modular`, `Polynomial` | congruences, extended Euclid, Lagrange's formula and uniqueness of interpolation |
| `Text`, `Encoding` | split and join, stripping, big-endian bytes, hexadecimal, chunks |
| `SecretSharing`, `Secrecy` | split and reconstruct, and why fewer shares say nothing |
| `Integrity` | what reconstruction answers on shares of any origin, and what the MAC covers |
| `Storage` | the in-memory storage with its reverse index |
| `Deletion`, `Cascade`, `DeletionRuns` | the protocol, the cascade on bare pairs, and what every delivery order does |
| `DeletionSafety` | what one token of any age and signature may do, and what no run can do |
| `PathSearch`, `Custody` | bounded searches, the forest built by uploads and shares |
| `CustodyHistory` | which event made each row, owner and recipient |
| `GossipSpread`, `MessageCache`, `TokenCache` | spread of one message, the two caches |
| `DispatchHistory` | when a gossip message reaches its handler, told from the history of the peer |
| `Boardroom`, `TimedUnlock` | approvals as a state machine over database calls, unlocking by shares and by time-lock |
| `Approvals` | whose share an approval submits, and what it answers |
| `AuditLog` | the log in memory |
| `Separator`, `AuditFile`, `UniversalLines`, `AuditFileRuns` | the log in a file: splitting at separators, the text, its lines, and which runs verify |
| `TimeLock`, `LockStatus` | the key store, and the status of a lock from its history |
| `Watermark` | the text codec |

Code that updates objects or lists is modelled by classes and loops
(`InMemoryStorage`, `Network`, `AllPaths`, `GossipPeer`, `MessageCache`,
`ProcessedTokenCache`, `TamperEvidentLog`, `TimeLockEngine`), each proved against
functions on values; the laws are then lemmas about those functions.

Random draws, clock readings, signature verdicts, the order in which a set is
iterated and the order of deliveries are parameters, so each law holds for all of
them. SHA-256, HMAC, AES-GCM and the UTF-8 codec of secret sharing are function values with
stated laws (`SecretSharing.Crypto.Laws`, `AuditLog.GoodHash`, `AuditFile.Hashing`, `TimedUnlock.Json.Laws`);
only `Integrity.MacCovers` takes the HMAC as injective.
That 2^256 - 189 is prime is a hypothesis (`IsPrime(PRIME())`).

## Where the code does less than one would expect

Each of these is proved, with the exact condition.

- A gossip message is dispatched a second time only if it is stamped ahead of the
  clock that first marked it, or if a cleanup dropped its entry for lack of room
  (`MessageCache.SecondDispatchNeeds`). Unless it is dropped, a second dispatch is
  possible if and only if it is stamped ahead (`MessageCache.SecondDispatchIff`), and
  an overfull cache does lead to one (`MessageCache.OverfullDispatchesTwice`).
- With the cache not cleared by hand, a deletion token can be accepted a second time if
  and only if it is stamped at least one validity period ahead of its first mark
  (`TokenCache.SecondAcceptanceIff`).
- Forwarding a node whose content the peer does not store leaves a node without
  content; no other storage operation does (`Storage.ApplyBackedIff`). Forwarding a
  held node after its deletion is such a case (`Storage.ForwardAfterDelete`).
- After any run of events and one more acceptable event, the log file verifies if and
  only if every event was acceptable (`AuditFileRuns.VerifiesIff`): no field with a line
  break, a kind that is not empty and begins neither with `#` nor with whitespace, and
  five fields that, joined by ` | `, fall into five parts whose last does not end in
  ` |`. Inputs that fail are in `AuditFileRuns.ThreeUnacceptable`. A ` | ` in the target
  is logged by trustdocs/boardroom/routes.py:215-220 for every proposal with a non-zero
  time-lock, and by 443-447 and 451-455 on every unlock.
- Without a time-lock a proposal with empty content is never unlocked
  (`TimedUnlock.PlainUnlockIff`); with one, the empty content is returned
  (`TimedUnlock.TimedUnlockIff`).
- `truncated` means that at least `max_paths` simple paths within the depth exist, so it
  is set though nothing is left out exactly when there are `max_paths` of them
  (`PathSearch.AllSimplePaths`; a graph with one edge in
  `PathSearch.TruncatedThoughComplete`).
- `destroy` answers differently depending on whether a cleanup pass has been there,
  exactly for a key stored past its expiry; the status it leaves differs too unless the
  lock is unknown or already destroyed (`TimeLock.DestroySeesCleanupIff`). So a lock is
  reported as destroyed exactly if it was never made or a destroy met its key still
  stored (`LockStatus.StatusAfterRun`).
- A processed token is remembered for twice the validity, and at most one cleanup
  interval longer (`TokenCache.VerdictOverRun`).
- The MAC of a share covers its index and the text of value and hash together; value and
  hash separately only under one hash (`Integrity.MacCovers`).
- The zero-width codec writes UTF-8 and reads one character per byte. After a text
  without markers it restores exactly the non-empty ASCII texts
  (`Watermark.RoundTripIff`); JSON output is ASCII.
- Without the linguistic step, stripping watermarks restores the text exactly when it
  held no zero-width character and no line of it ended in whitespace
  (`Watermark.StripRestoresIff`).

## Model

| member | source | states |
|---|---|---|
| Modular.ModInverseCorrect | coc_framework/core/secret_sharing.py:37-47 | the inverse lies in [1, p), times a it is 1 modulo the prime, and below 2^k the recursion nests at most 2k + 1 calls |
| Modular.EuclidCallsBound | coc_framework/core/secret_sharing.py:38-44 | extended Euclid on a < 2^k makes at most 2k + 1 nested calls |
| Polynomial.AgreeingPolynomials | coc_framework/core/secret_sharing.py:50-54 | polynomials that agree modulo a prime on as many distinct points as they have coefficients are congruent |
| Polynomial.InterpolantPasses | coc_framework/core/secret_sharing.py:50-54 | through any values at distinct points there is such a polynomial |
| Polynomial.WeightsSumToOne | coc_framework/core/secret_sharing.py:61-72 | the Lagrange coefficients that the code computes add up to 1 |
| Polynomial.LagrangeAtZero | coc_framework/core/secret_sharing.py:57-75 | the weighted sum of the values of any polynomial with at most as many coefficients as points is its constant term |
| Text.Split | coc_framework/core/secret_sharing.py:240-246 | splitting never loses anything: joining the parts gives the text back |
| Text.SplitJoin | coc_framework/core/secret_sharing.py:177-178 | splitting a joined list gives the list back when no part holds the separator's mark |
| Encoding.BytesRoundTrip | coc_framework/core/secret_sharing.py:78-83 | bytes to number to bytes of the same length is the identity |
| Encoding.HexRoundTrip | coc_framework/core/secret_sharing.py:177-178 | parsing a printed share value gives the number back |
| Encoding.HexInCapitals | coc_framework/core/secret_sharing.py:247 | numbers read the same in capitals, prefix included |
| Encoding.BytesHexRoundTrip | coc_framework/core/secret_sharing.py:190-191 | ciphertext and nonce survive their hexadecimal form |
| Encoding.BlocksKeepData | coc_framework/core/secret_sharing.py:198-205 | the padded 31-byte blocks, concatenated, begin with the data |
| Encoding.SplitIntoChunks | coc_framework/core/secret_sharing.py:198-210 | the loop yields length header and blocks, and fails exactly when the length does not fit four bytes |
| Encoding.TakeFromEnd | coc_framework/core/secret_sharing.py:245 | a slice with a negative bound counts from the end |
| SecretSharing.EvaluatePolynomial | coc_framework/core/secret_sharing.py:50-54 | the loop over powers computes the polynomial modulo the prime |
| SecretSharing.WeightParts | coc_framework/core/secret_sharing.py:61-70 | numerator and denominator are the two products over all other points |
| SecretSharing.LagrangeInterpolation | coc_framework/core/secret_sharing.py:57-75 | the double loop computes Lagrange's value at zero |
| SecretSharing.InterpolateRecovers | coc_framework/core/secret_sharing.py:57-75 | distinct points on a polynomial, at least as many as coefficients, give its constant term exactly |
| SecretSharing.SplitSecret | coc_framework/core/secret_sharing.py:126-195 | the nested loops produce every share of the split, and every argument error in the code's order |
| SecretSharing.ReconstructSecret | coc_framework/core/secret_sharing.py:213-279 | checks, per-chunk interpolation, length cut, decryption and hash check, with every error and every None |
| SecretSharing.RebuildChunk | coc_framework/core/secret_sharing.py:243-251 | one chunk from the first threshold shares, or the conversion error |
| SecretSharing.ChunkRebuilt | coc_framework/core/secret_sharing.py:243-251 | any threshold shares with different indices rebuild any chunk, and its number fits 31 bytes |
| SecretSharing.SecretFromChunks | coc_framework/core/secret_sharing.py:253-256 | header and blocks give the secret back |
| SecretSharing.ContentRestored | coc_framework/core/secret_sharing.py:253-279 | from the chunks, directly or through AES, to the original content |
| SecretSharing.SplitThenReconstruct | coc_framework/core/secret_sharing.py:126-279 | for every content, threshold, draw and list of at least threshold shares in any order whose first threshold indices differ, reconstruction returns the content |
| SecretSharing.TamperingIsReported | coc_framework/core/secret_sharing.py:228-238 | among consistent shares the integrity error is raised if and only if some MAC does not match |
| SecretSharing.FirstTamperedIsNamed | coc_framework/core/secret_sharing.py:235-238 | the error names the first share whose MAC does not match |
| Integrity.ReturnedIff | coc_framework/core/secret_sharing.py:213-279 | for every list of shares, a text is returned if and only if there are enough shares, of one hash, threshold and flag, with matching MACs if a key is given, and the bytes they carry are this text and hash to the hash they name |
| Integrity.NothingIff | coc_framework/core/secret_sharing.py:258-277 | nothing is returned without an error if and only if the shares pass the checks but carry bytes that AES refuses, that are no text, or that hash to another hash |
| Integrity.RejectedIsReported | coc_framework/core/secret_sharing.py:228-238 | the first share that fails a check decides the error: another hash, then threshold, then flag, then MAC |
| Integrity.TooFewIff | coc_framework/core/secret_sharing.py:218-226 | no shares, or fewer than the threshold, are reported exactly then |
| Integrity.FirstBadChunk | coc_framework/core/secret_sharing.py:243-251 | after the checks the first chunk that cannot be rebuilt decides the error: a value missing or no number, or a number too large |
| Integrity.MalformedHexIff | coc_framework/core/secret_sharing.py:258-266 | with all chunks rebuilt the only error is malformed hexadecimal of a hybrid share, exactly then |
| Integrity.MacCovers | coc_framework/core/secret_sharing.py:86-96 | with an injective HMAC, a share carrying the MAC of an authentic one is authentic if and only if index and value followed by hash are the same; under one hash, index and value |
| Integrity.ShareIdsDiffer | coc_framework/core/secret_sharing.py:181-184 | different shares of one split have different identifiers |
| Secrecy.ExactlyOneExplanation | coc_framework/core/secret_sharing.py:160-171 | any threshold - 1 values and any secret fit exactly one choice of the random coefficients |
| Secrecy.SharesRevealNothing | coc_framework/core/secret_sharing.py:160-178 | the same for the printed values of whole shares with many chunks: every other secret of as many chunks explains them, in exactly one way |
| Secrecy.RecordsAgreeIff | coc_framework/core/secret_sharing.py:176-193 | whole records of two directly split contents agree if and only if the values and the content hashes do: the hash field is what binds a record to its content |
| Secrecy.FieldOfTheCode | coc_framework/core/secret_sharing.py:12 | 31-byte chunks lie below 2^256 - 189, and inverting there nests at most 513 calls |
| Secrecy.RoundTripInTheCode | coc_framework/core/secret_sharing.py:126-279 | the round trip for the prime of the code |
| Storage.InMemoryStorage.Add | coc_framework/interfaces/storage_backend.py:116-128 | replaces a node of the same hash and keeps the index the inverse of the node map |
| Storage.InMemoryStorage.Remove | coc_framework/interfaces/storage_backend.py:136-143 | takes the node out of map and index, without leaving an empty set |
| Storage.InMemoryStorage.IsReferenced | coc_framework/interfaces/storage_backend.py:161-162 | true exactly when a scan of all nodes finds the content hash |
| Storage.InMemoryStorage.DeleteNode | coc_framework/core/deletion_engine.py:279-291 | node gone, content gone and tombstone set only if unreferenced, and no other node loses its content |
| Storage.InMemoryStorage.CreateCocRoot | coc_framework/core/network_sim.py:65-71 | node and content stored, index kept |
| Storage.InMemoryStorage.ForwardCocMessage | coc_framework/core/network_sim.py:73-87 | child stored one level deeper with the parent's content hash, parent stored with the new child, contents untouched, index kept |
| Storage.InMemoryStorage.ReceiveCocData | coc_framework/core/network_sim.py:144-154 | node and content stored, linked below a stored parent, index kept |
| Storage.LookupIsScan | coc_framework/interfaces/storage_backend.py:364-370 | the constant-time lookup agrees with the full scan of the other backend |
| Storage.ApplyBackedIff | coc_framework/core/network_sim.py:73-87 | an operation keeps every node's content if and only if a forward finds the content it forwards |
| Storage.ForwardAfterDelete | coc_framework/core/network_sim.py:73-87 | creating, deleting and then forwarding the held node stores nodes without content |
| Storage.RunsKeepIndexAndContent | coc_framework/interfaces/storage_backend.py:107-167 | over every run the index is the inverse of the node map, lookups agree with scans, no node lacks content |
| Storage.ContentIffCarried | coc_framework/core/deletion_engine.py:279-282 | over every run in which node hashes determine content hashes, a content is stored exactly as long as some node carries it |
| Deletion.PurgeStep | coc_framework/core/deletion_engine.py:279-291 | deleting one more node of a purged store is purging one more node: order does not matter within a store |
| Cascade.StepKeepsInvariant | coc_framework/core/deletion_engine.py:233-301 | on bare pairs, every delivery keeps soundness, completeness and group delivery of the cascade |
| Cascade.DrainedIsCascade | coc_framework/core/deletion_engine.py:274-299 | when nothing is on its way, exactly the reachable pairs are gone |
| DeletionRuns.StepRefines | coc_framework/core/deletion_engine.py:233-301 | a delivery in the protocol is a delivery of the abstract cascade |
| DeletionRuns.StepKeepsInvariant | coc_framework/core/deletion_engine.py:233-301 | every delivery keeps the protocol invariant |
| DeletionRuns.StepDecreases | coc_framework/core/deletion_engine.py:233-301 | every delivery removes a stored node or shortens what is in flight, so every run ends |
| DeletionRuns.EveryOrderSameOutcome | coc_framework/core/network_sim.py:89-95 | after one initiated deletion every delivery order that leaves nothing in flight ends in the same stores: exactly the cascade set is gone, contents and tombstones follow |
| DeletionRuns.Network.InitiateDeletion | coc_framework/core/network_sim.py:89-95 | refused exactly for non-owners, without effect; otherwise one token to every registered recipient |
| DeletionRuns.Network.ProcessToken | coc_framework/core/deletion_engine.py:233-301 | replay, expiry, unknown originator, bad signature, missing node, or deletion and tokens for owned children, with what is raised or returned |
| DeletionRuns.Network.Drain | coc_framework/core/network_sim.py:290-309 | delivering whatever is in flight, in any order, terminates in that outcome |
| DeletionRuns.MessagesTo | coc_framework/core/network_sim.py:94-95 | one message for every listing of a registered recipient, none for others |
| DeletionSafety.DeliveryIff | coc_framework/core/deletion_engine.py:233-301 | a delivery changes the stores, and answers so, if and only if the token is unseen, not expired, signed, from a registered originator and about a stored node; otherwise nothing is sent; it is remembered exactly if neither seen nor expired; replay and expiry are answered exactly then |
| DeletionSafety.SentByDelivery | coc_framework/core/deletion_engine.py:274-299 | what an effective token makes its receiver send: for each listed child one token, once for each listing of a registered recipient, and nothing else |
| DeletionSafety.NothingElseIsDeleted | coc_framework/core/deletion_engine.py:233-301 | from one initiated deletion, whatever is delivered in whatever order and whichever checks fail, every store is at every moment the original with nodes of the cascade purged and no others |
| PathSearch.BuildAdjacency | trustdocs/trustflow_service.py:206-212 | exactly the edges with two non-empty ends |
| PathSearch.BreadthFirst | trustdocs/trustflow_service.py:224-245 | the target gets a parent exactly when it is reachable within max_depth, at its true distance |
| PathSearch.WalkBack | trustdocs/trustflow_service.py:257-262 | following parents from the target ends at the source, and yields a path as long as the target's depth |
| PathSearch.ShortestPath | trustdocs/trustflow_service.py:224-276 | a path is returned if and only if one of at most max_depth edges exists, and none is shorter |
| PathSearch.AllPaths.Dfs | trustdocs/trustflow_service.py:281-302 | adds distinct simple completions of the trail, all of them unless cut off, and restores trail and seen set |
| PathSearch.AllSimplePaths | trustdocs/trustflow_service.py:278-321 | at most max_paths distinct simple paths of at most max_depth edges; truncated if and only if at least max_paths exist; complete if and only if not truncated or there is not one more |
| PathSearch.TruncatedThoughComplete | trustdocs/trustflow_service.py:288-291 | in the graph with one edge there is one path and no second one, so max_paths 1 is reported as truncated with nothing left out |
| PathSearch.FindPaths | trustdocs/trustflow_service.py:181-321 | mode check, clamping to 1..200 paths and 1..64 edges, source equal to target, and both modes over the edge list |
| Custody.ParentsAreAcyclic | trustdocs/trustflow_service.py:56-120 | in every table that uploads and shares build, parents are rows one level up and no row is its own ancestor |
| CustodyHistory.RowIffMade | trustdocs/trustflow_service.py:56-101 | the rows are the nodes of uploads and of shares whose parent was made before |
| CustodyHistory.RowIsAsMade | coc_framework/interfaces/postgres_backend.py:28-46 | owner and parent of a row are those of the first event about it |
| CustodyHistory.RecipientIffGranted | trustdocs/trustflow_service.py:92-112 | a peer is recipient of a row if and only if some event about the row, or a share of it, names the peer |
| CustodyHistory.InvolvedIff | trustdocs/trustflow_service.py:327-331 | a peer has a part in a row if and only if the event that made it names the peer as owner or some event as recipient |
| CustodyHistory.ShareShows | trustdocs/trustflow_service.py:76-120 | after a share every recipient sees the new row and the shared one, and so does the sharer if the row is new |
| CustodyHistory.SeenStaysSeen | trustdocs/trustflow_service.py:323-369 | no further upload or share takes away what a peer sees |
| Custody.ClimbToRoot | trustdocs/trustflow_service.py:337-341 | the climb ends at the root of the row |
| Custody.CollectTree | trustdocs/trustflow_service.py:347-360 | the stack loop adds exactly the tree of the root, with all its edges |
| Custody.RootsFor | trustdocs/trustflow_service.py:327-341 | exactly the roots of nodes that the peer owns or receives |
| Custody.GraphForPeer | trustdocs/trustflow_service.py:323-369 | exactly the nodes sharing a root with a node of the peer, and exactly their parent edges |
| Custody.RouteIffAncestor | trustdocs/trustflow_service.py:371-402 | two visible nodes are joined within n edges if and only if one is an ancestor of the other at most n levels up |
| Custody.AtMostOneRoute | coc_framework/interfaces/postgres_backend.py:72-79 | two routes with the same ends are equal |
| Custody.RouteIsLineage | coc_framework/interfaces/postgres_backend.py:72-79 | a route read backwards is the beginning of its end's ancestor chain |
| Custody.GraphPathsForPeer | trustdocs/trustflow_service.py:371-402 | not visible, invalid mode, the trivial path, or at most one path in either mode: the ancestor chain down from the source, present exactly when source is an ancestor within max_depth; truncated exactly when it is present in all mode with max_paths at most 1 |
| GossipSpread.GossipPeer.EvictOldest | coc_framework/network/gossip.py:324-328 | the least recently seen peer leaves; an empty table stays empty |
| GossipSpread.GossipPeer.AddPeer | coc_framework/network/gossip.py:287-309 | never oneself, within capacity, a newcomer displaces the least recently seen |
| GossipSpread.GossipPeer.SelectTargets | coc_framework/network/gossip.py:330-335 | all available peers, or fanout different ones |
| GossipSpread.HandlesInv | coc_framework/network/gossip.py:369-411 | handling any packet keeps the shape of all packets and lowers what is still to come |
| GossipSpread.SpreadIsBounded | coc_framework/network/gossip.py:408-440 | paths start at the origin without repeats, destinations are off the path, path length and TTL add up, signed fields are unchanged; at most fanout + ... + fanout^ttl sends, after which the air is empty |
| GossipSpread.SpreadOfTheCode | coc_framework/network/gossip.py:421-440 | the same for the TTL of the code: path length and TTL add up to 11 |
| GossipSpread.ReachesTtlHops | coc_framework/network/gossip.py:408-411 | along any line of at most ttl hops some run brings the message to the last peer, so the bound on paths is met |
| MessageCache.MessageCache.MaybeCleanup | coc_framework/network/gossip.py:182-194 | drops expired entries, then the oldest surplus ones |
| MessageCache.MessageCache.HasSeen | coc_framework/network/gossip.py:169-176 | whether a fresh entry is there after cleanup; a stale one is removed |
| MessageCache.MessageCache.MarkSeen | coc_framework/network/gossip.py:178-180 | the entry is stamped with the time of marking |
| MessageCache.SecondDispatchNeeds | coc_framework/network/gossip.py:369-436 | over every run of arrivals and own messages on a monotone clock, a second dispatch needs an envelope stamped ahead of the first mark, or a cleanup in between that dropped the entry for lack of room |
| MessageCache.DispatchedAtMostOnce | coc_framework/network/gossip.py:383-411 | so a message never stamped ahead is dispatched at most once while live entries fit |
| MessageCache.SecondDispatchIff | coc_framework/network/gossip.py:107-118 | unless the entry is dropped for lack of room, a second dispatch is possible if and only if the stamp lies after the first mark |
| MessageCache.OverfullDispatchesTwice | coc_framework/network/gossip.py:190-193 | a run with a cache for one entry in which a message not stamped ahead is dispatched twice |
| DispatchHistory.DispatchedIff | coc_framework/network/gossip.py:369-411 | over every run from an empty cache, an envelope not dropped for lack of room reaches its handler if and only if its signature is good, its timestamp is at most 300 seconds old and 60 ahead, and it was neither dispatched nor originated within the 300 seconds before |
| TokenCache.ProcessedTokenCache.MaybeCleanup | coc_framework/core/deletion_engine.py:113-119 | at most once a minute, marks older than twice the validity go |
| TokenCache.ProcessedTokenCache.Admit | coc_framework/core/deletion_engine.py:235-254 | replayed, too old, or accepted and marked |
| TokenCache.AcceptedAtMostOnce | coc_framework/core/deletion_engine.py:216-254 | over every run a token stamped less than one validity ahead passes the checks at most once |
| TokenCache.SecondAcceptanceIff | coc_framework/core/deletion_engine.py:47-52 | a second acceptance is possible if and only if the stamp lies at least one validity after the first mark |
| TokenCache.VerdictOverRun | coc_framework/core/deletion_engine.py:96-119 | over every run, accepted and too old are as the timestamp says; replayed is answered for every token accepted less than twice the validity before, and only for one accepted less than a minute earlier than that |
| Boardroom.ExecutedIffThreshold | trustdocs/boardroom/routes.py:296-340 | in every interleaving, executed only with threshold shares submitted, and with no approval in flight if and only if |
| Approvals.SubmittedByOwner | trustdocs/boardroom/routes.py:300-309 | in every interleaving a row is submitted if and only if it is its user's row and a request of that user has passed its submission |
| Approvals.ApproveIs | trustdocs/boardroom/routes.py:296-340 | an undisturbed approval submits the caller's own row and no other, sets the status with threshold shares, and answers not found, already submitted, executed or pending exactly as the rows say |
| Approvals.AnswerWasTrue | trustdocs/boardroom/routes.py:296-340 | in every interleaving each answer was true at some moment while its request was under way |
| Approvals.CountIs | trustdocs/boardroom/routes.py:324-325 | the count is the number of submitted rows |
| Boardroom.YieldedSharesReconstruct | trustdocs/boardroom/routes.py:381-393 | the first threshold submitted shares give the content back |
| Boardroom.UnlockIffThreshold | trustdocs/boardroom/routes.py:372-402 | in every reachable state, what reconstruction yields: refused below threshold, failure for an empty split text, otherwise the text that was split |
| TimedUnlock.TimedUnlockIff | trustdocs/boardroom/routes.py:349-432 | for a time-locked proposal, after every run of approvals and of the lock engine: refused below threshold, otherwise the original content, empty or not, exactly while the lock's deadline is not over and it is not destroyed, else reported as destroyed exactly if a destroy met its key still stored, or as expired |
| TimedUnlock.PlainUnlockIff | trustdocs/boardroom/routes.py:349-402 | without a time-lock: refused below threshold, failure for empty content, otherwise the content |
| TimedUnlock.UnsealedReturnsIff | trustdocs/boardroom/routes.py:404-432 | whatever was reconstructed, behind a time-lock a text is returned if and only if the lock is open and the parsed bytes decrypt with the stored key to this text and hash to the sealed hash; text that does not parse fails to decrypt |
| TimedUnlock.UnlockReturnsIff | trustdocs/boardroom/routes.py:372-432 | in every state of a proposal and of the engine, a text is returned if and only if enough shares are submitted and the first threshold ones reconstruct to it, or to what an open lock turns into it |
| AuditLog.TamperEvidentLog.Append | coc_framework/core/audit_log.py:106-122 | one more entry that names the last hash; the chain is kept |
| AuditLog.TamperEvidentLog.Verify | coc_framework/core/audit_log.py:124-140 | accepts exactly the chained logs |
| AuditLog.SameHeadSameLog | coc_framework/core/audit_log.py:106-140 | two verified logs with the same last hash are equal, also in length |
| AuditFile.VerifyLogIntegrity | coc_framework/core/audit_log.py:266-289 | reads the text by universal line breaks; the loop accepts exactly when the scan never meets a broken link |
| AuditFile.GetLastHash | coc_framework/core/audit_log.py:239-248 | stepping back from the end finds the last line, and its last field is returned, or nothing |
| AuditFile.CleanIsAcceptable | coc_framework/core/audit_log.py:256-262 | fields without bars and line breaks, and a kind that begins like a word, are acceptable and split back one by one |
| UniversalLines.LinesAreParts | coc_framework/core/audit_log.py:269-271 | reading lines is translating every kind of line break and splitting, without the empty part after a final break |
| AuditFileRuns.LastHashAt | coc_framework/core/audit_log.py:239-248 | the hash is the last field of what follows the last line break before the final character |
| AuditFileRuns.NoLastHash | coc_framework/core/audit_log.py:239-248 | without such a break there is none |
| AuditFileRuns.OpenSyncs | coc_framework/core/audit_log.py:233-236 | after opening any text the hash in memory is the last one of the file, which is that text, or a new log if the text names none |
| AuditFileRuns.PrintedLineSplits | coc_framework/core/audit_log.py:256-262 | splitting a line printed from clean fields returns the seven fields |
| AuditFileRuns.LastHashReadBack | coc_framework/core/audit_log.py:239-248 | after any event, also one with line breaks, the hash read back from the end of the text is the one just written |
| AuditFileRuns.SyncedLine | coc_framework/core/audit_log.py:273-287 | after exactly its predecessors, an event's line is accepted if and only if the event is readable |
| AuditFileRuns.SameHeadSameChain | coc_framework/core/audit_log.py:272-287 | two chains of contents with the same last hash are equal |
| AuditFileRuns.LogKeepsInv | coc_framework/core/audit_log.py:256-264 | logging any event keeps the invariant that a log is scanned exactly to its last hash or has left the scan behind for good |
| AuditFileRuns.EveryRunVerifies | coc_framework/core/audit_log.py:239-289 | for every run with the file opened again anywhere, the last hash is read back whatever was logged, and the file verifies while every event is acceptable |
| AuditFileRuns.VerifiesIff | coc_framework/core/audit_log.py:256-289 | for every run of arbitrary events and reopenings, one more acceptable event leaves a file that verifies if and only if every event before was acceptable |
| AuditFileRuns.GenesisAcceptable | coc_framework/core/audit_log.py:250-254 | the first event of a new file is acceptable |
| AuditFileRuns.SeparatorInTarget | trustdocs/boardroom/routes.py:215-220 | a separator in an otherwise clean target makes the event unacceptable |
| AuditFileRuns.BrokenAfter | coc_framework/core/audit_log.py:273-287 | one unacceptable event and one acceptable one leave a file that does not verify |
| AuditFileRuns.ThreeUnacceptable | coc_framework/core/audit_log.py:269-276 | a line break in the target, a separator in it, and a kind that looks like a comment are not acceptable |
| TimeLock.TimeLockEngine.EncryptWith | coc_framework/core/timelock.py:178-212 | key and metadata stored with the deadline now + ttl |
| TimeLock.TimeLockEngine.CleanupExpired | coc_framework/core/timelock.py:108-117 | exactly the keys past their expiry go |
| TimeLock.TimeLockEngine.GetKey | coc_framework/core/timelock.py:129-138 | the key up to and including its expiry, otherwise None and the entry is gone |
| TimeLock.TimeLockEngine.DecryptKey | coc_framework/core/timelock.py:214-221 | the key used, and EXPIRED recorded unless DESTROYED was |
| TimeLock.TimeLockEngine.DestroyLock | coc_framework/core/timelock.py:234-238 | true exactly for a stored key, which goes, with DESTROYED recorded |
| TimeLock.TimeLockEngine.Extend | coc_framework/core/timelock.py:257-269 | true exactly for a live key, whose deadline moves |
| TimeLock.TimeLockEngine.Status | coc_framework/core/timelock.py:240-248 | DESTROYED, ACTIVE or EXPIRED (by history in LockStatus), and what the look-up removes |
| TimeLock.StepIsLocal | coc_framework/core/timelock.py:178-269 | an operation on the engine changes what is live of each lock as that lock's own life does, whatever else is stored |
| TimeLock.EveryRunFollowsLives | coc_framework/core/timelock.py:178-269 | after every run, at every later time, a lock's key is available exactly when the lock's own life (encrypt, extensions in time, destroy) says so, with the same deadline |
| TimeLock.DeadStaysDead | coc_framework/core/timelock.py:129-146 | a key not available once is never available again without a new lock of that identifier |
| TimeLock.DestroyedStaysDead | coc_framework/core/timelock.py:234-238 | from destroy on no run makes the key available again |
| TimeLock.RunsKeepRecords | coc_framework/core/timelock.py:199-248 | over every run stored keys are recorded active with their own deadline, deadlines are creation plus time to live, and the status is active exactly while the key can be had |
| TimeLock.RunsUpToCleanup | coc_framework/core/timelock.py:103-117 | two runs that differ in cleanup passes only return the same keys, in the same order |
| TimeLock.RequestFollowsLife | coc_framework/core/timelock.py:214-269 | after every run the next key request is answered as the lock's own life says |
| TimeLock.DestroySeesCleanupIff | coc_framework/core/timelock.py:234-248 | a cleanup pass changes the answer of destroy exactly for a key stored past its expiry, and the later status exactly for such a key of a known lock not destroyed |
| LockStatus.EveryRunKeeps | coc_framework/core/timelock.py:103-146 | every run stores and drops a key as that lock's own history says: past its deadline it stays until a cleanup pass or a request meets it |
| LockStatus.RecordedStatus | coc_framework/core/timelock.py:214-238 | the recorded status says whether a destroy met the key or a decrypt missed it |
| LockStatus.StatusSince | coc_framework/core/timelock.py:240-248 | since it was made a lock is destroyed if a destroy met its key, else active up to its deadline, else expired |
| LockStatus.StatusAfterRun | coc_framework/core/timelock.py:178-248 | after every run of a new engine: destroyed if and only if the lock was never made or a destroy since met its key stored; expired if and only if it was made, no destroy met its key and its deadline is over |
| Watermark.BitsToString | coc_framework/core/steganography.py:105-111 | every eight bits give one character, a shorter rest is dropped |
| Watermark.DecodeZeroWidth | coc_framework/core/steganography.py:120-144 | first markers, bits between them, None for fewer than eight; cutting to whole bytes changes nothing |
| Watermark.AddWhitespaceFingerprint | coc_framework/core/steganography.py:203-210 | line i gets (seed + i) mod 3 trailing spaces |
| Watermark.FingerprintReadIff | coc_framework/core/steganography.py:213-229 | the pattern read back from line i matches the peer's seed if and only if the original line ended in a multiple of three spaces |
| Watermark.Utf8Spells | coc_framework/core/steganography.py:101-102 | the bytes of a character spell its code point, as many as the first one tells |
| Watermark.DecodedIff | coc_framework/core/steganography.py:120-137 | something is decoded if and only if the first end marker comes after the first start marker with at least eight bit characters between |
| Watermark.NoiseIsIgnored | coc_framework/core/steganography.py:127-133 | a mark is read through any other characters between its bits |
| Watermark.MarkPlace | coc_framework/core/steganography.py:283-290 | the mark stands right before the first space, or at the end if there is none or it comes first |
| Watermark.MarkedIff | coc_framework/core/steganography.py:275-290 | zero-width characters are there exactly if the mark was asked for; without it the text is the prepared one |
| Watermark.RemovedAre | coc_framework/core/steganography.py:350-351 | removal takes away the five zero-width characters and nothing else |
| Watermark.RoundTripIff | coc_framework/core/steganography.py:101-144 | decoding gives the encoded text back if and only if it is non-empty ASCII, wherever it stands after text without markers |
| Watermark.RemovalRestoresIff | coc_framework/core/steganography.py:283-290 | removing zero-width characters gives back the text the mark was put into if and only if that text had none |
| Watermark.EmbedThenExtract | coc_framework/core/steganography.py:275-290 | for content free of zero-width characters decoding returns the exact JSON and removal the text before the mark |
| Watermark.StripRestoresIff | coc_framework/core/steganography.py:350-357 | without the linguistic step, stripping gives the content back if and only if it held no zero-width character and no line of it ended in whitespace |

## Left out

- Cryptographic primitives (Ed25519, HMAC, AES-GCM, SHA-256) are functions with laws, not algorithms; that 2^256 - 189 is prime is assumed.
- Encoding.HexRoundTrip: Python's `int(text, 16)` also takes underscores, signs and surrounding whitespace; the model reads plain digits with an optional prefix, which is all that is printed.
- Node objects are values: two dictionaries never share one node object, so a node changed in place outside the storage is not modelled. Receive and forward store the changed parent explicitly, as the code does.
- `SecretSharingEngine` and its registries, share distribution and collection over the network: dictionary updates around split and reconstruct.
- DeletionRuns.EveryOrderSameOutcome: assumes that copies of a node list the same recipients, since the node hash is computed from the signed list; all data is delivered before, peers are online and tokens valid. Offline queues, `DeletionTracker`, receipts and tombstone expiry are not modelled.
- Custody.GraphPathsForPeer: node hashes are non-empty strings, as digests are; `find_paths_in_edges` drops empty ends.
- `get_trace_for_document` and the document-scoped path query: the same stack loop from one row.
- `get_all_descendants` of a node: plain recursion over storage, used by no modelled operation.
- Gossip sockets, anti-entropy, heartbeats and peer discovery; a packet may be lost or dropped at any time, and the payload is not rewritten.
- SQLite and PostgreSQL mechanics: tables are maps, statements are atomic; database failures are not modelled.
- Unlocking is modelled up to the watermark, for proposals whose threshold does not change; membership checks and rows that cannot be found are left out.
- The JSON and CSV exports and the filters of `AuditLogger`. Both logs take the hash as injective.
- The log file is text: its bytes, and failures to open or decode it, are left out.
- Interleavings inside `extend_ttl`, which makes three separately locked calls: it is one step here. `SimulatedTimeLockService` and expiry callbacks are left out. `TimeLock` represents decryption by the key it uses; `TimedUnlock` adds what is decrypted.
- The linguistic fingerprint is any rewriting without zero-width characters; scoring and choosing among candidate peers are left out.
- Event validation, identity store, chat, comments, HTTP routes and user interface.
