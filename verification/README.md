# Verification of the Mainline DHT core of ouinet

This project models the parts of ouinet whose correctness is hardest to see by reading, and proves
what they promise:

* the Kademlia routing table and the concurrent iterative lookup (`src/bittorrent`),
* bencoding, signed items, the `put` query and the stores behind it (`src/bittorrent`),
* three small state machines elsewhere: connections that can be put aside and taken up again
  (`src/connection_pool.h`), a string shared between threads (`src/client_lib.cpp`) and a re-arming
  timer (`src/timeout_stream.h`),
* the race between the origin and the cache, with its freshness rules (`src/cache_control.cpp`).

Objects that the source updates in place are classes whose methods are proved against specification
functions; code that runs concurrently is a state machine whose steps are the stretches between two
suspension points (or two accesses to an atomic flag), and theorems speak of every sequence of
steps. Readings of the clock, random numbers, SHA-1, Ed25519, the answers of the network and the
order in which coroutines proceed are parameters, so everything holds for all of them.

`dafny verify dfyconfig.toml` checks the project (Dafny 4.11).

| files | what they hold |
|---|---|
| `Options`, `Sequences` | small shared definitions |
| `NodeIds` | 160-bit ids, the byte loops, the XOR metric and shared prefixes |
| `Nearest`, `ProximityMaps` | sorted maps, the k nearest members of a set, `ProximityMap` |
| `Lookup` | `collect` with the queries of the two searches |
| `RoutingSpec`, `RoutingEffects`, `RoutingInvariants`, `RoutingBounds`, `RoutingCandidates`, `RoutingSlack`, `RoutingWitnesses`, `RoutingClosest`, `RoutingTables` | what the table does, the effect of each call told case by case, what every run keeps, how far it grows, its candidate queues, the bound on them, runs that show what it does not promise, what a search returns, and the class |
| `Numbers`, `Bencoding`, `BencodingRoundTrip`, `BencodingGrammar`, `BencodingParser` | decimal numbers, the encoder, the round trips, the language of the parser, and the destructive parser |
| `MutableData`, `PutHandler`, `Swarms`, `WriteTokens` | signed items, the `put` query, announced peers, write tokens |
| `IdleConnections`, `AtomicStrings`, `Deadlines`, `CacheFetch` | the other state machines |

## Where the code differs from what one would expect

The model follows the code. Each point names the members that state it.

* `ProximityMap::insert` loses an entry when a full map is offered an id that it already holds and
  that is not the farthest one. It keeps the nearest ids if and only if that does not happen
  (`InsertKeepsNearest`). The lookup never does it, because no id is evaluated twice.
* The routing table clears bit positions of an id, and nothing in it stops it at the last one. For
  any set of contacts, some run exceeds n buckets if and only if the set has nine contacts that share
  n - 1 bits with this node, one for every shorter prefix and that one, and one that shares more
  (`ExceedsIff`). With n = 160 this is exactly when position 160 is cleared (`PositionsInRange`).
  Contacts that reuse this node's own id with different endpoints do it (`PositionBeyond`); if every
  id comes with one endpoint, there are at most 158 buckets (`BucketBound`).
* Candidates are queued only if the clock passes the quarter hour of some node in the middle of a
  call, since at any one instant a good node is not questionable. `FirstCandidateIff` and
  `CandidatesIff` give the exact condition, and `SomeRunQueues` a run that meets it.
* The comment on `Bucket` (`src/bittorrent/routing_table.h:56-57`) says that the number of candidates
  is bounded at all times. Some run exceeds the bound (`SomeRunExceeds`: a questionable node is heard
  from again while a candidate waits). A call leaves its bucket within the bound if and only if it
  reaches the trimming loops or does not use up the slack that the bucket had (`WithinBoundIff`, with
  the slack read off the table before the call), and a run stays within it if and only if no call
  overdraws (`StaysWithinIff`). What every run does keep is eight candidates a bucket
  (`EightCandidates`).
* A candidate that `fail_node` promotes becomes a node if and only if some other node of the bucket
  was heard from later (`BecomesNodeIff`); otherwise it is lost, as in the run of `SomeRunLoses`.
* `parse::number` accepts a leading `+` (`ParseNumber`), and its width check compares one position too many: the
  greatest 64-bit number is read back if and only if the byte that follows does not count as a digit
  too large (`Uint64RoundTrip`); followed by a space it is refused (`GreatestBeforeSpace`). No 64-bit
  signed number is affected (`ParseNumber`).
* The bencoding parser reads more than the encoder writes: numbers with a plus sign or leading zeros,
  signs before the length of a key, and dictionaries in any order and with repeated keys, of which the
  last counts. `ReadsExactly` says what it reads and as what, byte for byte.
* An immutable `put` without the argument `k` is always refused, because looking the argument up
  creates an empty string and the item then counts as mutable. `ImmutableNeedsKey` gives the exact
  condition under which an immutable item is stored.
* `_last_generated` is never assigned, so the age of the last secret plays no part: a call makes no
  new secret if and only if the clock has not passed five minutes and some secret has not expired
  (`NoNewSecret`). Over any run that is one secret for every call after the first five minutes, and
  one for all calls before (`SecretsMade`). The promises about tokens hold all the same.
* `AtomicString` never hands out a torn string, whatever the number of readers. It is free of stalls
  if and only if there is at most one reader (`NeverStallsIffOneReader`), which is what its comment
  asks for: a single notification may wake the writer instead of a second reader.
* `IdleConnection::make_idle` does not check whether a direct read is under way. More than one read is
  then outstanding, and only then (`MakeIdle`); the order of bytes is promised until that happens.
* In `CacheControl::fetch`, the test that the request carries no tag of its own is always true where
  it stands, since a request with a tag has been answered before; the contract of `Fetch` does without it.

## Model

| member | source | states |
|---|---|---|
| NodeIds.SetBit | src/bittorrent/node_id.cpp:12-17 | sets the one bit asked for and no other, bits counted from the most significant |
| NodeIds.XorBits | src/bittorrent/node_id.cpp:169-176 | the byte loop of `^` is exclusive or, bit by bit |
| NodeIds.Less | src/bittorrent/node_id.h:73-74 | comparing buffers byte by byte is comparing the 160-bit numbers they write |
| NodeIds.CloserTo | src/bittorrent/node_id.cpp:154-167 | the byte loop decides whether the XOR distance to the left id is the smaller 160-bit number |
| NodeIds.DistanceInjective | src/bittorrent/node_id.cpp:154-176 | from one pivot, different ids have different distances |
| NodeIds.CloserTotal | src/bittorrent/node_id.cpp:154-167 | for each pivot, of two different ids one is closer: with the comparison of numbers, a strict total order |
| NodeIds.PrefixIsDistance | src/bittorrent/node_id.cpp:169-176 | two ids share k leading bits if and only if their distance is below 2^(160-k) |
| NodeIds.LongerPrefixIsCloser | src/bittorrent/node_id.cpp:154-167 | an id that shares k bits with the target is strictly closer than one that does not |
| NodeIds.MaxDistanceMeaning | src/bittorrent/routing_table.cpp:55-64 | being within the greatest distance of bucket k is sharing k bits |
| Nearest.NearestUnique | src/bittorrent/proximity_map.h:40-56 | the k nearest members of a set are determined by the set |
| Nearest.InsertionPoint | src/bittorrent/proximity_map.h:44-55 | the entry a sorted map gains stands between all nearer and all farther ones, and a present key wins |
| ProximityMaps.InsertKeepsNearest | src/bittorrent/proximity_map.h:40-56 | a map holding the k nearest of everything offered stays sorted, stays within its size, and still holds the k nearest after the next offer if and only if that id is not already held (other than last) by a full map |
| ProximityMaps.WouldInsertMeaning | src/bittorrent/proximity_map.h:58-63 | a new id is stored exactly when `would_insert` says so; otherwise the map is full of strictly nearer ids |
| ProximityMaps.ProximityMap.Insert | src/bittorrent/proximity_map.h:40-56 | refines `Inserted`, the function that the two lemmas are about, and keeps the order and the size |
| ProximityMaps.ProximityMap.ParentInsert | src/bittorrent/proximity_map.h:44-55 | the search of the ordered map refines sorted insertion |
| ProximityMaps.ProximityMap.WouldInsertId | src/bittorrent/proximity_map.h:58-63 | refines `WouldInsert` |
| Lookup.Compare | src/bittorrent/mainline_dht.cpp:1906-1917 | orders contacts by distance to the target and bootstrap contacts last by endpoint, as one numeric rank |
| Lookup.RankEquates | src/bittorrent/mainline_dht.cpp:1906-1917 | so it is a strict weak order, and it equates exactly contacts of the same id or of the same bootstrap endpoint |
| Lookup.PickCandidate | src/bittorrent/collect.h:47-55 | picks the untried contact strictly nearest to the target and marks only that one; none if and only if all were tried |
| Lookup.LoopStep | src/bittorrent/collect.h:62-161 | every step keeps: used candidates are exactly the contacts with a job, no node has two jobs, no reported contact is lost, at most 8 jobs hold slots, nobody waits for candidates that cannot come |
| Lookup.ResultStep | src/bittorrent/mainline_dht.cpp:2443-2490 | every step keeps: the result map is the 8 nearest ids that replied, and ids refused without a query are farther than all of a full map |
| Lookup.RunInvariant | src/bittorrent/collect.h:47-161 | both invariants hold after every sequence of steps from any seeds |
| Lookup.LookupCorrect | src/bittorrent/mainline_dht.cpp:2432-2501 | for every interleaving: at most 8 ids are kept, they are the nearest of those that replied, and each stands with the token that the reply of that very node carried; no node is evaluated twice, and there are no more evaluations than nodes heard of; every evaluated id left out gave no acceptable reply (yet) or is strictly farther than each of 8 kept; a search that ends by itself has evaluated every contact heard of by then; a search that waits has an active job; at most 8 jobs hold a slot, and a search that has not stopped can always proceed |
| Lookup.KeptWasAnswered | src/bittorrent/mainline_dht.cpp:2459-2490 | whatever is kept for an id after any run is the token of a reply event of the job for that id |
| Lookup.AskedIfUseful | src/bittorrent/mainline_dht.cpp:2452-2457 | after any run, a contact is asked if and only if fewer than 8 ids are kept or its id is nearer than one of them |
| Lookup.JobStep | src/bittorrent/collect.h:114-160 | a job is started once, then asked or refused, and then replies or fails; what it reports is queued; the first end or dismissal frees its slot and is announced once |
| Lookup.LoopSteps | src/bittorrent/collect.h:62-112 | the main coroutine spawns a job for the nearest contact without one in a slot of its own; without such a contact it stops exactly when no job is active and nothing is queued, and waits otherwise |
| Lookup.HeardBeforeStop | src/bittorrent/collect.h:77-112 | whatever was reported while the search still ran is among what it has heard of when it ends by itself |
| Lookup.FinishedSearch | src/bittorrent/collect.h:62-161 | once it has ended by itself and no query is under way, every id heard of by then is kept, failed to reply, or is strictly farther than each of 8 kept |
| RoutingInvariants.SplitsOnlyLast | src/bittorrent/routing_table.cpp:66-93 | the bucket chosen for an id is split only if it is the last one and a bit is left |
| RoutingInvariants.SplitHalves | src/bittorrent/routing_table.cpp:230-250 | of the nine nodes, each half then holds one to eight, so the assertions after the split hold |
| RoutingInvariants.NoContactTwice | src/bittorrent/routing_table.cpp:95-111 | different buckets share no contact, among nodes and both queues |
| RoutingInvariants.OrderMeaning | src/bittorrent/routing_table.cpp:190-206 | the invariant's recursive predicates say, for any two positions, that contacts differ and that receive times do not decrease |
| RoutingInvariants.TryAddInv | src/bittorrent/routing_table.cpp:180-326 | `try_add_node` keeps the invariant: at most 8 nodes a bucket in order of receive time, every contact in the bucket for its id, no contact twice |
| RoutingInvariants.FailInv | src/bittorrent/routing_table.cpp:332-415 | `fail_node` keeps it too |
| RoutingInvariants.RunInv | src/bittorrent/routing_table.cpp:180-415 | it holds after every sequence of calls, for any monotone clock, with a reading of its own for each question |
| RoutingEffects.TryAddMeaning | src/bittorrent/routing_table.cpp:180-326 | the whole table after `try_add_node`, by cases: a known contact moves to the end, refreshed; any other leaves both queues; one that has not replied is pinged, and nobody else, if there is room, a split or a node not good at its reading; one that has replied is then added, added and split off, or put for the first such node; otherwise exactly the nodes questionable at their readings with no ping under way are pinged, in order, and marked, and the contact joins its queue within their number |
| RoutingEffects.FailMeaning | src/bittorrent/routing_table.cpp:332-415 | the whole table after `fail_node`: an unknown contact changes nothing; a known one has failed once more; while good it is pinged, and nobody else, if questionable at the second reading; once bad, aged candidates leave the fronts, the first verified one is promoted, or else the first unverified one leaves its queue and is pinged, and both queues are trimmed to the questionable nodes |
| RoutingEffects.PingedMeaning | src/bittorrent/routing_table.cpp:281-290 | the pings of the last stage are the contacts of the nodes that are questionable at their own readings and have no ping under way, in the order of the nodes |
| RoutingEffects.EnqueueMeaning | src/bittorrent/routing_table.cpp:275-325 | the last stage: marks, pings, the candidate with its times, and which candidates are left in which queue |
| RoutingEffects.ReplacementMeaning | src/bittorrent/routing_table.cpp:366-398 | of the candidates that have not aged, the first verified one takes the place of the bad node, or else the first unverified one leaves its queue and is pinged |
| RoutingBounds.ExceedsIff | src/bittorrent/routing_table.cpp:66-143 | for any set of allowed contacts and any clock: some run exceeds n buckets if and only if the set has nine contacts sharing n - 1 bits, one for each prefix up to that, and one sharing more |
| RoutingBounds.PositionsInRange | src/bittorrent/routing_table.cpp:55-111 | no call over any run clears a bit position beyond 159, nor does a search for any target, if and only if the allowed contacts cannot make 161 buckets in that sense |
| RoutingBounds.PositionBeyond | src/bittorrent/routing_table.cpp:95-111 | if any contact is allowed, some run clears position 160, for every own id and clock |
| RoutingBounds.BucketBound | src/bittorrent/routing_table.cpp:118-143 | if an id always comes with one endpoint, no run exceeds 158 buckets |
| RoutingCandidates.PromotedIff | src/bittorrent/routing_table.cpp:375-388 | the insertion by time takes the candidate in if and only if some node was heard from later, and otherwise leaves the nodes as they are |
| RoutingCandidates.LastDecides | src/bittorrent/routing_table.cpp:383-388 | with nodes in order of receive time, as the invariant has them, that is decided by the last node |
| RoutingCandidates.PromotionIff | src/bittorrent/routing_table.cpp:366-389 | so a promoted candidate becomes a node of the bucket if and only if some node other than the failed one was heard from after it |
| RoutingCandidates.BecomesNodeIff | src/bittorrent/routing_table.cpp:332-415 | the same of `fail_node` on the table: after ageing, trimming and all, the first candidate of the queue is a node if and only if that |
| RoutingCandidates.EnqueuedIff | src/bittorrent/routing_table.cpp:275-325 | at the last stage a verified contact becomes a candidate if and only if some node is questionable when its turn comes, an unverified one if and only if more nodes are questionable than recent verified candidates wait |
| RoutingCandidates.BecomesCandidateIff | src/bittorrent/routing_table.cpp:180-326 | the same of `try_add_node` on the table: the contact is a candidate of its bucket afterwards if and only if the call came down to that stage and there was room |
| RoutingCandidates.FirstCandidateIff | src/bittorrent/routing_table.cpp:180-326 | while there are no candidates, a call queues one if and only if it adds an unknown contact to a full bucket that does not split, all nodes are good when first asked and some is questionable when asked again |
| RoutingCandidates.CandidatesIff | src/bittorrent/routing_table.cpp:180-415 | a run never has a candidate if and only if no call of it is of that kind |
| RoutingCandidates.OneInstant | src/bittorrent/routing_table.h:33-48 | a call that sees one instant is not of that kind |
| RoutingCandidates.TrimmingTrims | src/bittorrent/routing_table.cpp:319-325 | after any call of `try_add_node` or `fail_node` that reaches the trimming loops, the bucket has no more candidates than questionable nodes, at that time and later |
| RoutingSlack.SlackAfter | src/bittorrent/routing_table.cpp:180-415 | a call that does not trim changes the slack of its bucket by exactly what it adds, refreshes, replaces or splits off, touches no other bucket, and gives a bucket that it adds the slack of its half |
| RoutingSlack.WithinBoundIff | src/bittorrent/routing_table.h:52-58 | after a call the bucket is within the documented bound if and only if the call trims or leaves slack, and a bucket that it adds if and only if its half has slack, as read off the table before the call |
| RoutingSlack.StaysWithinIff | src/bittorrent/routing_table.h:52-58 | a run stays within the bound in all buckets if and only if no call of it overdraws |
| RoutingSlack.EightCandidates | src/bittorrent/routing_table.cpp:319-325 | after every run a bucket has at most eight candidates, and so at most sixteen contacts |
| RoutingWitnesses.SomeRunQueues | src/bittorrent/routing_table.cpp:303-306 | for every own id, some run queues a candidate |
| RoutingWitnesses.SomeRunExceeds | src/bittorrent/routing_table.h:52-58 | some run exceeds the documented bound |
| RoutingWitnesses.SomeRunLoses | src/bittorrent/routing_table.cpp:366-389 | some run loses a candidate together with the node that it was to replace |
| RoutingClosest.EarlierGroupIsCloser | src/bittorrent/routing_table.cpp:145-173 | with groups "bucket of the target, all deeper buckets, then each shallower one", a node of an earlier group is strictly closer to the target |
| RoutingClosest.ClosestCorrect | src/bittorrent/routing_table.cpp:145-173 | the answer is min(count, total) distinct nodes of the table in order of groups, and beats every omitted node of another group in XOR distance |
| RoutingTables.MaxDistance | src/bittorrent/routing_table.cpp:55-64 | the first k bits are 0 and the rest 1, and k bit positions have been cleared |
| RoutingTables.WithinDistance | src/bittorrent/routing_table.cpp:66-93 | the comparison of distances is the comparison of shared prefixes |
| RoutingTables.MoveElements | src/bittorrent/routing_table.cpp:13-24 | the in-place loop separates near from far nodes and keeps the order in both |
| RoutingTables.TrimCandidates | src/bittorrent/routing_table.cpp:319-325 | keeps the newest candidates, verified first, no more than the questionable nodes; no pop from an empty queue |
| RoutingTables.PromoteInto | src/bittorrent/routing_table.cpp:383-388 | the loop refines `Promote`, which `PromotedIff` is about |
| RoutingTables.RoutingTable.WouldSplitBucket | src/bittorrent/routing_table.cpp:66-93 | refines `WouldSplit`, and clears no position beyond the number of the bucket |
| RoutingTables.RoutingTable.FindBucketId | src/bittorrent/routing_table.cpp:95-111 | the loop finds the length of the prefix shared with the own id, capped by the last bucket, and clears exactly the positions that `PositionsInRange` is about |
| RoutingTables.RoutingTable.SplitBucket | src/bittorrent/routing_table.cpp:118-143 | refines `SplitTable`: nodes and both queues are divided at the next bit |
| RoutingTables.RoutingTable.FindClosest | src/bittorrent/routing_table.cpp:145-173 | refines `Closest`, which `ClosestCorrect` is about |
| RoutingTables.RoutingTable.ReplaceOrQueue | src/bittorrent/routing_table.cpp:252-325 | refines the stage that replaces the first bad node or queues a candidate, whose effect and pings `TryAddMeaning` tells |
| RoutingTables.RoutingTable.TryAddNode | src/bittorrent/routing_table.cpp:180-326 | has the effect that `TryAddMeaning` tells, on nodes, queues and pings; refines `TryAdd`, keeps the invariant, and clears exactly the positions that `PositionsInRange` is about |
| RoutingTables.RoutingTable.FailNode | src/bittorrent/routing_table.cpp:332-415 | has the effect that `FailMeaning` tells, on nodes, queues and pings; refines `Fail`, keeps the invariant, and clears exactly those positions |
| Numbers.ScanDecimal | src/bittorrent/bencoding.cpp:9-15 | reading a printed number before anything but a digit gives the number and what follows |
| Numbers.DecimalPrefixFree | src/bittorrent/bencoding.cpp:9-15 | two printed numbers followed by non-digits are equal texts only if they and what follows are equal |
| Numbers.SumDigits | src/parse/number.h:100-112 | the sum from the least significant digit is the decimal value, without overflow |
| Numbers.FitsUint64 | src/parse/number.h:83-98 | the width check is right for every value but the greatest, where the next byte decides |
| Numbers.ParseUint64 | src/parse/number.h:45-112 | the loops refine `ScanUint64`: the longest run of digits, refused if it does not fit, and at the greatest value depending on the byte that follows |
| Numbers.Uint64RoundTrip | src/parse/number.h:83-98 | a printed number is read back if and only if it is below the greatest one, or is that and the byte that follows does not count as a digit too large |
| Numbers.GreatestBeforeSpace | src/parse/number.h:83-98 | the greatest number is refused before a space and read before an e |
| Numbers.ParseNumber | src/parse/number.h:133-188 | refines `ParseInt64`: an optional sign, the longest run of digits, and the 64-bit signed range |
| BencodingRoundTrip.RoundTrip | src/bittorrent/bencoding.cpp:73-148 | parsing an encoding followed by any bytes gives the value and those bytes if and only if it fits in nesting 100 and strings of 2,000,000 bytes, and fails otherwise |
| BencodingRoundTrip.ParsedIsSound | src/bittorrent/bencoding.cpp:73-148 | whatever is parsed has sorted keys without repetition, 64-bit numbers, and fits |
| BencodingRoundTrip.DecodeEncodeDecode | src/bittorrent/bencoding.cpp:150-155 | any decoded value, also from unsorted or repeated keys, re-encodes to bytes that decode to it |
| BencodingRoundTrip.PrefixFree | src/bittorrent/bencoding.cpp:8-41 | no encoding is a proper prefix of another, for all values |
| BencodingRoundTrip.EncodeInjective | src/bittorrent/bencoding.cpp:37-41 | different values have different encodings |
| Bencoding.AssignSorted | src/bittorrent/bencoding.cpp:137-137 | assigning to a key keeps a dictionary sorted, gives the key its value, and keeps every other entry and no more |
| Bencoding.KeyLessMeaning | src/bittorrent/bencoding.cpp:137-137 | keys are ordered by the first character in which they differ, a proper prefix first |
| BencodingRoundTrip.AnyOrder | src/bittorrent/bencoding.cpp:116-144 | a dictionary written in any order and with repeated keys is read as the sorted one that holds, of every key, exactly the last entry |
| BencodingRoundTrip.AssignAllMeaning | src/bittorrent/bencoding.cpp:123-138 | entries assigned one after the other leave exactly the last of every key, in order |
| BencodingGrammar.TextRead | src/bittorrent/bencoding.cpp:73-148 | every way to write a value down (signs, leading zeros, unsorted or repeated keys) is read as that value within the limits, and refused beyond them |
| BencodingGrammar.TextTaken | src/bittorrent/bencoding.cpp:73-148 | whatever is read is such a way to write the value, and exactly that is taken from the input |
| BencodingGrammar.ReadsExactly | src/bittorrent/bencoding.cpp:45-148 | so the parser takes a value from the front if and only if a text of that value, within the limits, stands there |
| Bencoding.ParseValue | src/bittorrent/bencoding.cpp:73-148 | a successful parse strictly shortens the input, so the recursion ends |
| BencodingParser.Input.ParseIntAtFront | src/bittorrent/bencoding.cpp:45-52 | the destructive step takes exactly the number from the front |
| BencodingParser.Input.ParseStringAtFront | src/bittorrent/bencoding.cpp:54-71 | takes exactly the length, the colon and the string |
| BencodingParser.Input.ParseValueAtFront | src/bittorrent/bencoding.cpp:73-148 | takes exactly one value; refines `ParseValue` |
| BencodingParser.Input.ParseItemsAtFront | src/bittorrent/bencoding.cpp:99-115 | the loop over list items refines `ParseItems` |
| BencodingParser.Input.ParseEntriesAtFront | src/bittorrent/bencoding.cpp:116-144 | the loop over dictionary entries refines `ParseEntries`, which `AnyOrder` and `ReadsExactly` are about |
| BencodingParser.DecodeBytes | src/bittorrent/bencoding.cpp:150-155 | refines `Decode`, which the round trips, `AnyOrder` and `ReadsExactly` are about |
| MutableData.BufferInjective | src/bittorrent/mutable_data.cpp:9-43 | the signed buffer determines salt, sequence number and value, also when the salt is empty and omitted |
| PutHandler.RunInv | src/bittorrent/mainline_dht.cpp:1448-1595 | after every run of puts and expiries, each mutable item is stored under the hash of its own key and salt with a signature that is valid over the dictionary of BEP 44 and a value under 1000 bytes, each immutable one under the hash of its value |
| MutableData.VerifyMeaning | src/bittorrent/mutable_data.cpp:9-75 | `verify` throws exactly for values over 1000 bytes, and otherwise checks the signature under the public key over the encoding of the dictionary of BEP 44 (salt if any, sequence number, value) without its first and last byte |
| PutHandler.FoundArgument | src/bittorrent/mainline_dht.cpp:1449-1467 | the lookup of an argument that is there gives a value that the query carries under that key |
| PutHandler.TargetsDiffer | src/bittorrent/dht_storage.cpp:219-245 | unless SHA-1 collides on them, two signed items of keys of one length share a target exactly when they share key and salt, two immutable ones exactly when they are equal |
| PutHandler.RefusalHasReason | src/bittorrent/mainline_dht.cpp:1448-1595 | every error code is one of seven, and what it says is true of the query and the store |
| PutHandler.ExpiryMeaning | src/bittorrent/dht_storage.cpp:191-209 | expiry removes exactly the items put more than two hours before, from both maps, and changes nothing else |
| PutHandler.KeptForTwoHours | src/bittorrent/dht_storage.cpp:191-209 | for two hours after a put, whatever comes between, the target is stored, with that item or a later version |
| PutHandler.ItemOrigin | src/bittorrent/dht_storage.cpp:247-253 | whatever a run leaves was there before or was spelled out by a query of the run, whose time it carries |
| PutHandler.StoredIffDeserved | src/bittorrent/mainline_dht.cpp:1465-1560 | a mutable item is stored if and only if the arguments spell it out, the token is valid, this node is responsible, key, salt, size and signature are right, and it succeeds the stored version and meets the compare-and-swap |
| PutHandler.StepSucceeds | src/bittorrent/mainline_dht.cpp:1539-1558 | what replaces a stored item has a greater number, or the same number and the same value |
| PutHandler.VersionsNeverGoBack | src/bittorrent/mainline_dht.cpp:1539-1558 | so does what any run leaves, as long as the target stays stored |
| PutHandler.ImmutableNeedsKey | src/bittorrent/mainline_dht.cpp:1449-1593 | an immutable item is stored if and only if the checks pass and `k` is present and not a string; it then stands under its hash with the time of the query, and no other changes |
| PutHandler.PlainImmutablePutRefused | src/bittorrent/mainline_dht.cpp:1465-1475 | an immutable put as BEP 44 writes it, without `k`, is refused and stores nothing |
| PutHandler.IsResponsible | src/bittorrent/mainline_dht.cpp:1515-1526 | the loop decides whether some known node is farther from the target than this one |
| PutHandler.StorageNode.HandlePut | src/bittorrent/mainline_dht.cpp:1448-1595 | refines the decision: the error code of the first check that fails, or the new store |
| PutHandler.EraseExpired | src/bittorrent/dht_storage.cpp:191-198 | the loop keeps exactly the items that are alive |
| PutHandler.StorageNode.RemoveExpired | src/bittorrent/dht_storage.cpp:189-208 | refines `Expire` and keeps the invariant |
| PutHandler.StorageNode.CheckVersion | src/bittorrent/mainline_dht.cpp:1539-1557 | refines the rules that order the versions of an item, which `StoredIffDeserved` and `RefusalHasReason` are about |
| PutHandler.StorageNode.HandleMutable | src/bittorrent/mainline_dht.cpp:1465-1560 | stores the item exactly when it deserves it, and otherwise changes nothing; gives the code of the first check that fails; the signature check never throws |
| Swarms.Swarm.Add | src/bittorrent/dht_storage.cpp:61-77 | replaces or appends one peer, leaves the others and their places, and keeps the index the inverse of the list |
| Swarms.Swarm.List | src/bittorrent/dht_storage.cpp:83-100 | returns min(count, size) distinct current peers, only permutes, and keeps the index the inverse of the list, for every random choice |
| Swarms.Swarm.Expire | src/bittorrent/dht_storage.cpp:102-120 | keeps exactly the peers seen within two hours |
| Swarms.Swarm.RemoveAt | src/bittorrent/dht_storage.cpp:108-115 | removal by swapping with the last one removes exactly that peer |
| Swarms.SettledPlaces | src/bittorrent/dht_storage.cpp:86-98 | later swaps never move what was returned |
| Swarms.EverySelection | src/bittorrent/dht_storage.cpp:79-98 | every sequence of distinct peers is returned for some random numbers |
| WriteTokens.UnexpiredMeaning | src/bittorrent/dht_storage.cpp:51-57 | as secrets are ordered, dropping from the front drops exactly the expired ones |
| WriteTokens.StepInv | src/bittorrent/dht_storage.cpp:19-57 | every call keeps the secrets ordered by expiry |
| WriteTokens.SecretSurvives | src/bittorrent/dht_storage.cpp:51-57 | a secret stays through any calls until it expires |
| WriteTokens.TokenIsAccepted | src/bittorrent/dht_storage.cpp:19-49 | the secret of a token is in use exactly until it expires, fifteen minutes after the token was made, or ten to fifteen if that was in the first five minutes of the clock; until then the token is accepted, whatever calls come between |
| WriteTokens.SecretOrigin | src/bittorrent/dht_storage.cpp:24-29 | every secret held after a run was there before or was made by a call of `generate_token` in it |
| WriteTokens.AcceptedTokenIsRecent | src/bittorrent/dht_storage.cpp:36-49 | a token accepted after any run from the start hashes the secret that some call of the run made at most fifteen minutes before |
| WriteTokens.TokenBelongs | src/bittorrent/dht_storage.cpp:32-41 | if SHA-1 does not collide, equal tokens of secrets of one length and ids of one length mean equal secret, address and id |
| WriteTokens.TokenIsForOne | src/bittorrent/dht_storage.cpp:19-49 | a token handed out in any run from the start is accepted, by whatever secret, only for the address and id it was made for, and only until the secret it was made from expires |
| WriteTokens.NoNewSecret | src/bittorrent/dht_storage.cpp:24-29 | a call makes no new secret if and only if the clock has not passed five minutes and some secret has not expired |
| WriteTokens.SecretsMade | src/bittorrent/dht_storage.cpp:19-34 | over any run: one secret for every call after the first five minutes, and one for all calls before unless there was one |
| WriteTokens.SecretsPileUp | src/bittorrent/dht_storage.cpp:24-29 | over up to fifteen minutes after the first five in which nothing expires, every call adds a secret and all are kept |
| WriteTokens.WriteTokenStorage.DropExpired | src/bittorrent/dht_storage.cpp:51-57 | the loop refines `Unexpired` |
| WriteTokens.WriteTokenStorage.GenerateToken | src/bittorrent/dht_storage.cpp:19-34 | refines `AfterGenerate` and `Generated`, which `TokenIsAccepted` and `TokenIsForOne` are about, with its two clock readings |
| WriteTokens.WriteTokenStorage.VerifyToken | src/bittorrent/dht_storage.cpp:36-49 | accepts exactly the hashes of the secrets that have not expired with the address and id presented, which `TokenIsForOne` is about |
| IdleConnections.IdleConnection.AsyncReadSome | src/connection_pool.h:77-179 | hands out the waiting byte first, lets the open idle read serve the user, or passes the read on; keeps: no overlap with the idle read, and delivered bytes are the arrived bytes in order |
| IdleConnections.IdleConnection.MakeIdle | src/connection_pool.h:181-251 | opens the idle read unless it is open, or disqualifies a connection with a byte waiting; afterwards at most one read is outstanding if and only if no direct read was under way |
| IdleConnections.IdleConnection.MakeNotIdle | src/connection_pool.h:253-257 | changes nothing but the mode |
| IdleConnections.IdleConnection.IdleReadCompletes | src/connection_pool.h:198-244 | disqualifies, forwards or keeps the byte; no assertion fails and no byte is lost before disqualification |
| IdleConnections.IdleConnection.DirectReadCompletes | src/connection_pool.h:178-178 | what was read goes to the user |
| IdleConnections.IdleConnection.Destroy | src/connection_pool.h:31-44 | a read of the user that waits is told of the abort, and nothing else is posted |
| IdleConnections.ConnectionPool.PushBack | src/connection_pool.h:379-393 | lists the connection as idle with its read open, or drops it at once if a byte was waiting; at most one read is outstanding if and only if no direct read was under way |
| IdleConnections.ConnectionPool.PopFront | src/connection_pool.h:361-371 | gives back the oldest connection, open, with nothing queued, and no longer listed |
| IdleConnections.ConnectionPool.UnexpectedRead | src/connection_pool.h:389-392 | data for a pooled connection takes exactly that one off the list |
| AtomicStrings.RunInv | src/client_lib.cpp:14-61 | for any number of readers and every interleaving: one holder of the read flag, and no reader in its critical part while the writer assigns |
| AtomicStrings.CopiesAreWhole | src/client_lib.cpp:38-51 | no reader copies while the writer assigns, and every copy is a value that was written |
| AtomicStrings.WrittenIsCalled | src/client_lib.cpp:46-56 | the values assigned are, in order, the initial one and the arguments of `set`: all of them, or all but the last while the writer has not come to it |
| AtomicStrings.CopyIsLatest | src/client_lib.cpp:20-44 | every call of `get_c_str` adds one copy, of the value assigned last |
| AtomicStrings.OneReaderNeverStalls | src/client_lib.cpp:11-53 | with one reader, no reachable state has every active party asleep |
| AtomicStrings.TwoReadersCanStall | src/client_lib.cpp:25-49 | with two or more, one is reachable |
| AtomicStrings.NeverStallsIffOneReader | src/client_lib.cpp:11-53 | freedom from stalls if and only if there is at most one reader |
| Deadlines.Deadline.Start | src/timeout_stream.h:47-67 | takes over from the previous handler; keeps: one outstanding wait at most, never later than the deadline, and one whenever a handler is due |
| Deadlines.Deadline.Stop | src/timeout_stream.h:69-77 | the handler is given up for good; a wait in flight stays in flight |
| Deadlines.Deadline.Elapse | src/timeout_stream.h:64-66 | the timer runs out; nothing else changes |
| Deadlines.Deadline.OnTimer | src/timeout_stream.h:80-95 | fires, re-arms or does nothing; over all calls each handler runs at most once, never before its deadline and never after `stop`, and is never called when empty |
| CacheFetch.GetMaxAge | src/cache_control.cpp:74-110 | the greatest readable "s-maxage", or without one the greatest readable "max-age" |
| CacheFetch.IsExpired | src/cache_control.cpp:119-151 | past that age; where there is none, past "Expires", or there is no such date |
| CacheFetch.MustRevalidate | src/cache_control.cpp:183-204 | exactly the requests with a tag, a maximum age of zero, "no-cache" or "no-store" |
| CacheFetch.WaitForFirst | src/cache_control.cpp:263-269 | wakes at the first step that shows a success or both failures |
| CacheFetch.Fetch | src/cache_control.cpp:206-363 | for every order of completion: fails if and only if the origin failed and the cache failed too or the origin was aborted under forced revalidation; says exactly which answer is served; an expired stored response goes out without a warning only after "not modified" |

## Left out

- Sockets, TLS, uTP, DNS, files, metrics, logging, Rust bridges, configuration and the HTML front end: input and output without a hard property.
- `src/route.cpp`: a table of cases over a few flags, without state or loops.
- `data_put_mutable` (`src/bittorrent/mainline_dht.cpp:871-874`): it counts a node as responsible when the write failed, so the lookup theorem does not speak of it.
- The queries `get`, `get_peers` and `announce_peer`, and the peers and values that a search collects beside the ids: single branches.
- `ProximityMap::full`, `NodeID::Range`, `NodeID::generate`, `Announcer`, `OriginPools`, `RateCounter`, `UdpMultiplexer`, `Stat`, `http_response::Reader` and the codecs: not used by the core, or rates and timing.
- Integer widths: `queries_failed` and sizes are unbounded. Numbers in bencoding are 64-bit, and the limit of 100 keeps the 8-bit nesting counter from wrapping.
- Bytes are characters, endpoints are numbers, and `boost::optional` and exceptions are `Option`.
- RoutingTables.MaxDistance: a bit position beyond the last one leaves the id as it is, where the source writes outside its buffer; the methods count the positions, and `PositionsInRange` says exactly when that happens.
- BencodingParser.Input.ParseValueAtFront: what is left of the input after a failed parse is not stated, as no caller looks at it.
- Numbers.ParseUint64: the byte behind the end of the text, which the source reads, is a parameter.
- WriteTokens.TokenIsForOne: assumes that SHA-1 does not collide, that times print with one length and, for the second half, differently within the run, and that ids have one length, as they do.
- Lookup.LookupCorrect: liveness is not claimed; a job whose query never returns keeps the search waiting until it is dismissed or cancelled.
- IdleConnections.ConnectionPool.PushBack: requires that the connection was not disqualified, that is closed, before; the source does not check it. The destructor's hand-back of connections to the pool is this method.
- IdleConnections.IdleConnection.AsyncReadSome: the order of bytes is promised until the idle read is opened beside a direct read; two reads outstanding on one stream have no order of their own.
- PutHandler.StorageNode.HandlePut: tokens and the nodes nearest to the target are answers passed in; the modules for tokens and for the routing table say what those answers are.
- AtomicStrings.RunInv: accesses to flags are sequentially consistent, as the source asks by default.
- CacheFetch.GetMaxAge: splitting, trimming and unquoting of header text is not modelled; directives are given.
- CacheFetch.IsExpired: comparisons with a time stamp that is no date are false, as in the date library used; that library is not part of this model.
- CacheFetch.Fetch: cancellation of the waiting coroutine itself is not modelled.
