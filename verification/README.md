# Matching documents against continuous queries: a verified model

The repository keeps a set of continuous queries and answers each batch of pushed documents with the ids of
the queries that match: a query matches a document if each of its words has a word in the document that is
equal to it, or within its Hamming threshold, or within its edit threshold (`Includes/core.h:64-81`, `145-151`).
This project models how it does that, and proves that it does. The result over everything is
`TopImpl.Server.RunBatch`: from any reachable state, whatever queries came and went and whatever batches went
before, the answer for every document is exactly the ascending list of the live queries that match it, except for
those at Hamming or edit distance 0, which are missing (see below).

What it is built from, bottom up:

- **Words and distances** (`Words`, `EditDistance`, `Masks`, `Insertions`): the textbook recursion, proved to be
  the number of single-character edits, and what a seven-bit match mask has to say about two words.
- **Kernels** (`KernelDiff3`, `KernelDiff2`, `KernelDiff1`, `Detours`, `KernelDiff0`, `Kernels`): the four
  hand-written bounded distance routines, which build no matrix. Each returns the exact mask.
- **Filter** (`Deletions`, `MatchPrune`): words with characters deleted as hash keys. Nothing near is missed, and
  nothing wrong is entered, for any hash function.
- **Registry and delta join** (`TokenStructs`, `TokenManager`, `DeltaJoin`, `BatchJobs`, `MatchOnce`, `MatchBatch`):
  each batch compares what is new, and no pair more often than it waits for on the lists; the relation is complete at
  the end of every batch of every run.
- **Query index** (`Queries`, `QuerySlots`, `QueryIndex`): queries that ask for the same share a slot, and slots are
  recycled.
- **Answers** (`HitMatrix`, `Verdict`, `GenerateRes`, `ResultMerge`, `Answers`, `TopImpl`): the hit matrix, the
  bottom-up merge of the id lists, and the end-to-end result. `Splitting` cuts strings into words.
- **Hash table** (`Probing`, `BucketTable`, `DenseHashtable`, `Serialization`): the bundled `dense_hashtable`
  refines a finite map, and survives being written to a stream and read back.
- **Scheduler** (`Scheduler`, `JobQueue`, `HashJobs`, `PhaseMix`): the job queue and its barrier groups as a protocol
  of atomic steps, the queue itself, whose operations are steps of that protocol, the jobs that open a batch, and a
  history of the queue.

Where the source updates an object in place, so does the model (`TokenInfo`, `TokenManager`, `Relations`, `Matcher`,
`QueryIndex`, `Query`, `BitArea`, `DenseHashtable`, `JobQueue`, `Server`), with a value that its methods are
specified by: `View` for the registry, `contents` for the hash table, `state` for the job queue, `live` and
`documents` for the server.

Where the code does not do what it promises, the code is followed, and each case has its exact condition and a
concrete input:

- Distance 0. `Includes/core.h:145-148` admits it for every type, but a Hamming or edit request at distance 0 is filed
  nowhere (`TokenIndex/TokenStructs_Vector.cc:38-72`). The answers of a batch are right whatever its documents are if
  and only if no live query is of that kind; otherwise exactly these are missing (`TopImpl.AnswersRight`). Query
  (Hamming, 0, "word") and a document that holds "word" show it (`TopImpl.MissedAtDistanceZero`).
- Removing such a query (`EndQuery`) reads the size of a list that may not be there
  (`TokenIndex/TokenStructs_Vector.cc:98-100`). This happens if and only if the query is one at Hamming or edit distance
  0 that no other query shares its slot with, and for one of its words no live query has a request in the bucket that
  is searched (`TopImpl.EndQueryFaults`, `TopImpl.NullReadAtDistanceZero`).
- The id 0 is the empty key of the id map (`QueryIndex/QueryIndex.cpp:25`), and indexing the map with it fails an
  assertion (`sparsehash-2.0.2/src/sparsehash/internal/densehashtable.h:982-985`; the Makefile does not turn assertions
  off). `StartQuery` and `EndQuery` end the process if and only if the id is 0.
- Removing an id a second time (`RemoveQuery`) keeps the index consistent if and only if the slot the id had is in
  use; otherwise the slot lands on the recycle stack twice (`QueryIndex.RemovedTwice`). The interface rules the second
  call out.
- Two live queries are in the same slot if and only if they ask for the same and their words weigh less than 100000 in
  the hash sum (`QuerySlots.SharesSlot`). Heavier ones get slots of their own (`TopImpl.HeavyTwins`), which costs memory
  but no answer.
- Strings that end in a space. A document that does is split for ever; a query that does gets an empty word on top of
  its own; all other strings are split right (`Splitting.SplitDocument`, `Splitting.SplitQuery`, and "word " in
  `Splitting.TrailingSpace`). The empty word comes first in the query and is refused, so such a query is never reported
  (`Answers.EmptyWordNeverReported`).
- Phases. The next phase of a batch is scheduled when the queue is empty. Then everything in front of a barrier group is
  done if and only if no worker holds a barrier of the group behind other work (`Scheduler.IdleQueueSeparates`). If so,
  all that the jobs in front of the group schedule lies in front of the next phase (`Scheduler.PhaseOrder`); if not, a
  job in front of the group can schedule one behind it (`Scheduler.LateJob`). A fetch takes a barrier together with the
  work in front of it if and only if that work weighs less than the first entry of the weights allows
  (`JobQueue.JobQueue.FetchWork`). Each call that puts a zero in front of other weights, two in a batch, leaves a weight
  of one over, so this cannot happen to the hashing jobs of a batch for thousands of batches
  (`JobQueue.HashBarriersAlone`), but it does in the end: after 2312452 batches of one document with one word, a
  batch with a new query has its first hashing job schedule a job behind the next phase (`PhaseMix.PhasesMixed`).

## Model

| member | source | states |
|---|---|---|
| TopImpl.Server.RunBatch | Includes/core.h:145-151 | End to end: for every document of a batch the answer is the ascending list, each id once, of exactly the live queries of which every word has a match in the document, without those at Hamming or edit distance 0; afterwards no documents are left, the same queries are live, and the state is valid for the next batch |
| TopImpl.AnswersRight | Includes/core.h:145-151 | The answers are right for all documents if and only if every live query asks for exact matching or for distance 1 or more |
| Answers.ReportedIsAnswer | Includes/core.h:145-151 | The same for any set of live queries: what is reported is what matches, for every document, exactly without unfiled queries |
| TopImpl.MissedAtDistanceZero | TokenIndex/TokenStructs_Vector.cc:38-72 | A concrete run: the document holds the very word of a live query at Hamming distance 0, and the answer lacks the query |
| TopImpl.Server.StartQuery | top_impl.cpp:247-279 | For any type and any distance the interface admits: a new query becomes live with its type, distance and exactly its set of words; documents already pushed and all other queries are untouched; the call aborts if and only if the id is 0 |
| TopImpl.Server.EndQuery | top_impl.cpp:281-295 | Exactly this query stops being live, and everything stays valid if and only if the id is not a removed one whose slot has been given up; the call aborts exactly for id 0 and reads a missing list exactly when the slot lacks one |
| TopImpl.EndQueryFaults | TokenIndex/TokenStructs_Vector.cc:96-101 | Removing a live query reads a missing list if and only if it is at Hamming or edit distance 0, alone in its slot, and no live query has a request for one of its words in the bucket that is searched |
| TopImpl.NullReadAtDistanceZero | TokenIndex/TokenStructs_Vector.cc:96-101 | A concrete run that ends in such a read: one query at Hamming distance 0, taken back |
| Splitting.SplitQuery | top_impl.cpp:262-275 | The words are the non-empty pieces between the spaces, in order, and an empty one on top exactly if the string ends in a space |
| Splitting.SplitDocument | JobScheduler/JobDedup.cpp:33-82 | The words are the non-empty pieces between the spaces, in order, and the loop then goes on for ever exactly if the string ends in a space |
| Splitting.WordsBoth | top_impl.cpp:262-275 | Two strings with a space between them have the words of the first and then those of the second |
| Splitting.OneWordOrNone | top_impl.cpp:262-275 | A string without a space is one word, or none if it is empty |
| Splitting.WordsOfJoined | JobScheduler/JobDedup.cpp:47-79 | Words joined by single spaces are split into just these words |
| Splitting.TrailingSpace | top_impl.cpp:262-275 | The string "word ": as a query it gives an empty word too, and as a document it is split for ever |
| Answers.EmptyWordNeverReported | QueryIndex/bitarea.h:92-100 | A query with an empty word is reported for no document: the word comes first and is refused, so no request is filed for the first position, while the count includes it |
| TopImpl.Server.MatchDocument | JobScheduler/JobDedup.cpp:68-83 | A pushed document is recorded as exactly the set of its words, which are numbered and listed in the order they are met |
| TopImpl.Server.PushWord | JobScheduler/JobDedup.cpp:67-81 | The list of words of the batch gains a word at its end when it is met for the first time in the batch and not otherwise; the latest document gains exactly this word |
| TopImpl.Server.FillMatrix | JobScheduler/JobRun.cpp:24-32 | After matching and marking, the hit matrix shows exactly the hits of the words of this batch, over a complete relation |
| TopImpl.Server.AnswerFor | JobScheduler/JobGenerateRes.cpp:37-58 | The answer for one document: sorted, and as a multiset the set of live queries that match it and are filed |
| TopImpl.Server.RunEnd | top_impl.cpp:214-245 | No document id of the finished batch survives at any word, all lists of the batch are empty, and the same queries are live |
| Verdict.PositionExact | MatchStuff/Results.cpp:44-82 | With a complete relation, a position of a slot is hit for a document if and only if its request was filed and the document has a word that matches the query word there under the type and distance of the query |
| Verdict.BitMeansMatch | Includes/core.h:64-81 | The bucket a request is filed under and the mask bit that triggers it mean the match of the interface: equality, Hamming threshold, or that many edits |
| Verdict.EntryIsMatch | QueryIndex/bitarea.cpp:14-34 | Soundness of a mark: whatever entry caused it, the document has a match for that query word |
| Verdict.MatchHasEntry | QueryIndex/bitarea.cpp:14-34 | Completeness of marking: a match in the document has an entry that marks the position |
| Answers.SlotExact | QueryIndex/bitarea.h:92-100 | The count test on a slot is the verdict on each of its queries, for all words together, and fails for queries that are not filed |
| Answers.HitsAreAnswer | QueryIndex/bitarea.cpp:45-57 | The ids in the slots that are hit are exactly the live queries that match and are filed, each once |
| GenerateRes.MarkAll | MatchStuff/Results.cpp:116-172 | Whatever the ranges and their order, in the end the matrix shows the hits of all words of the batch and nothing else |
| GenerateRes.AllRanges | MatchStuff/Results.cpp:116-139 | The ranges stay within their lists, and every word of the batch is in the range of some job |
| GenerateRes.MarkWord | MatchStuff/Results.cpp:53-82 | One word adds exactly the hits of its own entries |
| HitMatrix.BitArea.SetStauros | QueryIndex/bitarea.cpp:14-22 | Exactly the positions listed in a bucket whose bit is set are marked, for exactly the documents listed |
| HitMatrix.BitArea.Set | QueryIndex/bitarea.h:79-89 | Exactly one position is marked, in exactly the documents listed |
| HitMatrix.BitArea.CheckMeansAll | QueryIndex/bitarea.h:92-100 | The sum of five marks equals the word count if and only if each of the words is marked, given that no other position is |
| QueryIndex.QueryIndex.AddQuery | QueryIndex/QueryIndex.cpp:34-85 | The call aborts if and only if the id is 0. Otherwise the index stays consistent and the query live; it shares a slot if and only if one asks for just the same and its words weigh less than 100000; otherwise a recycled slot is used before a new one and joins the slots of its hash value. No other slot, hash entry or recycled slot changes |
| QueryIndex.QueryIndex.HashLookup | QueryIndex/QueryIndex.cpp:91-121 | A hit always asks for just what the query asks for, however stale the hash entry; there is a hit exactly if some slot does and the words weigh less than 100000 |
| QueryIndex.QueryIndex.RemoveQuery | QueryIndex/QueryIndex.cpp:135-149 | The call aborts exactly for id 0 and reads a missing list exactly when the slot lacks one. Otherwise the id leaves its slot alone and the index stays consistent if and only if the id is not one removed before whose slot is empty; in that case the slot is on the recycle stack twice |
| QueryIndex.RemovedTwice | QueryIndex/QueryIndex.cpp:135-149 | A concrete run after which the index is not consistent: one query, removed twice |
| QueryIndex.QueryIndex.AskAll | QueryIndex/QueryIndex.cpp:51-57 | The slot asks for each word of its query at its position, and for nothing else |
| QueryIndex.QueryIndex.WithdrawAll | QueryIndex/QueryIndex.cpp:141-143 | All requests of a slot are taken back, and none of another slot, unless one of them has no list to be looked for in, which is reported exactly then |
| QueryIndex.UnlistedIsUnfiled | TokenIndex/TokenStructs_Vector.cc:96-101 | Only the removal of a live Hamming or edit query at distance 0 can miss a list |
| QueryIndex.AddQid | QueryIndex/QidsVault.cpp:15-24 | The id list stays ascending and gains exactly this id |
| QueryIndex.RemoveQid | QueryIndex/QidsVault.cpp:25-33 | The id list stays ascending and loses exactly this id, if it has it |
| QuerySlots.TrackedWithRequest | TokenIndex/TokenStructs_Vector.cc:22-76 | A request keeps this in step: a bucket of a word lists a slot and position exactly if that slot asks for the word there and the request is one that is filed, and lists no slot twice |
| QuerySlots.TrackedWithoutRequest | TokenIndex/TokenStructs_Vector.cc:96-113 | Erasing the first entry of the slot in the bucket removes exactly the request that is taken back, and for a request that was not filed there is none |
| QuerySlots.QueryAdded | QueryIndex/QueryIndex.cpp:40-79 | A query in a slot of its own keeps every live id in exactly one slot that asks for what it asks for, the recycle stack exactly the empty slots without repeats, and every used slot findable by hash |
| QuerySlots.QueryGone | QueryIndex/QueryIndex.cpp:140-146 | The same is kept when the last query leaves a slot |
| QuerySlots.Vacated | QueryIndex/QueryIndex.cpp:135-149 | Giving up a slot keeps the invariant if and only if the removed id was live |
| QuerySlots.ServesIsFound | QueryIndex/QueryIndex.cpp:98-118 | A slot that makes a request is in use and is among the entries under the hash value of that request |
| QuerySlots.SharesSlot | QueryIndex/QueryIndex.cpp:91-121 | Over every history of additions and removals: two live queries are in the same slot if and only if they ask for the same and their words weigh less than 100000 |
| Queries.SameWordsSameTokens | QueryIndex/Query.cpp:22-34 | The token list is canonical: the same words in any order give the same list |
| Queries.Query.AddToken | QueryIndex/Query.cpp:22-34 | The list stays in strict strcmp order and gains exactly this word |
| Queries.FirstDifference | QueryIndex/Query.cpp:22-34 | Of two words with a common beginning the one with the smaller character behind it comes first |
| Queries.PrefixFirst | QueryIndex/Query.cpp:22-34 | A word comes before every longer one that starts with it |
| Queries.Query.HashValue | QueryIndex/Query.cpp:45-58 | The loop computes the hash of what is asked, which HashChanged and HashOfNothing determine |
| Queries.HashChanged | QueryIndex/Query.cpp:45-58 | Changing one character changes the hash by the difference times its position and that of its word, counted from one, and not at all in every second word |
| Queries.HashOfNothing | QueryIndex/Query.cpp:45-58 | Without characters the hash is 100000 times the distance, three more for Hamming and six more for edit distance |
| Queries.HashOfOneWord | QueryIndex/Query.cpp:45-58 | Edit distance 1 and "word" give 701083 |
| Queries.HashQuotient | QueryIndex/QueryIndex.cpp:104-105 | The quotient test recognises type and distance if and only if the words weigh less than 100000 |
| ResultMerge.Results | QueryIndex/bitarea.cpp:37-142 | The result is sorted and a permutation of the id lists of all hit slots, for any number and size of lists, and nothing is allocated for none |
| ResultMerge.MergeRuns | QueryIndex/bitarea.cpp:63-138 | The bound on the passes suffices for any number of runs, and swapping and copying back leave the sorted result in the output array |
| ResultMerge.Pass | QueryIndex/bitarea.cpp:81-130 | One pass turns sorted blocks of h runs into sorted blocks of 2h runs and loses nothing, whether or not the last run is left out |
| ResultMerge.MergeTwo | QueryIndex/bitarea.cpp:92-125 | The comparisons never run out before a run does, and two neighbouring runs become their merge in place of the destination |
| ResultMerge.MergeSorted | QueryIndex/bitarea.cpp:107-125 | The merge of sorted lists is sorted |
| ResultMerge.MergeElements | QueryIndex/bitarea.cpp:107-125 | The merge loses and adds nothing |
| ResultMerge.CollectRuns | QueryIndex/bitarea.cpp:45-57 | The starts recorded are those of the non-empty lists of the hit slots, one behind the other |
| Kernels.Stavroshtein | top_impl.h:399-432 | For all words, in either order: bit 3+k if and only if the Levenshtein distance is at most k, bit k if and only if lengths agree and the Hamming distance is at most k, bit 0 if and only if they are equal |
| Kernels.MaskMeaning | top_impl.h:399-432 | The mask does not depend on the order of the words, is empty exactly beyond three edits, and its edit bits count real insertions, deletions and replacements |
| Kernels.FarApart | top_impl.h:411-431 | Beyond three characters of difference in length the empty mask is the exact one |
| KernelDiff0.EditHamming | top_impl.h:309-397 | Equal lengths, any set of request bits: exactly the requested bits are set that hold for the words, whichever of the early returns is taken |
| KernelDiff0.Search | top_impl.h:342-394 | The four searches end with a distance no smaller than the true one that cannot be improved on within the threshold, or with every edit request answered |
| KernelDiff0.ResultExact | top_impl.h:337-341 | A result is exact for the requests, early or late, if the distance found is real and either answers every edit request or is the least |
| KernelDiff0.SearchComplete | top_impl.h:342-394 | No alignment within the threshold of the requests is missed by the four searches |
| KernelDiff0.Round | top_impl.h:344-392 | What one search finds is the cost of a real alignment, and no detour it stands for is cheaper, unless it stops early with every edit request answered |
| KernelDiff0.ReturnToMain | top_impl.h:371-388 | The two candidate returns to the main diagonal are both counted |
| Detours.MainWithinThree | top_impl.h:342-394 | Every alignment of at most three edits is plain replacement or one detour to a neighbouring diagonal |
| Detours.DetourIsAlignment | top_impl.h:342-394 | Every detour is an alignment, so its cost bounds the distance |
| Detours.FirstTwoSuffice | top_impl.h:342-347 | A detour may be taken to start at the first or second mismatch |
| KernelDiff1.EditHammingDiff1 | top_impl.h:260-304 | Length difference one: exact mask, and leaving early above three loses nothing |
| KernelDiff1.BandAtMostDist | top_impl.h:285-302 | The four diagonals contain an optimal alignment whenever the distance is four or less |
| KernelDiff1.NextH | top_impl.h:295 | The scalar h is the cell of the main diagonal, the cost added in advance being undone on a change of diagonal |
| KernelDiff1.NextHr | top_impl.h:296 | The scalar hr is the cell of diagonal 1 |
| KernelDiff1.NextHr2 | top_impl.h:297 | The scalar hr2 is the cell of diagonal 2 |
| KernelDiff1.NextHl | top_impl.h:298 | The scalar hl is the cell of diagonal -1 |
| KernelDiff1.BestGrows | top_impl.h:299-301 | The best of the four never decreases, which justifies the early exit |
| KernelDiff2.EditHammingDiff2 | top_impl.h:185-256 | Length difference two: exact mask |
| KernelDiff2.AfterFirstMismatch | top_impl.h:213-241 | The first phase with capped counters |
| KernelDiff2.SecondPhase | top_impl.h:242-255 | The second phase: the smaller counter is the capped optimum over non-decreasing diagonals |
| KernelDiff3.EditHammingDiff3 | top_impl.h:101-182 | Length difference three: exact mask |
| KernelDiff3.EmbedsIsLev | top_impl.h:101-182 | Distance three is the least possible and is reached exactly when the shorter word is embedded in the longer |
| KernelDiff3.NextFrontier | top_impl.h:122-180 | Greedy matching moves the longest embeddable prefix exactly as far as one more insertion allows |
| Insertions.InsAtMostDist | top_impl.h:185-256 | With at most one edit beyond the length difference no deletion can pay off |
| EditDistance.LevIsEditDistance | Includes/core.h:76-80 | The recursion is the edit distance of the interface: it is at most k if and only if k edits suffice |
| EditDistance.DistReachable | Includes/core.h:76-80 | The edits the recursion counts can really be made |
| EditDistance.TransformsBound | Includes/core.h:76-80 | No shorter series of edits exists |
| EditDistance.LevSym | Includes/core.h:76-80 | The distance does not depend on the order of the words |
| Masks.ExactUnique | top_impl.h:399-432 | There is only one exact mask |
| Masks.ExactSym | top_impl.h:402-410 | Exactness does not depend on the order of the words |
| Words.MismatchesAre | Includes/core.h:64-81 | The Hamming distance is the number of positions at which two words differ |
| Deletions.MeetingPoint | JobScheduler/JobMatchPrune.cpp:108-278 | Words within distance k whose lengths differ by d share a word k-d deletions below the shorter and k below the longer |
| Deletions.CommonSubsequence | JobScheduler/JobMatchPrune.cpp:108-278 | Words at distance e have a common subsequence no more than e characters shorter than the longer one |
| Deletions.DeleteOne | JobScheduler/JobMatchPrune.cpp:804-818 | The loops write exactly the words with one character dropped, one for each choice of positions |
| Deletions.DeleteTwo | JobScheduler/JobMatchPrune.cpp:780-803 | The loops write exactly the words with two characters dropped, one for each choice of positions |
| Deletions.DeleteThree | JobScheduler/JobMatchPrune.cpp:759-779 | The loops write exactly the words with three characters dropped, one for each choice of positions |
| Deletions.DeleteCount | JobScheduler/JobGenHashes.cpp:63-104 | All four depths, one word for each choice of positions |
| MatchPrune.GenHashes | JobScheduler/JobGenHashes.cpp:49-113 | A word is put once for each set of deleted positions into the bucket of what is left, and nothing else changes |
| MatchPrune.CheckBucket | JobScheduler/JobMatchPrune.cpp:37-106 | For any bucket content, collisions included: only right entries are added, none twice, and exactly the words within distance three are remembered |
| MatchPrune.OnTheFly | JobScheduler/JobMatchPrune.cpp:757-828 | Every neighbour of the probing word is looked up, and exactly the near words among what is found are remembered |
| MatchPrune.MeetsInBucket | JobScheduler/JobMatchPrune.cpp:131-167 | A near pair meets in a bucket at the depths the searches use for its difference in length |
| MatchPrune.Join | JobScheduler/JobMatchPrune.cpp:108-537 | For any hash function: exactly the near words that the lookups of the tier find are paired with the word, with the exact mask, none twice in a call; all indexed words of the given length within the tier are among them and no word of another length is |
| TokenStructs.TokenInfo.InsertQmid | TokenIndex/TokenStructs_Vector.cc:22-94 | The request is filed in its bucket, or nowhere for Hamming and edit at distance 0; a bit of the request mask is set exactly if its bucket is in use, and a rise of the highest request is reported exactly when there is one |
| TokenStructs.TokenInfo.RemoveQmid | TokenIndex/TokenStructs_Vector.cc:96-158 | Exactly the first entry of the slot goes, the bits stay in step, and the highest request is forgotten exactly with the last request |
| TokenStructs.TokenInfo.NewQueryToken | TokenIndex/TokenStructs_Vector.cc:8-21 | The first request alone decides the list the token goes on, which is the lowest for a request that is not filed |
| TokenStructs.TokenInfo.InsertDid | TokenIndex/TokenStructs_Vector.cc:169-185 | A document is listed once, and a word already met in the batch is reported |
| TokenStructs.TokenInfo.NewDocToken | TokenIndex/TokenStructs_Vector.cc:163-168 | A word becomes a document word of this batch |
| TokenStructs.RequestBits | TokenIndex/TokenStructs_Vector.cc:22-76 | Bucket number b has bit b of the request mask |
| TokenStructs.SingleRequestTier | TokenIndex/TokenManager_Vector.cc:51-70 | The comparisons on the request mask pick the list of the tier of the request |
| TokenStructs.TierIsDistance | TokenIndex/TokenManager_Vector.cc:51-70 | The tier of a request is its distance, whatever its type |
| TokenStructs.RaiseTests | TokenIndex/TokenStructs_Vector.cc:77-93 | The three tests on the request mask notice exactly a request above the highest so far |
| TokenManager.TokenManager.AddQueryToken | TokenIndex/TokenManager_Vector.cc:277-323 | A word has one number for ever, whichever side it came from first; the request is filed if it is one that is; the list of the tier gains the token exactly once if it is new or its reach has grown and nothing otherwise, the list of new words likewise; words out of range are refused |
| TokenManager.TokenManager.AddDocToken | TokenIndex/TokenManager_Vector.cc:330-370 | The document word is entered once and put on the list of new words exactly once, when it is new; a word met before in the batch is reported |
| TokenManager.TokenManager.RemoveTokenQmidInfo | TokenIndex/TokenManager_Vector.cc:371-386 | One request of one slot is taken back, and nothing else of the registry changes |
| TokenManager.TokenManager.NewBatch | TokenIndex/TokenManager_Vector.cc:184-195 | All lists of the batch are emptied, and nothing else changes |
| DeltaJoin.EveryBatchEndsComplete | JobScheduler/JobGenHashesToken.cpp:43-129 | Over every run of queries, removals, documents and batches, each batch ends with an entry with the exact mask for every document word and query token within the highest request of the token |
| DeltaJoin.StepKeepsDelta | TokenIndex/TokenManager_Vector.cc:36-195 | Every operation keeps this: a pair that is owed an answer has one or waits on a list of the batch |
| DeltaJoin.DeltaWithTier | TokenIndex/TokenManager_Vector.cc:154-171 | A raised request, or one after all were taken back, leaves no pair unlisted |
| DeltaJoin.DeltaWithOccurrence | TokenIndex/TokenManager_Vector.cc:104-126 | A new document word leaves no pair unlisted, in the first batch because of the request lists |
| DeltaJoin.MatchedCompletes | JobScheduler/JobMatchPrune.cpp:539-585 | Comparing what is listed completes the relation |
| BatchJobs.RequestJobs | JobScheduler/JobGenHashes.cpp:114-250 | The three sections together cover each new token of each tier and each length within it exactly once, 30 tokens a job for tiers 0 and 1 and one a job above |
| BatchJobs.DocumentJobs | JobScheduler/JobGenHashesToken.cpp:105-129 | Each new document word is covered exactly once for each length within three, one word a job |
| BatchJobs.PushRanges | JobScheduler/JobGenHashes.cpp:125-134 | The chunk loop covers each element once more; the jobs are the full ranges in their order and a last one for what is left |
| BatchJobs.AllJobs | MatchStuff/MatchAll.cpp:42-88 | Over all lengths each pairing called for is covered exactly once and no other is |
| BatchJobs.ListedMore | TokenIndex/TokenManager_Vector.cc:51-70 | A request put on the lists comes last on the list of its tier and length and on no other |
| BatchJobs.ListedDocsMore | TokenIndex/TokenManager_Vector.cc:104-126 | A new document word comes last on the list of its length and on no other |
| MatchBatch.Matcher.Match | MatchStuff/MatchAll.cpp:42-88 | After hashing the new words, each exactly once, and running the jobs in any order, the relation is complete and all words are in the buckets; no pair gets more new entries than list entries wait for it |
| MatchBatch.RunJobs | JobScheduler/JobMatchPrune.cpp:539-585 | Whatever job is taken next, in the end every pairing called for is answered, and no pair has gained more entries than list entries wait for it |
| MatchOnce.JoinedOnce | JobScheduler/JobMatchPrune.cpp:37-106 | One search enters a pair at most once, and only pairs of its own word with words of its length |
| MatchBatch.RequestEnters | JobScheduler/JobMatchPrune.cpp:539-585 | The search for one listed request enters only pairs that this list entry is about |
| MatchOnce.Lists.BudgetIsWaiting | JobScheduler/JobGenHashes.cpp:114-250 | All jobs together take up no more list entries about a pair than wait for it |
| MatchBatch.HashNew | JobScheduler/JobGenHashes.cpp:47-113 | Afterwards all words of the side are in the buckets in full, and only they; the buckets gain each listed word once at each of its neighbours and nothing else |
| MatchBatch.AllAnswered | JobScheduler/JobGenHashes.cpp:114-250 | Once every pairing called for is answered, no owed pair is left |
| DenseHashtable.DenseHashtable.FindPosition | sparsehash-2.0.2/src/sparsehash/internal/densehashtable.h:824-848 | The search ends; it gives the bucket of a stored key, and otherwise the first free bucket, erased or unused, at which an insertion keeps every key reachable |
| DenseHashtable.DenseHashtable.Find | sparsehash-2.0.2/src/sparsehash/internal/densehashtable.h:852-859 | A key is found if and only if the map has it |
| DenseHashtable.DenseHashtable.InsertAt | sparsehash-2.0.2/src/sparsehash/internal/densehashtable.h:908-923 | The map gains the pair, and the counts of used and erased buckets stay right |
| DenseHashtable.DenseHashtable.Insert | sparsehash-2.0.2/src/sparsehash/internal/densehashtable.h:966-969 | The map gains the pair unless it has the key; the size follows the rule of one more element; without a resize the pair goes to the first free bucket of its search |
| DenseHashtable.DenseHashtable.InsertNoResize | sparsehash-2.0.2/src/sparsehash/internal/densehashtable.h:926-941 | Without a check for room: a new pair goes to the first free bucket of its search and no other bucket changes |
| DenseHashtable.DenseHashtable.FindOrInsert | sparsehash-2.0.2/src/sparsehash/internal/densehashtable.h:982-998 | The map gains the default value unless it has the key, the bucket returned is that of the key, also after a resize, and a key that is there changes nothing |
| DenseHashtable.DenseHashtable.Erase | sparsehash-2.0.2/src/sparsehash/internal/densehashtable.h:1002-1018 | The map loses exactly the key, the result tells whether it had it, and its bucket alone is marked erased, which asks for a look at shrinking |
| DenseHashtable.DenseHashtable.CopyFrom | sparsehash-2.0.2/src/sparsehash/internal/densehashtable.h:631-653 | The copy stands for the same map, has no erased buckets, and holds the elements where inserting them in table order puts them |
| DenseHashtable.DenseHashtable.ResizeDelta | sparsehash-2.0.2/src/sparsehash/internal/densehashtable.h:571-617 | The table is resized if and only if a shrink is asked for and due or the new elements do not fit; then its size is the only one these two rules allow and erased buckets are gone, otherwise nothing is touched; the map is the same and there is room |
| DenseHashtable.ResizedToUnique | sparsehash-2.0.2/src/sparsehash/internal/densehashtable.h:571-617 | The rules of shrinking and growing leave only one size |
| DenseHashtable.DenseHashtable.Grow | sparsehash-2.0.2/src/sparsehash/internal/densehashtable.h:581-617 | The size is the smallest that holds what remains and what is to come, twice that if erased elements needed more and the larger table would not be due to shrink at once; elements lie where copying them in turn puts them |
| DenseHashtable.DenseHashtable.MaybeShrink | sparsehash-2.0.2/src/sparsehash/internal/densehashtable.h:539-566 | The table shrinks exactly if it is larger than the default size and below its lower load, to the largest halving that is not too empty or the default size; it keeps the map, drops erased buckets, and holds its elements where copying them in turn puts them; otherwise it is untouched |
| DenseHashtable.ShrunkSize | sparsehash-2.0.2/src/sparsehash/internal/densehashtable.h:554-559 | The halving loop gives the only size that is a power of two from the default to half, is not too empty unless it is the default, and could not have been halved less; it has room for the elements |
| DenseHashtable.MinBuckets | sparsehash-2.0.2/src/sparsehash/internal/hashtable-common.h:329-342 | The smallest power of two, at least four, that is neither below the size wanted nor too crowded |
| DenseHashtable.DefaultThresholds | sparsehash-2.0.2/src/sparsehash/internal/hashtable-common.h:309-312 | A table of 2048 buckets holds 1433 elements before it grows, and one of 4096 may shrink below 1146 |
| DenseHashtable.MinSizeUnique | sparsehash-2.0.2/src/sparsehash/internal/hashtable-common.h:329-342 | There is only one such size |
| DenseHashtable.DenseHashtable.NeverFull | sparsehash-2.0.2/src/sparsehash/internal/densehashtable.h:845-846 | There is always an unused bucket |
| Probing.VisitsEveryBucket | sparsehash-2.0.2/src/sparsehash/internal/densehashtable.h:843-846 | Triangular probing modulo a power of two visits every bucket once |
| Probing.ProbesDiffer | sparsehash-2.0.2/src/sparsehash/internal/densehashtable.h:844 | No bucket is probed twice in as many probes as there are buckets |
| Probing.NextProbe | sparsehash-2.0.2/src/sparsehash/internal/densehashtable.h:844 | The step of the loop leads to the next triangular probe |
| BucketTable.InsertHolds | sparsehash-2.0.2/src/sparsehash/internal/densehashtable.h:908-923 | Filling the first free bucket of the search keeps every stored key reachable |
| BucketTable.EraseHolds | sparsehash-2.0.2/src/sparsehash/internal/densehashtable.h:1002-1018 | Marking a bucket as erased keeps every other key reachable |
| BucketTable.NotStored | sparsehash-2.0.2/src/sparsehash/internal/densehashtable.h:830-834 | A search that meets an unused bucket first proves the key absent |
| BucketTable.SearchEnds | sparsehash-2.0.2/src/sparsehash/internal/densehashtable.h:829-847 | With an unused bucket anywhere, the search ends within as many probes as there are buckets |
| Serialization.Load | sparsehash-2.0.2/src/sparsehash/internal/densehashtable.h:1131-1161 | Whatever was in it before, a table that reads what another one has written stands for the same map, with the same number of buckets and elements |
| Serialization.Save | sparsehash-2.0.2/src/sparsehash/internal/densehashtable.h:1103-1127 | Erased buckets are purged first if there are any, into the smallest table not below the default size, otherwise the table is untouched; the map is the same, and the stream is its image |
| Serialization.Unserialize | sparsehash-2.0.2/src/sparsehash/internal/densehashtable.h:1131-1161 | A stream is accepted only with the magic number and the two sizes that are read, and with a byte for every eight buckets if the element reader stays within the stream; an image gives back every bucket and the element count |
| Serialization.Serialize | sparsehash-2.0.2/src/sparsehash/internal/densehashtable.h:1103-1127 | Header, then for each eight buckets a bitmap and the elements in use |
| Serialization.RestoredHolds | sparsehash-2.0.2/src/sparsehash/internal/densehashtable.h:1131-1161 | A table that agrees bucket by bucket stands for the same map |
| Serialization.ReadNumber | sparsehash-2.0.2/src/sparsehash/internal/hashtable-common.h:161-173 | The number read is the one whose bytes are in the stream, and a stream that ends early is refused |
| Serialization.WriteNumber | sparsehash-2.0.2/src/sparsehash/internal/hashtable-common.h:175-187 | The number is written most significant byte first |
| Serialization.MagicBytes | sparsehash-2.0.2/src/sparsehash/internal/densehashtable.h:1103-1106 | A stream starts with the bytes 13, 57, 86, 42 in base sixteen |
| Serialization.NumberInjective | sparsehash-2.0.2/src/sparsehash/internal/hashtable-common.h:161-187 | Numbers that fit are known by their bytes |
| Serialization.PackedBits | sparsehash-2.0.2/src/sparsehash/internal/densehashtable.h:1111-1125 | Testing a bit of the bitmap byte gives the flag that was packed there |
| Serialization.BitSetMeans | sparsehash-2.0.2/src/sparsehash/internal/densehashtable.h:1146-1152 | Testing a bit of the byte is halving it that often and looking whether the rest is odd |
| Serialization.Weights | sparsehash-2.0.2/src/sparsehash/internal/densehashtable.h:1111-1119 | The eight buckets of a group have the bits 1, 2, 4 and so on up to 128 |
| Serialization.ElementsInOrder | sparsehash-2.0.2/src/sparsehash/internal/densehashtable.h:1120-1125 | The elements of a group are those of its used buckets in table order |
| Scheduler.BarrierSafety | JobScheduler/JobBarrier.cpp:11-21 | In every interleaving: when any job behind a barrier group has been fetched, every job in front of it is done |
| Scheduler.FetchedOnce | JobScheduler/job_scheduler.cpp:97-130 | A job that has left the queue left it in exactly one step, a fetch |
| Scheduler.QueueAccounted | JobScheduler/job_scheduler.cpp:64-127 | The counter of available work is the length of the queue, in every reachable state |
| Scheduler.DoneForGood | JobScheduler/job_scheduler.cpp:132-151 | A job that is done stays done |
| Scheduler.StepKeepsInv | JobScheduler/job_scheduler.cpp:64-151 | Every critical section of any worker keeps the invariant |
| Scheduler.RunKeepsInv | JobScheduler/job_scheduler.cpp:64-151 | So does every run, from the empty queue |
| Scheduler.AllArrivedSeparates | JobScheduler/JobBarrier.cpp:13-18 | When all workers hold a barrier of a group, the whole group is fetched and everything in front of it is done |
| Scheduler.AllArrived | JobScheduler/JobBarrier.cpp:13-18 | When the counter of a group is used up, all workers are at a barrier of that group, all but the last one waiting |
| Scheduler.PhaseOrder | MatchStuff/Results.cpp:140-149 | Everything that the jobs in front of a barrier group schedule lies in front of every group scheduled from an empty queue on, if then no worker holds a barrier of the group behind other work |
| Scheduler.IdleQueueSeparates | JobScheduler/job_scheduler.h:66-72 | When the queue is empty, everything in front of a group is done if and only if no worker holds a barrier of the group behind other work |
| Scheduler.EmptyIsIdle | JobScheduler/job_scheduler.h:66-72 | The condition holds at an empty queue if something behind the group has been scheduled, or else if the barriers of this one group were fetched alone |
| Scheduler.LateJob | MatchStuff/Results.cpp:140-149 | The condition cannot be weakened: from every run in which it fails at an empty queue, the next group is scheduled and then a job in front of the first group schedules one behind it |
| JobQueue.JobQueue.FetchWork | JobScheduler/job_scheduler.cpp:97-130 | A step of the protocol: the jobs are a front part of the queue, none behind a barrier or stop job, just as many as it takes to reach the weight allowed. The first barrier is among them if and only if the work in front of it weighs less than allowed. What is left over grows only by a job charged to a zero |
| JobQueue.JobQueue.Schedule | JobScheduler/job_scheduler.cpp:64-95 | A step of the protocol: the jobs go to the end of the queue in their order, and their weight on the last entry; a call that starts with a barrier puts a zero in front, and that is counted if there were weights before |
| JobQueue.JobQueue.TakeJobs | JobScheduler/job_scheduler.cpp:110-127 | The loop takes the shortest front part that reaches the weight or ends in a barrier or stop job; the weights stay those of the queue plus what has been left over, exactly |
| JobQueue.TakesBarrier | JobScheduler/job_scheduler.cpp:110-127 | Of a queue with work and then a barrier in front, the loop takes the barrier if and only if the work weighs less than allowed |
| JobQueue.TakeAccounted | JobScheduler/job_scheduler.cpp:113-121 | Taking one job keeps the account: the weights are those of the queue, one for each zero used up, and what the jobs charged to zeros weigh more |
| JobQueue.HashBarriersAlone | MatchStuff/MatchAll.cpp:42-88 | With only hashing jobs and their barriers in the queue, no fetch takes a barrier behind work while less than 16903 is left over |
| PhaseMix.PhasesMixed | JobScheduler/job_scheduler.cpp:97-130 | A history of the queue from its creation: at an empty queue a group is scheduled, and then a job in front of the group before it schedules a job behind both |
| PhaseMix.ResultBatch | MatchStuff/Results.cpp:140-172 | The two barrier groups and two jobs of the results of a small batch leave two more of the weights over |
| PhaseMix.PassGroup | JobScheduler/JobBarrier.cpp:11-21 | With the work in front of a group in the queue, the 24 workers do it, come to the barriers and all pass, whatever the weights |
| PhaseMix.PaidShort | JobScheduler/job_scheduler.cpp:115-120 | A zero in front costs the next job its whole weight, so a small batch leaves two over, or one at first |
| JobQueue.JobQueue.PushStop | JobScheduler/job_scheduler.cpp:40-47 | A stop job joins the queue without weight |
| JobQueue.Fetched | JobScheduler/job_scheduler.cpp:97-130 | Any front part of the queue with nothing behind a barrier or stop job is a step of the protocol, and the rest is what lies behind it in the log |
| JobQueue.JobQueue.Proceed | JobScheduler/job_scheduler.cpp:132-151 | All other steps of the protocol leave the queue as it is |
| HashJobs.SplitGenHashes | MatchStuff/MatchAll.cpp:42-88 | 112 jobs in their order, and their weight of 1505, so with their barriers they stay below the weight at which a fetch takes more than one job |
| HashJobs.EachJobOnce | MatchStuff/MatchAll.cpp:42-88 | Each of the 28 lengths has one job for each of its three sections and one for its queries, and there is no other job |
| HashJobs.JobsInOrder | MatchStuff/MatchAll.cpp:42-88 | Every job comes before those behind it in the order of the loops: the four frequent lengths first, documents before queries, section by section, then the others from the longest down |
| HashJobs.HeavyEnough | JobScheduler/JobGenHashes.h:22-27 | Every hashing job weighs 5 or more, as JobQueue.HashBarriersAlone asks |
| HashJobs.FrequentFirst | MatchStuff/MatchAll.cpp:42-64 | The first twelve jobs are document jobs of weight 30 and the next four query jobs of weight 50, all of the four frequent lengths |
| Queries.HeavyQuery | QueryIndex/Query.cpp:45-58 | A concrete query whose words weigh so much that the quotient test takes it for one of another type |
| TopImpl.HeavyTwins | QueryIndex/QueryIndex.cpp:91-121 | A concrete run with two live queries of that pattern in different slots |
| Serialization.GroupBits | sparsehash-2.0.2/src/sparsehash/internal/densehashtable.h:1111-1119 | The byte written for eight buckets has exactly the flags of those in use, also past the end of the table |
| QueryIndex.QueryIndex.TakeSlot | QueryIndex/QueryIndex.cpp:40-67 | The slot used is the one on top of the recycle stack or else a new one, and no other slot changes |
| HitMatrix.BitArea.constructor | QueryIndex/bitarea.h:47-62 | A fresh matrix has no marks and knows for each document how many words each slot asks for |
| TokenManager.TokenManager.ClearIds | TokenIndex/TokenStructs_Vector.h:159-161 | The documents of one word are dropped, and nothing else of the registry changes |

## Left out

- TopImpl.Server.StartQuery: takes the words already split (Splitting.SplitQuery does that), between 4 and 31 characters, as the interface promises. What the index does with the number of an empty word, which is read from a variable that was never set, is not modelled, only that the query is not reported (Answers.EmptyWordNeverReported). After an aborted or failed call nothing is promised.
- TopImpl.Server.RunBatch: its phases follow each other in one thread. That the worker threads keep them apart is proved about the protocol (Scheduler.PhaseOrder, Scheduler.BarrierSafety), and the two are not tied together in one theorem.
- QueryIndex.QueryIndex.AddQuery: asks for an id not used before, as the interface promises. The id map is a finite map here and not an object of the hash table; that it may not be asked for its empty key is stated by the ending of the call. The id map of the source also stores a zero for an unknown id that is looked up, which reads the same as no entry.
- QueryIndex.AddQid: the id list is passed and returned as a value, and so are the slots of the vault; the source updates them through pointers that nothing else holds.
- MatchPrune.CheckBucket: the flag that would skip the kernel is not modelled, because the source resets it before looking at it.
- MatchPrune.Join: the nested deletion loops hand over the list of keys and the lookups follow, where the source looks each key up inside the loops.
- ResultMerge.Results: takes the hits of the slots as a list, where the source tests each slot inside its loop; TopImpl.Server.AnswerFor supplies them.
- GenerateRes.AllRanges: for any number of query tokens of the batch, which only decides the size of the ranges.
- DenseHashtable.DenseHashtable.Insert: the errors for sizes beyond the address space are not modelled, and load factors are the exact fractions 70/100 and 28/100, which the floating-point ones agree with for table sizes below 2^24.
- Serialization.Load: for element counts and table sizes below 2^64, which are the only ones there are; a stream that ends in the middle of an element depends on the caller's element reader.
- Scheduler.BarrierSafety: safety only. In the protocol any number of jobs may be fetched at once. Signals, the wait of a worker for work, and that every job is eventually run are not modelled; the barrier waits without a loop, so wake-ups that nobody caused are assumed not to happen.
- JobQueue.HashBarriersAlone: about the hashing jobs and their barriers alone in the queue. With other jobs behind the barriers, an empty queue means that these have been fetched, so Scheduler.EmptyIsIdle covers that case.
- PhaseMix.PhasesMixed: the calls of `Schedule` without any jobs, which change nothing, are not made in the history.
- MatchBatch.Matcher.Match: a job runs as a whole before the next, in any order, and the relations that the workers keep apart are kept together; the jobs of a batch share nothing but reads of the registry and appends.
- Rebuilding the registry when memory runs low (`TokenManager::Restart`) and the memory check: runs without it are modelled.
- The pairs of length and index that number words are single numbers here, and the 28 lists, one for each length, are filtered out of one.
- MurmurHash: any function stands for it. The value 0 marks unused buckets in the source, so its hash function must not return it.
- `sparsehashtable.h`: rests on a table that is not part of this model; the dense table carries the same argument.
- `HammingDistance`, `TranslateTypeDistance` and `ana`: not used when matching.
- Documents and results cross threads through buffers and counters in `top_impl.cpp:298-379`; ownership of memory, destructors and reading `/proc`.
- Characters are non-negative numbers; words of letters do not depend on the sign of `char`. Sums of the hash value stay below 2^31 for such words.
