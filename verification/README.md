# GoRedis, verified

A Dafny model of the core mechanisms of GoRedis, an in-memory data store that speaks the
Redis protocol, with proofs that each fast or distributed mechanism agrees with a simple
specification. `dafny verify dfyconfig.toml` checks everything.

- Sorted sets: a skip list with spans on the heap (`SkipGrid`, `SkipList`) refines a sorted
  sequence (`Order`), and together with its dictionary (`ZSet`) the ranking of a map
  (`Ranking`); its walk from the top score down is `Backward`.
- Lists: a doubly linked list (`LinkedList`) refines a sequence (`Sequences`).
- The store (`Store`) shares values between itself and its snapshots and clones before it
  writes; over whole runs it refines a keyspace with copied snapshots (`Keyspace`), whose
  commands are described outright (`CommandLaws`).
- Sentinels: the epoch vote as a protocol over any number of sentinels (`Election`,
  `ElectionRuns`, `SplitVote`, `LoneCandidate`), and the failover with all its interleavings
  (`Failover`, `DownPeriod`).
- Publish and subscribe: the pattern compiler (`Glob`), the heap trie (`Trie`), and the
  indexes (`PubSub`, `Relations`).
- Transactions (`Transaction`) refine a reference that compares key versions, which is told
  from the events alone (`TransactionHistory`); blocked clients (`Blocking`) refine one list
  in order of arrival.
- Codecs: commands on the wire (`Resp`, `Completeness`, `Scan`, `CodecLaws`), the
  full-resync payload (`Rdb`).
- Cluster: checksum, slots, ownership (`Crc16`, `Slot`, `Cluster`); HyperLogLog registers
  (`HyperLogLog`); geohashes (`Geohash`).

How the model reads the program:

- Objects that the program updates in place are classes over the heap; every method is
  proved against a specification function or an outright statement. Each method that runs
  under one lock is one atomic step.
- Scores and coordinates are reals; strings are sequences of characters, bytes on the wire
  included; times, tower heights, ping results, checksums, hashes and the iteration order of
  maps are inputs or arbitrary choices.
- A skip list node keeps forward pointer and span of a level together in one link. The
  address of a queue element is a ticket number. A sentinel's `host:port` keys are pairs.
- Ghost copies of heap structures carry the structural reasoning in pure lemmas.

Where the program falls short of what its comments or commands promise, the model keeps the
program's behaviour, and a lemma states exactly when the promise holds:

- members skipped by reverse score ranges (`MirrorExactly`, `PageExactly`, `WalkMeets`), and
  the rank of the empty member (`FoundPresent`);
- the candidate's reading of vote replies (`SubstringReads`, `SubstringSafety`), and
  registering the current master as a replica (`RegisterKeeps`);
- trie entries left behind by disconnects (`OnceUnlessAbandoned`), and newlines in channels
  (`GlobExactly`);
- repeated keys in a blocking command (`UndoneExactly`), a second registration of a client
  that still waits (`BlockClient`), and timers that fire late (`HandleTimeout`);
- buffers that pass for complete and cannot be read (`ReadableExactly`, `ReadableWord`), and
  lengths at the edge of the integers (`ScanExactly`);
- expired keys in a full resync, which never expire on the replica (`DeadlineKept`), and
  lengths beyond 32 bits (`LengthReadsBack`);
- replaced, nameless or self-removed cluster nodes (`AddNode`, `RemoveNode`), and repeated
  slots (`BuildSlotRanges`);
- the ends of the coordinate ranges (`RoundTrip`).

## Model

| member | source | states |
|---|---|---|
| `SkipLists.SkipList.Insert` | internal/storage/skiplist.go:70-152 | for any tower height: the structure stays valid (sorted bottom level, every level exactly the taller nodes, every span the exact distance, `level` the greatest height in use, `tail` the last node) and the sorted sequence gains the entry, replacing a neighbour of the same member; true exactly for a new entry |
| `SkipLists.SkipList.Delete` | internal/storage/skiplist.go:156-178 | removes exactly that entry from the sorted sequence and keeps the structure valid; true exactly when it was there |
| `SkipLists.SkipList.DeleteNode` | internal/storage/skiplist.go:181-203 | unlinking on every level, with spans, tail, level and length, leaves a valid list without that node, and the search path is still a search path |
| `SkipGrids.SpliceLinked` | internal/storage/skiplist.go:130-143 | splicing a tower of any height behind a search path keeps every link and span exact, on the levels of the tower and above it |
| `SkipGrids.UnlinkLinked` | internal/storage/skiplist.go:183-190 | leading each level past a node keeps every link and span of the remaining nodes exact |
| `SkipLists.SkipList.constructor` | internal/storage/skiplist.go:40-55 | an empty valid list |
| `SkipLists.SkipList.GetRank` | internal/storage/skiplist.go:226-245 | for any member and score: the spans add up to the place of the member, if the descent stands on it and does not take the header for it; otherwise -1 |
| `SkipGrids.FoundPresent` | internal/storage/skiplist.go:226-245 | a present entry has its index in the sorted sequence as its rank, and -1 exactly when the member is "" and the first node of the top level lies behind it |
| `SkipGrids.FoundAbsent` | internal/storage/skiplist.go:226-245 | -1 for an entry that is missing, unless its member stands under a lower score |
| `SkipGrids.OverlookedPossible` | internal/storage/skiplist.go:226-245 | a list in which the empty member gets no rank |
| `SkipLists.SkipList.GetRange` | internal/storage/skiplist.go:249-319 | forward: filter by score, drop `offset`, take `count`, of the sorted sequence; in reverse the same page of what the walk back meets |
| `SkipLists.SkipList.FindPredecessor` | internal/storage/skiplist.go:322-339 | the last node before it whose tower is at least as high |
| `Backwards.WalkMeets` | internal/storage/skiplist.go:285-319 | the reverse walk meets an entry of the range exactly when no tower between it and the top of the range is taller |
| `Backwards.WalkDescends` | internal/storage/skiplist.go:285-319 | the reverse walk goes strictly down in the order of the set |
| `Backwards.MirrorExactly` | internal/storage/skiplist.go:285-339 | a reverse score range is the mirror image of the score range if and only if the towers in the range never rise |
| `Backwards.PageExactly` | internal/storage/skiplist.go:285-339 | a page of a reverse score range is the page of the mirrored range if and only if it is empty or no tower rises from the top of the range to the end of the page |
| `Backwards.MirrorBroken` | internal/storage/skiplist.go:322-339 | two members of one score of which the reverse range returns one |
| `SkipLists.SkipList.GetRangeByRank` | internal/storage/skiplist.go:342-383 | the slice of the sorted sequence, or of its mirror image |
| `SkipLists.SkipList.Clone` | internal/storage/skiplist.go:386-397 | the same entries in new nodes, whatever the new heights |
| `Order.SortedCanonical` | internal/storage/skiplist.go:87-89 | the order by score and member admits one sorted sequence for a set of entries |
| `Order.StringLessExactly` | internal/storage/skiplist.go:87-89 | members compare in the dictionary order: a proper prefix comes first, otherwise the first differing character decides |
| `Rankings.RankingOrdered` | internal/storage/skiplist.go:87-89 | of any two entries the ranking puts the lower score first, and of equal scores the member first in the dictionary order |
| `Order.RangeMeans` | internal/storage/skiplist.go:249-282 | a score range holds exactly the entries with a score from min to max, both included |
| `Order.RangeSorted` | internal/storage/skiplist.go:249-282 | a score range of a sorted sequence is sorted |
| `Order.PageMeans` | internal/storage/skiplist.go:268-280 | element i of a page is element offset + i, as far as count and sequence reach |
| `Order.SliceMeans` | internal/storage/skiplist.go:342-383 | element i of a rank range is element start + i, up to stop |
| `ZSets.ZSet.Listed` | internal/storage/zset.go:10-21 | dictionary and skip list hold the same pairs: the list is the one ranking of the dictionary |
| `ZSets.ZSet.Add` | internal/storage/zset.go:25-44 | sets the score and keeps both structures in step; true exactly when something changed |
| `ZSets.ZSet.Remove` | internal/storage/zset.go:48-57 | removes the member from both; true exactly when present |
| `ZSets.ZSet.Score` | internal/storage/zset.go:60-65 | the one score under which the skip list holds the member, none exactly if it holds no entry of that member |
| `ZSets.ZSet.IncrBy` | internal/storage/zset.go:116-128 | old score, or 0, plus the increment, in both |
| `ZSets.ZSet.Rank` | internal/storage/zset.go:69-75 | index in the ranking, -1 for absent members and for the overlooked "" |
| `ZSets.ZSet.RevRank` | internal/storage/zset.go:79-85 | size minus one minus the rank |
| `ZSets.ZSet.Range` | internal/storage/zset.go:94-96 | the page of the score range of the ranking |
| `ZSets.ZSet.RevRange` | internal/storage/zset.go:99-101 | the page of what the reverse walk over the ranking meets, which is the page of the mirror image if and only if it is empty or no tower rises before it ends |
| `ZSets.ZSet.RangeByRank` | internal/storage/zset.go:104-111 | the slice of the ranking or of its mirror image |
| `ZSets.ZSet.Count` | internal/storage/zset.go:131-134 | how many members have a score in the range |
| `ZSets.ZSet.PopMin` | internal/storage/zset.go:138-156 | returns and removes the first of the ranking |
| `ZSets.ZSet.PopMax` | internal/storage/zset.go:160-178 | returns and removes the last of the ranking |
| `Rankings.RankingEnds` | internal/storage/zset.go:138-178 | first and last of the ranking are the least and greatest member |
| `ZSets.ZSet.RemoveRangeByScore` | internal/storage/zset.go:182-193 | leaves exactly the scores outside the range and counts the others |
| `ZSets.ZSet.RemoveRangeByRank` | internal/storage/zset.go:197-208 | leaves exactly the members outside the slice and counts the others |
| `ZSets.ZSet.Clone` | internal/storage/zset.go:211-223 | equal contents in separate memory |
| `Rankings.RankingUnique` | internal/storage/zset.go:10-21 | any sorted sequence that agrees with the dictionary is its ranking |
| `LinkedLists.List.PushFront` | internal/storage/list.go:44-56 | prepends; previous and next stay mutual inverses, length exact |
| `LinkedLists.List.PushBack` | internal/storage/list.go:59-71 | appends |
| `LinkedLists.List.PopFront` | internal/storage/list.go:74-90 | takes the first element, if any |
| `LinkedLists.List.PopBack` | internal/storage/list.go:93-109 | takes the last element, if any |
| `LinkedLists.List.GetNodeAt` | internal/storage/list.go:131-161 | walking from the nearer end is indexing, negative indices from the end |
| `LinkedLists.List.GetAt` | internal/storage/list.go:112-118 | the element at an index, negative indices from the end, none outside |
| `LinkedLists.List.Range` | internal/storage/list.go:164-198 | the window of the sequence with both bounds clamped |
| `LinkedLists.List.RemoveNode` | internal/storage/list.go:212-230 | removes that position and nothing else; nil changes nothing |
| `LinkedLists.List.InsertBefore` | internal/storage/list.go:233-250 | splices a value in front of a node; nil changes nothing |
| `LinkedLists.List.InsertAfter` | internal/storage/list.go:253-270 | splices a value behind a node; nil changes nothing |
| `LinkedLists.List.FindNode` | internal/storage/list.go:273-292 | the first node with the value from the head, or from the tail |
| `LinkedLists.List.Trim` | internal/storage/list.go:295-338 | leaves exactly the window |
| `LinkedLists.List.Clone` | internal/storage/list.go:29-41 | equal contents in separate memory |
| `Sequences.RemExact` | internal/storage/list_ops.go:246-294 | LREM takes away min(count, occurrences) copies and keeps all other elements in order: for a positive count there is a position before which all copies go and behind which nothing changes, for a negative count the other way round, and for 0 all copies go |
| `Sequences.OthersExact` | internal/storage/list_ops.go:246-294 | occurrences are multiset counts, and the other elements keep theirs |
| `Sequences.WindowExactly` | internal/storage/list.go:164-198 | a window is the slice of exactly the positions from start to stop, counted from the end if negative |
| `Sequences.DropFirstExact` | internal/storage/list_ops.go:265-276 | removal from the head takes the foremost matches |
| `Sequences.DropLastMirrors` | internal/storage/list_ops.go:277-288 | removal from the tail is removal from the head of the mirror image |
| `Stores.Store.GetAllData` | internal/storage/store.go:53-69 | a snapshot has new value cells over shared structures and the contents of this moment |
| `Stores.Store.ReleaseSnapshot` | internal/storage/store.go:82-84 | ends one snapshot and leaves store and other snapshots alone |
| `Stores.Store.Set` | internal/storage/string_ops.go:9-21 | replaces the key; every snapshot keeps its contents |
| `Stores.Store.Delete` | internal/storage/string_ops.go:39-46 | removes the key; every snapshot keeps its contents |
| `Stores.Store.Flush` | internal/storage/string_ops.go:78-81 | empties the store; every snapshot keeps its contents |
| `Stores.Store.IncrBy` | internal/storage/string_ops.go:140-179 | the number at the key, or 0, plus the increment in 64-bit arithmetic, stored as text without expiry; refused exactly when the key holds no number; every snapshot keeps its contents |
| `Keyspaces.IncrementsAdd` | internal/storage/string_ops.go:140-179 | two increments are one of their sum, whatever overflows on the way and whether or not the key holds a number |
| `Stores.Store.Expire` | internal/storage/string_ops.go:84-103 | writes the expiry in place without reaching any snapshot |
| `Stores.Store.LPush` | internal/storage/list_ops.go:72-90 | pushes one value after the other at the head; other keys and every snapshot keep their contents, wrong types are refused |
| `Stores.Store.RPush` | internal/storage/list_ops.go:93-109 | appends all values; other keys and every snapshot keep their contents, wrong types are refused |
| `Stores.Store.LPop` | internal/storage/list_ops.go:112-145 | takes at least one and at most all from the head; other keys and every snapshot keep their contents, wrong types are refused |
| `Stores.Store.RPop` | internal/storage/list_ops.go:148-178 | takes from the tail; other keys and every snapshot keep their contents, wrong types are refused |
| `Stores.Store.LSet` | internal/storage/list_ops.go:219-240 | overwrites one position or reports why not; other keys and every snapshot keep their contents, wrong types are refused |
| `Stores.Store.LRem` | internal/storage/list_ops.go:246-294 | removes as LREM counts, in both directions, and reports how many; other keys and every snapshot keep their contents, wrong types are refused |
| `Stores.Store.LTrim` | internal/storage/list_ops.go:297-314 | keeps the window; other keys and every snapshot keep their contents, wrong types are refused |
| `Stores.Store.LInsert` | internal/storage/list_ops.go:317-345 | inserts beside the first pivot, -1 without one; other keys and every snapshot keep their contents, wrong types are refused |
| `Stores.Store.ZAdd` | internal/storage/zset_ops.go:75-96 | sets the scores in order; other keys and every snapshot keep their contents |
| `Stores.Store.ZRem` | internal/storage/zset_ops.go:100-124 | removes the members and counts them; other keys and every snapshot keep their contents |
| `Stores.Store.ZIncrBy` | internal/storage/zset_ops.go:268-282 | adds to a score; other keys and every snapshot keep their contents |
| `Stores.Store.ZPopMin` | internal/storage/zset_ops.go:297-314 | pops the least member; other keys and every snapshot keep their contents |
| `Stores.Store.ZPopMax` | internal/storage/zset_ops.go:317-334 | pops the greatest member; other keys and every snapshot keep their contents |
| `Stores.Store.ZRemRangeByScore` | internal/storage/zset_ops.go:337-354 | removes a score range; other keys and every snapshot keep their contents |
| `Stores.Store.ZRemRangeByRank` | internal/storage/zset_ops.go:357-395 | removes a rank window, negative ranks included; other keys and every snapshot keep their contents |
| `Stores.Store.ZRange` | internal/storage/zset_ops.go:176-241 | the clamped window of the ranking or of its mirror image, for any start and stop |
| `Stores.Store.Execute` | internal/storage/store.go:86-90 | every one of the 20 writing commands has its reference effect on the keyspace and none on a snapshot |
| `CommandLaws.OtherKeysStay` | internal/storage/store.go:86-90 | a command changes no key but its own |
| `CommandLaws.OtherTypesStay` | internal/storage/list_ops.go:12-40 | a key of another type is left alone |
| `CommandLaws.ExpireLaw` | internal/storage/string_ops.go:84-103 | a key lasts up to and including its expiry; EXPIRE sets the time of a key that is there and finds no other |
| `CommandLaws.AbsentLaw` | internal/storage/list_ops.go:112-345 | without the key there is nothing to take, overwrite or trim |
| `CommandLaws.RPushLaw` | internal/storage/list_ops.go:93-109 | the list is followed by the values in order |
| `CommandLaws.LPushLaw` | internal/storage/list_ops.go:72-90 | the values stand in front of the list, the last one first |
| `CommandLaws.PopLaw` | internal/storage/list_ops.go:112-178 | pops take at least one element, at most all, otherwise as many as asked, from the head or from the tail; an emptied list is gone |
| `CommandLaws.LSetLaw` | internal/storage/list_ops.go:219-240 | exactly the position, counted from the end if negative, is overwritten, and nothing outside |
| `CommandLaws.LRemLaw` | internal/storage/list_ops.go:246-294 | the foremost copies go for a positive count, the hindmost for a negative one, all for 0 |
| `CommandLaws.LTrimLaw` | internal/storage/list_ops.go:297-314 | exactly the positions from start to stop stay |
| `CommandLaws.LInsertLaw` | internal/storage/list_ops.go:317-345 | the value stands beside the first pivot, or nowhere |
| `CommandLaws.ZAddLaw` | internal/storage/zset_ops.go:75-96 | each member named has the score it was last given, the others keep theirs |
| `Rankings.ChangesExactly` | internal/storage/zset_ops.go:75-96 | an entry is counted exactly if it names a new member or gives a known one another score |
| `CommandLaws.ZRemLaw` | internal/storage/zset_ops.go:100-124 | exactly the members not named stay |
| `CommandLaws.ZIncrByLaw` | internal/storage/zset_ops.go:268-282 | one score grows by the increment, from 0 if it was missing |
| `CommandLaws.ZPopLaw` | internal/storage/zset_ops.go:297-334 | the member taken ranks before, or behind, all others by score and dictionary order |
| `CommandLaws.ZRemRangeByScoreLaw` | internal/storage/zset_ops.go:337-354 | exactly the members with a score outside the range stay |
| `CommandLaws.ZRemRangeByRankLaw` | internal/storage/zset_ops.go:357-395 | exactly the members at the ranks from start to stop go, counted from the end if negative |
| `Stores.Store.PerformAll` | internal/storage/store.go:50-90 | snapshot isolation over every run of commands, snapshots and releases: the store behaves like a keyspace whose snapshots are plain copies; each snapshot from before keeps its very cells until released; each map handed out on the way shows the store of its moment for as long as it is not released |
| `Stores.Store.HoldWhile` | internal/storage/store.go:50-90 | a holder's view: a snapshot taken now and held through any run that does not release it shows, through its own cells, the store as it was when taken |
| `Keyspaces.StillCopied` | internal/storage/store.go:50-90 | followed through every take and release, a copy of the reference stays what it was |
| `Elections.Voter.BecomeCandidate` | internal/server/sentinel_server.go:372-387 | a new epoch and a vote for itself, unless bound to another candidate |
| `Elections.Voter.HandleVoteRequest` | internal/server/sentinel_server.go:681-748 | ballot and reply follow the voting rules, and the epoch never goes back; the reply is a yes exactly if the epoch is not stale and the sentinel has voted for this candidate in it, or has no vote in it and sees that master down |
| `Elections.GrantExactly` | internal/server/sentinel_server.go:681-748 | the reply and the ballot afterwards, case by case, from the ballot before the request |
| `Elections.CountVotes` | internal/server/sentinel_server.go:389-439 | the candidate's own vote plus the replies taken for a yes, against the quorum |
| `Elections.TallyExactly` | internal/server/sentinel_server.go:409-431 | every reply with ":1" in it counts once |
| `Elections.YesMeansVoted` | internal/server/sentinel_server.go:681-748 | for any epoch: a yes is a vote for that candidate in that epoch; the first one in an epoch from 1 on needs the same master seen down |
| `Elections.EpochZero` | internal/server/sentinel_server.go:681-748 | in epoch 0 a sentinel that has not voted says yes exactly to the empty candidate, whatever it sees |
| `Elections.VoteFieldReads` | internal/server/sentinel_server.go:755-766 | the vote field of an encoded reply is the vote |
| `Elections.ReplyOnTheWire` | internal/server/sentinel_server.go:755-766 | two replies byte by byte |
| `Elections.SubstringReads` | internal/server/sentinel_server.go:493-501 | exactly when the candidate takes a reply for a yes: a yes, a leader with ":1" in it, or an epoch that begins with 1 |
| `ElectionRuns.NextKeeps` | internal/server/sentinel_server.go:369-748 | the protocol invariant: votes bind ballots, one vote per sentinel and epoch, tallies count distinct backers |
| `ElectionRuns.OneLeader` | internal/server/sentinel_server.go:369-440 | election safety: over every run and message order, with a majority quorum at most one campaign of an epoch is elected, if the two campaigns read their replies right |
| `ElectionRuns.VotesBind` | internal/server/sentinel_server.go:681-748 | over every run a sentinel votes for at most one candidate per epoch, itself included |
| `ElectionRuns.EpochsGrow` | internal/server/sentinel_server.go:681-704 | epochs never decrease and votes are never withdrawn |
| `ElectionRuns.BackerSawMasterDown` | internal/server/sentinel_server.go:719-743 | every peer that a campaign rightly counts was reached by that campaign's own request while it saw that very master down |
| `LoneCandidates.LoneCandidateElected` | internal/server/sentinel_server.go:369-440 | in every run in which nobody else stands or asks after a candidate stood whose peers are not ahead of its epoch and see its master down, its tally is itself and every peer it heard, so that it is elected, once all are heard, exactly if they make a quorum |
| `LoneCandidates.EverybodyHeard` | internal/server/sentinel_server.go:389-439 | such a run always goes on to one in which every peer has been heard |
| `SplitVotes.TwoLeadersElected` | internal/server/sentinel_server.go:493-501 | with the substring test, in every epoch of every group of two or more that sees its master down, some run elects two leaders, in which only such sentinels stand, for their own master, each with at most two campaigns under way; in an epoch that begins with 1 one at a time is enough |
| `SplitVotes.SubstringSafety` | internal/server/sentinel_server.go:493-501 | with the substring test and a majority quorum, safety holds if and only if there is one sentinel or the quorum exceeds the group, over all runs and over those in which only sentinels that see their master down stand, however few campaigns each may have under way |
| `SplitVotes.VoteFieldSafety` | internal/server/sentinel_server.go:677-680 | reading the vote field instead makes every majority quorum safe |
| `Failovers.Sentinel.CheckMasterHealth` | internal/sentinel/sentinel.go:208-280 | both edges of the down flag rearm the trigger; a failover starts exactly when the ping failed, none is in progress, and the master has been down for the threshold without a trigger since |
| `DownPeriods.TriggersExactly` | internal/sentinel/sentinel.go:208-280 | over every run a check triggers if and only if it failed, all checks since some failed check that found the master up failed too with no change of master in between, and it is the first of them that comes the threshold or more after that one |
| `DownPeriods.StartsExactly` | internal/sentinel/sentinel.go:208-280 | over every run a failover starts in a step if and only if that step is such a check and no failover is under way |
| `Failovers.Sentinel.SelectBestReplica` | internal/sentinel/sentinel.go:588-618 | in any map order: an up replica of maximal score, none exactly when no up replica scores 0 or more |
| `Failovers.ScoreExactly` | internal/sentinel/sentinel.go:603-608 | replicas compare by priority, then by offset, as long as offsets stay below a million |
| `Failovers.OffsetOutweighs` | internal/sentinel/sentinel.go:603-608 | exactly when a greater offset outweighs a lower priority |
| `Failovers.Sentinel.PerformFailover` | internal/sentinel/sentinel.go:478-585 | swaps the master with a best replica or changes neither; the set of instances is conserved |
| `Failovers.RunConserves` | internal/sentinel/sentinel.go:460-585 | over every interleaving at most one failover is in progress, and master, replicas and the one in flight are all instances ever known |
| `Failovers.SettledRun` | internal/sentinel/sentinel.go:478-585 | whenever no failover is under way the master is no replica and nothing is lost, if discovery never reports the current master |
| `Failovers.RegisterKeeps` | internal/sentinel/sentinel.go:397-418 | registering an address keeps the master out of the replica map exactly when it is not the master's |
| `Failovers.OneTriggerPerDownPeriod` | internal/sentinel/sentinel.go:217-279 | between two triggers the master was up at some moment |
| `Failovers.NewMasterWasBest` | internal/sentinel/sentinel.go:508-532 | whoever becomes master was an up replica of maximal score when it was chosen |
| `Failovers.NewMasterAnswered` | internal/sentinel/sentinel.go:284-330 | whoever becomes master was reported up after every failed ping that came before it was chosen |
| `Globs.CompiledRight` | internal/storage/pubsub.go:496-517 | quoting, the two replacements and the regular expression together match exactly the glob, wildcards not matching a newline |
| `Globs.GlobExactly` | internal/storage/pubsub.go:496-517 | the compiled patterns mean the globs exactly on channels without a newline |
| `Globs.PlainGlob` | internal/storage/pubsub.go:496-517 | text without wildcards matches itself alone |
| `Globs.WildGlob` | internal/storage/pubsub.go:496-517 | a question mark takes one character, a star any number of them |
| `Tries.PrefixNeeded` | internal/storage/pubsub.go:47-60 | a pattern matches only channels that start with its text up to the first wildcard |
| `Tries.PrefixExactly` | internal/storage/pubsub.go:49-60 | the prefix is the text up to the first wildcard |
| `Tries.PatternTrie.Insert` | internal/storage/pubsub.go:49-77 | files one more copy of the pattern and changes no other |
| `Tries.PatternTrie.Remove` | internal/storage/pubsub.go:80-109 | takes out one copy, if there is one |
| `Tries.PatternTrie.GetMatchingPatterns` | internal/storage/pubsub.go:113-133 | each filed pattern whose prefix starts the channel, as often as it is filed, and no other |
| `PubSubs.PubSub.PSubscribe` | internal/storage/pubsub.go:248-285 | who listens to what, in both indexes, the cache and the trie |
| `PubSubs.PubSub.PUnsubscribe` | internal/storage/pubsub.go:289-326 | leaves the given patterns or all, dropping patterns without listeners everywhere |
| `PubSubs.PubSub.RemoveSubscriber` | internal/storage/pubsub.go:456-484 | leaves all patterns, and the trie keeps one entry for each pattern that lost its last listener |
| `PubSubs.PubSub.Publish` | internal/storage/pubsub.go:332-389 | each listener of a matching pattern gets the message 1 + (entries left behind) times, nobody else, nobody missed |
| `PubSubs.PubSub.PerformAll` | internal/storage/pubsub.go:248-484 | over every run both indexes stay inverse and trie and cache in step with the reference |
| `PubSubs.ListensExactly` | internal/storage/pubsub.go:248-484 | over every run the listeners of a pattern are exactly those who asked for it and have not left it since, by name, altogether or by disconnecting |
| `PubSubs.OnceUnlessAbandoned` | internal/storage/pubsub.go:473-480 | each match is delivered exactly once if and only if no disconnect ever took the pattern's only listener |
| `PubSubs.DeliveredTwice` | internal/storage/pubsub.go:456-484 | a subscriber that disconnects and subscribes again gets every message twice |
| `Transactions.TransactionManager.GetTransaction` | internal/handler/transaction.go:83-94 | creates a clean transaction once per client |
| `Transactions.TransactionManager.RemoveClient` | internal/handler/transaction.go:97-113 | drops the client from the index; no empty entries stay |
| `Transactions.TransactionManager.WatchKey` | internal/handler/transaction.go:117-134 | both indexes gain the pair; the first version seen counts |
| `Transactions.TransactionManager.UnwatchAllKeys` | internal/handler/transaction.go:138-159 | forgets the watches and the flag |
| `Transactions.TransactionManager.TouchKeys` | internal/handler/transaction.go:182-199 | the flag of a client is set exactly when a key it watches gets a new version |
| `Transactions.MarkedIsTouched` | internal/handler/transaction.go:164-199 | the clients in a key's entry are exactly those that watch it |
| `Transactions.TransactionManager.HandleExec` | internal/handler/pipeline_transaction.go:22-82 | aborts exactly when some watched key has a version newer than first seen, otherwise runs the queue in order |
| `Transactions.TransactionManager.HandleMulti` | internal/handler/pipeline_transaction.go:12-19 | starts with an empty queue, refuses nesting |
| `Transactions.TransactionManager.HandleDiscard` | internal/handler/pipeline_transaction.go:85-92 | drops the queue and keeps the watches |
| `Transactions.TransactionManager.HandleWatch` | internal/handler/pipeline_transaction.go:95-110 | refused inside MULTI, otherwise watches every key |
| `Transactions.TransactionManager.HandleOther` | internal/handler/pipeline_executor.go:126-162 | inside MULTI queued, or refused if it blocks; otherwise run with its write keys touched |
| `Transactions.TransactionManager.PerformAll` | internal/handler/transaction.go:97-205 | over every run the replies are those of a reference that compares key versions |
| `TransactionHistories.ExecExactly` | internal/handler/pipeline_transaction.go:22-82 | over every run of events: EXEC in MULTI aborts if and only if some key the client still watches was written after it watched it, and otherwise runs exactly what the client sent since it opened the transaction, in order |
| `TransactionHistories.RepliesExactly` | internal/handler/pipeline_transaction.go:12-110 | over every run of events: what MULTI, DISCARD, WATCH and any other command reply, inside a transaction and outside |
| `Transactions.ManyKeysExactly` | internal/handler/transaction.go:261-314 | MSET writes every other argument, DEL all, the commands that move the first two |
| `Transactions.OneKeyExactly` | internal/handler/transaction.go:261-314 | every other command writes its first argument or nothing |
| `Blockings.BlockingManager.BlockClient` | internal/handler/blocking.go:67-111 | for any client, one that already waits included: one queue element per named key; with distinct keys and a new client it waits last on each of them; index and queues stay consistent exactly when the client did not wait on a key already |
| `Blockings.UndoneExactly` | internal/handler/blocking.go:94-103 | removing a client undoes its blocking exactly when it named no key twice |
| `Blockings.BlockingManager.RemoveBlockedClient` | internal/handler/blocking.go:188-209 | takes the client out of the index and of all its queues, and no other out of any |
| `Blockings.BlockingManager.UnblockClientWithData` | internal/handler/blocking.go:148-183 | serves the longest-waiting client of the key, who alone leaves the list of arrivals, with a value popped from its own side; a move goes to its destination on its side; nobody exactly if nobody waits on the key; a response channel is closed exactly when its client stops waiting, and never twice |
| `Blockings.BlockingManager.RemoveClient` | internal/handler/blocking.go:212-223 | a disconnect resolves the client's registration, if it waits |
| `Blockings.BlockingManager.HandleTimeout` | internal/handler/blocking.go:118-137 | a timeout resolves the registration, if it still waits; the timer of an older registration takes the client's newer one out of the index alone, so that index and queues part exactly if that one names a key, and the program panics exactly if the older one was answered |
| `Blockings.FrontIsFirst` | internal/handler/blocking.go:157-159 | the front of a key's queue is the first in order of arrival among all that wait on it |
| `Blockings.BlockingManager.PerformAll` | internal/handler/blocking.go:67-223 | over every run the queues decide like one list in order of arrival |
| `Blockings.EachResolvedOnce` | internal/handler/blocking.go:67-223 | every registration is resolved once or still waits |
| `Resps.Reader.ParseCommand` | internal/protocol/resp.go:16-32 | the result and the bytes left over, for any input |
| `Resps.Reader.ParseArray` | internal/protocol/resp.go:34-81 | the array loop with its errors |
| `Resps.EncodeArray` | internal/protocol/resp.go:261-267 | the array encoding |
| `Resps.CommandOfArray` | internal/protocol/resp.go:16-97 | every non-empty list of byte strings reads back, with the following bytes untouched |
| `Resps.PipelineParses` | internal/protocol/resp.go:16-97 | concatenated commands read back in order |
| `Resps.BulkOnTheWire` | internal/protocol/resp.go:250-267 | two bulk strings byte by byte |
| `Resps.ArrayOnTheWire` | internal/protocol/resp.go:261-267 | the header of an array and its elements in order |
| `CodecLaws.InlineReads` | internal/protocol/resp.go:83-89 | every list of words without white space reads back from an inline command, with the following bytes untouched |
| `CodecLaws.FieldsSplit` | internal/protocol/resp.go:83-89 | any of the six ASCII blanks parts an inline command in two |
| `CodecLaws.NullItem` | internal/protocol/resp.go:52-66 | a null reads as an empty argument; other elements and malformed lengths are refused |
| `CodecLaws.EmptyHeader` | internal/protocol/resp.go:34-42 | array headers without elements are refused by the reader; the scan lets pass a count of 0 and one that is no number, but not a negative one |
| `CodecLaws.EmptyLine` | internal/protocol/resp.go:16-24 | an empty line is an empty command |
| `Scans.HasCompleteArray` | internal/protocol/resp.go:139-190 | the index scan in 64-bit arithmetic: complete, incomplete, or a panic at a negative index |
| `Scans.BulkStringAt` | internal/protocol/resp.go:199-230 | where the scan thinks a bulk string ends, the needed length wrapping around, and -1 for none |
| `Scans.ScanExactly` | internal/protocol/resp.go:139-230 | the scan of an array is right if and only if it meets no element whose end does not fit an integer; if it meets one, it takes the array for complete when that is the last element and panics otherwise |
| `Scans.VerdictExactly` | internal/protocol/resp.go:117-230 | the verdict on any buffer is right if and only if the scan meets no such element |
| `Scans.CompleteInTime` | internal/protocol/resp.go:117-230 | in 64-bit arithmetic too, an encoded command is complete with its last byte, whatever follows, and no strict prefix of it is |
| `Scans.OverlongMisjudged` | internal/protocol/resp.go:224-229 | the header of a bulk string of the greatest length passes for a complete last element, and ends in a panic when more are announced |
| `Completeness.CompleteExactly` | internal/protocol/resp.go:117-230 | an encoded command is complete with its last byte, whatever follows, and no strict prefix of it is |
| `CodecLaws.LineElement` | internal/protocol/resp.go:171-184 | a simple line is an element that ends with its line |
| `Completeness.ItemOfScanned` | internal/protocol/resp.go:192-230 | for a bulk string found complete: the reader takes the same bytes exactly if data and line end are as announced, and runs out of input exactly if no line ends behind the data |
| `Completeness.ReadableExactly` | internal/protocol/resp.go:139-230 | an array found complete is read in step with the scan if and only if each element is a null or data with its line end, and then it is read without running out of input |
| `Completeness.ReadableWord` | internal/protocol/resp.go:139-230 | a complete command of one word runs out of input if and only if no line ends behind the word |
| `Completeness.CompleteButUnreadable` | internal/protocol/resp.go:139-230 | a buffer found complete in which the reader runs out of input |
| `Rdbs.LengthReadsBack` | internal/handler/replication_handlers.go:421-434 | reading inverts writing exactly for lengths below 2^32 |
| `Rdbs.Buffer.WriteLength` | internal/handler/replication_handlers.go:421-434 | the 6-, 14- and 32-bit forms |
| `Rdbs.LengthsOnTheWire` | internal/handler/replication_handlers.go:421-434 | one length of each form byte by byte |
| `Rdbs.PayloadOnTheWire` | internal/handler/replication_handlers.go:286-411 | a payload byte by byte: magic text, database, sizes, a key with its time, end mark |
| `Rdbs.GenerateRdb` | internal/handler/replication_handlers.go:286-411 | the payload lists every key once, in some order |
| `Rdbs.LoadRdb` | internal/replication/replica.go:484-633 | the opcode loop: the SETs it issues and how it ends |
| `Rdbs.PayloadLoads` | internal/replication/replica.go:484-655 | a payload loads as one SET per pair in the order written and stops at the end mark, whatever its checksum |
| `Rdbs.SecondsLoad` | internal/replication/replica.go:579-612 | a time in seconds counts as thousands of milliseconds |
| `Rdbs.FullResync` | internal/replication/replica.go:484-655 | master to replica: exactly one SET per key with its value; with what is left of its time exactly if its deadline lies after both the writing and the loading, otherwise without any |
| `Rdbs.DeadlineKept` | internal/handler/replication_handlers.go:330-346 | a deadline survives the resync if and only if it is still to come when the payload is written and when it is loaded |
| `Rdbs.ExpiredLivesOn` | internal/replication/replica.go:647-654 | a key that has expired is loaded without any deadline |
| `Crc16s.Crc16` | internal/cluster/slot.go:47-53 | the table-driven loop is bit-by-bit CRC-16 with polynomial 0x1021 and initial value 0, on every byte string |
| `Crc16s.EntryRight` | internal/cluster/slot.go:10-43 | all 256 table entries are the bit-by-bit values |
| `Crc16s.OneLookup` | internal/cluster/slot.go:49-51 | one lookup does the work of eight shifts, for every register and byte |
| `Slots.KeyHashSlot` | internal/cluster/slot.go:63-69 | the bit-by-bit checksum of the tag modulo 16384 |
| `Slots.SlotExactly` | internal/cluster/slot.go:63-92 | the slot for every form of key: the checksum of the tag, or of the whole key without an opening brace, without a closing one behind it, or with nothing in between |
| `Slots.TagDecides` | internal/cluster/slot.go:74-92 | a key with a tag goes to the slot of the tag |
| `Slots.TagOnce` | internal/cluster/slot.go:74-92 | taking the tag twice changes nothing |
| `Slots.KeysInSameSlot` | internal/cluster/slot.go:96-109 | true exactly when all slots are equal |
| `Slots.BuildSlotRanges` | internal/cluster/node.go:311-345 | the ranges cover exactly the listed slots; they are ascending, disjoint and maximal if and only if no slot is listed twice |
| `Clusters.Cluster.AssignSlots` | internal/cluster/node.go:179-195 | ownership, the cached count and the state, which is ok exactly when every slot is covered |
| `Clusters.Cluster.AddNode` | internal/cluster/node.go:248-266 | for any node: count and state right exactly when it has a name or owns nothing; every owner a known node listing the slot exactly when the node's slots include all its id owned; the whole invariant exactly when it also has a name and slots in range and does not stand in for this node |
| `Clusters.Cluster.RemoveNode` | internal/cluster/node.go:269-288 | clears exactly the node's slots; the invariant survives exactly when it is not this node |
| `Clusters.AssignedAll` | internal/cluster/node.go:371-378 | the count equals the number of slots exactly when all are owned |
| `Clusters.Cluster.CheckKeyOwnership` | internal/cluster/redirect.go:56-76 | served here, sent to the true owner, or down exactly when nobody owns the slot |
| `Clusters.Cluster.CheckMultiKeyOwnership` | internal/cluster/redirect.go:80-96 | cross-slot exactly when two keys differ in slot; otherwise routed like a single key |
| `HyperLogLogs.HyperLogLog.Add` | internal/storage/hyperloglog.go:73-101 | the registers describe the hashes seen so far; true exactly when a register changed |
| `HyperLogLogs.HyperLogLog.Merge` | internal/storage/hyperloglog.go:144-159 | the registers describe the union, with itself included; refused exactly at a different precision |
| `HyperLogLogs.HyperLogLog.Clone` | internal/storage/hyperloglog.go:162-171 | equal registers in separate memory |
| `HyperLogLogs.SketchUnique` | internal/storage/hyperloglog.go:73-159 | registers depend on the set of hashes alone, not on order, repetition or merging |
| `HyperLogLogs.RegistersInRange` | internal/storage/hyperloglog.go:86-93 | every register is at most 65 - precision |
| `HyperLogLogs.IndexInRange` | internal/storage/hyperloglog.go:77-78 | every index is below 2^precision |
| `HyperLogLogs.IndexAndRank` | internal/storage/hyperloglog.go:77-93 | the index is the top bits of the hash, and the rank one more than the zeros in front of the rest, all of its bits if it is 0 |
| `HyperLogLogs.CountsLikeMerge` | internal/storage/hyperloglog.go:249-349 | PFCOUNT on several keys uses the very registers PFMERGE stores; when none exists it answers 0 and PFMERGE stores zeros |
| `Geohashes.Separates` | internal/storage/geo.go:45-63 | separating undoes interleaving, and a hash is below 2^52 |
| `Geohashes.Rejoins` | internal/storage/geo.go:45-63 | interleaving undoes separating |
| `Geohashes.Encode` | internal/storage/geo.go:35-52 | the interleaved fractions, bit by bit: the longitude's in the even places and the latitude's in the odd ones |
| `Geohashes.InterleavedBits` | internal/storage/geo.go:45-50 | even bits come from the first number and odd ones from the second |
| `Geohashes.Decode` | internal/storage/geo.go:55-73 | the separated fractions as coordinates |
| `Geohashes.RoundTrip` | internal/storage/geo.go:35-73 | the decoded coordinate is at most one unit below the input exactly when the input is below the end of its range |

## Left out

- Stores.Store.ZAdd: the reply counts changed scores along with new members, as ZSet.Add reports both.
- Stores.Store.Execute: writers of sets, hashes, bitmaps and Bloom filters.
- Stores.Store.IncrBy: the standard library reads the stored text as a number; that reading is an input.
- ElectionRuns.OneLeader: a reply is taken to answer the request it was sent for and to arrive whole; 64-bit wrap-around of epochs is not modelled.
- Globs.CompiledRight: text that is not valid UTF-8.
- Failovers.SettledRun: RemoveReplica, and discovery answers that are older than a change of master.
- PubSubs.PubSub.Publish: full subscriber channels, and direct channel subscriptions, which are the same two indexes without a trie.
- PubSubs.PubSub.RemoveSubscriber: direct channel subscriptions.
- Transactions.TransactionManager.HandleExec: the outcome of the queued commands, and commands of other clients between the comparison of versions and the run of the queue.
- Resps.Reader.ParseCommand: white space beyond ASCII in inline commands, and allocation limits for huge lengths.
- Completeness.ReadableExactly: for arrays of several elements that are not all as announced, when a reader that lost step runs out of input, as it may find its way back by accident.
- Scans.ScanExactly: buffers within four bytes of the largest integer.
- Rdbs.GenerateRdb: stores that hold values other than strings.
- Rdbs.LoadRdb: stops at values other than strings, which the program goes on to read.
- HyperLogLogs.HyperLogLog.Add: the FNV hash of an element is an input.
- HyperLogLogs.CountsLikeMerge: the floating-point estimate made from the registers.
- Geohashes.RoundTrip: floating-point rounding.
- NaN scores, rounding of scores, and overflow of version and length counters.
- Networking, timers, goroutine scheduling, logging and configuration.
- Lua scripts, the append-only file, RDB files on disk, partial resync.
- Plain sets, hashes, bitmaps, Bloom filters, SLOWLOG, INFO and CLUSTER text output.
