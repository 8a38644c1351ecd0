# A verified model of the hard parts of four vendored C libraries

The files here model, in Dafny, the state machines that the program takes from four libraries, and prove what those
machines keep.

**The DHT node (`lib/dht/dht.c`).** An id is a path of 160 bits (`Ids`); `IdBytes` ties the byte-wise comparison,
low-bit and mixing code to paths. `BucketTree` has the shape of the list of buckets after any number of splits,
`RoutingTable` the invariant of every reachable table, `NodeLife` one node and its history, `SplitSteps` the account
of one `split_bucket`, and `DhtTable` the class with the operations. `Closest` and `ClosestNodes` are about the reply
to `find_node`, `SearchSteps`, `Searches` and `SearchHistory` about iterative searches, `Tokens` about announce
tokens. The rules come from the sections "Routing Table" and "DHT Queries" of BEP 5. The results over whole runs: our
own bucket never gets deeper than 157 bits and `bucket_middle` never fails; a split doubles no node and loses only
nodes whose bucket is full and not ours; a reply begins with the true closest nodes and names nobody but good nodes by
their addresses; a search knows of its candidates what they answered and no more, and on a silent network ends after
42 calls that do something, at whatever times it is called; a node is good for as long as its history says.

**The evbuffer (`lib/event2/buffer.c`).** `EvbufferCore` has the heap model: a linked list of `Chain` objects, each
with its memory, misalignment and length, and `last_with_datap` as a pointer to the field it addresses (`Slot`). The
specification of a buffer is its byte sequence, `Bytes()`. Every operation keeps `Valid()` and is proved to be what it
should be on byte sequences. `EvbufferInsert`, `EvbufferAdd`, `EvbufferPrepend`, `EvbufferDrain`, `EvbufferRead`,
`EvbufferMove`, `EvbufferRemove`, `EvbufferPullup` and `EvbufferReserve` change buffers; `EvbufferPtr`,
`EvbufferSearch` and `EvbufferLines` look things up in them. What the code asserts about the list (`EVUTIL_ASSERT`) is
proved here as an assertion, an invariant or a postcondition.

**Rate limiting (`lib/event2/bufferevent_ratelim.c`, `bufferevent.c`).** `TokenBucket` is the refill in 64-bit machine
arithmetic and what it bounds; `Bufferevent` the suspension reasons and the refill timer of one object, with the rule
that nothing waits for a wakeup that will not come, and `Wakeups` that rule over whole histories; `RateGroup` the
group protocol as interleaved steps in which any try-lock may fail, with the unlocked accesses of `set_min_share` one
by one, and `GroupLimit` what its limit is worth.

**Base64 (`lib/b64`).** `Base64` and `Base64Lines` have the encoder and decoder as state machines, their round trip
and their relation to section 4 of RFC 4648; `Base64Machine` has the resumable loops over arrays.

`SeqFacts`, `Segments` and `Wrappers` hold what the others share. `dafny verify dfyconfig.toml` checks everything.

## What the code does that its users might not expect

- `evbuffer_prepend` that fails for want of memory can leave the end of the data in the buffer;
  `EvbufferPrepend.Prepend` says exactly how much, and `LeavesAByte` is a call that does.
- `evbuffer_remove_buffer` ignores the result of its inner `evbuffer_add`. If that fails, the bytes that had to be
  copied have left the source and are not in the destination, and the count returned includes them.
  `EvbufferRemove.Loss` says how many, for every call; `LosesAByte` is a call that loses one.
- `bufferevent_rate_limit_group_set_min_share` takes no lock. A call that is overtaken by a
  `bufferevent_rate_limit_group_set_cfg` can store a share above the new rates, even above the new maximum, and a
  group that is suspended then stays so whatever is refilled (`RateGroup.RaceBreaksShare`,
  `RateGroup.RaceStrandsMember`). `RateGroup.ConfigureIsSafeIff` is the exact condition for a `set_cfg`. What
  `RateGroup` says about release rests on a share within the maximum, and `RateGroup.RecoversIff` shows that it must.
- A group whose share is set to 0 is unsuspended by a refill that brings its limit to exactly 0, with nothing to
  transfer; `GroupLimit.StaysBoundIff` has the condition and `GroupLimit.ZeroShareFrees` a run.
- `evbuffer_reserve_space` for one piece can hand out the space of the chain behind the first one with space. If that
  is not the last chain either, `evbuffer_commit_space` refuses whatever is written there.
  `EvbufferReserve.ReserveOne` has the exact condition. Two empty chains behind the data are needed for it, as calls
  for several pieces can leave.
- `evbuffer_add` refuses to let the total length overflow; `evbuffer_add_buffer`, `evbuffer_prepend_buffer` and
  `evbuffer_add_reference` do not check. The model has unbounded lengths there; the contracts say that they are those
  of the program iff they fit a `size_t`, and the searching functions require that they do.
- `evbuffer_search_range` with a pattern longer than `EV_SSIZE_MAX` returns the start as if it were a match; the model
  does the same.
- `bufferevent_get_rlim_max_` ignores `max_single_read` when a limit is configured.
- The refill is right for limits within their maximum. Above it, which only a negative decrement can cause, it is
  right exactly under the condition in `TokenBucket.RefillExactIff`.

## Model

| member | source | states |
|---|---|---|
| Ids.SubtreeIsInterval | lib/dht/dht.c:407-408 | the ids that begin with a path are exactly the numbers of one aligned interval of length 2^(160 - depth) |
| Ids.SubtreeIsCloser | lib/dht/dht.c:461-479 | an id in the same subtree as the target is XOR-closer to it than any id outside the subtree |
| Ids.DistInjective | lib/dht/dht.c:461-479 | two ids at one XOR distance from a target are the same id |
| Ids.LowBitUnique | lib/dht/dht.c:419-434 | the low bit is the one position that is set and has only zeros behind it |
| Ids.SubtreeCount | lib/dht/dht.c:562-576 | a set of ids below one path of depth 160 - m has at most 2^m members |
| IdBytes.PathOrder | lib/dht/dht.c:411-415 | comparing twenty bytes as memcmp does compares the 160-bit numbers |
| IdBytes.IdCmp | lib/dht/dht.c:411-415 | the byte loop answers negative, zero or positive as the numbers compare, and zero iff the ids are the same |
| IdBytes.XorCmp | lib/dht/dht.c:463-479 | the byte loop answers -1, 0 or 1 as the XOR distances to the target compare |
| IdBytes.LowBitOfBytes | lib/dht/dht.c:419-434 | the two scanning loops find the low bit of the path, and -1 for the zero id |
| IdBytes.SetBit | lib/dht/dht.c:562-576 | or-ing 0x80 >> (bit % 8) into byte bit / 8 sets exactly that bit of the path |
| IdBytes.MixRandom | lib/dht/dht.c:580-598 | the byte-wise mix keeps the first `bit` bits of the one id and takes the others from the random one |
| BucketTree.CapFormula | lib/dht/dht.c:755-795 | the capacity got by halving on the way down is max(128 / 2^depth, 8) |
| BucketTree.ShapeElements | lib/dht/dht.c:755-842 | every bucket but ours lies at the sibling of a prefix of our id |
| BucketTree.ShapeSplit | lib/dht/dht.c:755-795 | splitting our bucket replaces it by its two halves and leaves the rest of the list as it is |
| BucketTree.ShapeTiles | lib/dht/dht.c:1786-1800 | the buckets cover [0, 2^160) in order, without gap or overlap |
| BucketTree.InRangeIffBelow | lib/dht/dht.c:484-488 | an id is between the start of a bucket and the start of the next iff it begins with the path of the bucket |
| BucketTree.BelowOne | lib/dht/dht.c:484-505 | no id belongs to two buckets |
| BucketTree.DepthFromLowBits | lib/dht/dht.c:562-576 | max(lowbit of the start, lowbit of the next start) + 1 is the depth of the bucket |
| RoutingTable.InBucketIffBelow | lib/dht/dht.c:484-488 | in_bucket agrees with the tree in every reachable table |
| RoutingTable.OursIffHoldsUs | lib/dht/dht.c:755-795 | the test in_bucket(myid, b) picks out our own bucket and no other |
| RoutingTable.MiddleHalves | lib/dht/dht.c:562-576 | bucket_middle never takes its -1 branch and returns the start of the upper half |
| RoutingTable.RandomStaysInside | lib/dht/dht.c:580-598 | bucket_random returns an id of the bucket, and can return each of them |
| RoutingTable.EightNeighbours | lib/dht/dht.c:846-977 | eight distinct ids beside ours with our first k bits need k < 157 |
| RoutingTable.FullOwnBucketIsShallow | lib/dht/dht.c:735-842 | when our bucket is full there are at most 157 buckets, so a split leaves at most 158 and our bucket at most 157 bits deep |
| RoutingTable.HalveKeepsShape | lib/dht/dht.c:755-795 | after split_bucket_helper every bucket is again at its tree node with its range, capacity and count |
| RoutingTable.HalveTakesOut | lib/dht/dht.c:755-795 | the nodes a split takes out of the table are exactly those of the bucket it splits |
| RoutingTable.HalvesAre | lib/dht/dht.c:755-795 | both halves are empty, have the time of the bucket and no cached address; the one without our id keeps the capacity, ours gets half of it but at least 8; all other buckets stay |
| RoutingTable.PushKeepsTable | lib/dht/dht.c:735-751 | putting an unknown node at the head of a bucket with room keeps the invariant and adds just that node |
| SplitSteps.OutsideIsUnknown | lib/dht/dht.c:797-842 | a node that waits for reinsertion has an id no bucket knows |
| SplitSteps.Placed | lib/dht/dht.c:797-842 | inserting the node in hand keeps the account of split_bucket: table + waiting + in hand + discarded = before |
| SplitSteps.Dropped | lib/dht/dht.c:797-842 | discarding the node in hand keeps the account when its bucket is full and not ours |
| SplitSteps.Halved | lib/dht/dht.c:797-842 | splitting again keeps the account, and closed buckets stay closed |
| DhtTable.Table.constructor | lib/dht/dht.c:1770-1843 | a new table is one bucket for 128 nodes and satisfies the invariant |
| DhtTable.Table.FindBucket | lib/dht/dht.c:490-505 | returns the bucket whose range holds the id; nothing iff there is no table |
| DhtTable.Table.FindNode | lib/dht/dht.c:525-541 | finds an id iff some bucket of the table holds it |
| DhtTable.Table.InsertNode | lib/dht/dht.c:735-751 | -1 without a table, 0 and the full bucket, or 1 with the node at the head of its list |
| DhtTable.Table.SplitBucketHelper | lib/dht/dht.c:755-795 | only our own bucket is halved; its nodes are handed back |
| DhtTable.Table.SplitBucket | lib/dht/dht.c:797-842 | terminates; each node of the bucket ends once in the table or is discarded, and then its bucket is full and not ours |
| DhtTable.Table.Reinsert | lib/dht/dht.c:797-842 | one turn of the loop keeps the account and loses ground only when it splits again |
| DhtTable.Table.NewNode | lib/dht/dht.c:846-977 | terminates and keeps the invariant; the nodes there were, but for those lost in splits, with the new one refreshed, in the place of the first bad node of its bucket, added when that bucket has room and no bad node, or turned away when it has neither, the first dubious node pinged; no other bucket changes in the last pass. The node returned is listed in that bucket and is what the message makes of it (`NodeLife.Told`): after a reply it has nothing unanswered and is good for the next fifteen minutes, a message settles no request, hearsay changes at most the address; when none is returned the bucket has an address in store; `mybucket_grow_time` is set iff our bucket had somebody new to consider |
| DhtTable.StampedChange | lib/dht/dht.c:870-977 | what a pass does is told by the bucket of the id as the pass found it: its list, capacity, cached address and time |
| NodeLife.StandingByHistory | lib/dht/dht.c:602-608 | over any history of requests, messages, replies and hearsay: a node is good iff its last reply is at most 7200 seconds old, it was last heard from at most 900 seconds ago and at most two requests since that reply are unanswered; replaceable iff three are and the last went out more than 15 seconds ago; its address is the last one it was heard from, or hearsay about a node silent for 900 seconds |
| NodeLife.RefreshTells | lib/dht/dht.c:873-893 | what a reply, a message and hearsay change in the entry of a known node, and what they leave alone |
| NodeLife.FreshTells | lib/dht/dht.c:904-977 | and of one that was not known: it owes nothing, and has never replied unless this was a reply |
| DhtTable.OutcomeTells | lib/dht/dht.c:873-977 | however new_node ends, the node it returns is in the list it leaves and is what the message makes of it, and the address in store is the old one, or the new one when there was no place and it is not hearsay or the first |
| DhtTable.ReplySurvivesExpiry | lib/dht/dht.c:873-1016 | a node that has just replied is good and in the table after the next expiry |
| DhtTable.Table.Update | lib/dht/dht.c:873-893 | a known node is refreshed in its place |
| DhtTable.Table.Replace | lib/dht/dht.c:904-919 | the first bad node of the bucket makes room for the new one |
| DhtTable.Table.Push | lib/dht/dht.c:959-977 | the new node becomes the head of its bucket, which has room and no bad node |
| DhtTable.Table.OnePass | lib/dht/dht.c:846-977 | one pass either settles the node in the bucket of its id or splits a bucket of ours that is full of good nodes |
| DhtTable.Table.AddUnknown | lib/dht/dht.c:895-977 | an unknown node overwrites the first bad node of its bucket; without one it is added iff there is room; without room the bucket is split iff it is ours and all good |
| DhtTable.Table.BucketFull | lib/dht/dht.c:921-957 | a full bucket without bad nodes asks to be split when it is ours and all good; otherwise its first dubious node not pinged for 15 seconds is pinged, if there is one, and the address is kept unless it is hearsay and there is one already |
| DhtTable.Table.Pinged | lib/dht/dht.c:652-661 | counts a request against the node it goes to and changes nothing else, but that from three on its bucket forgets the cached address |
| DhtTable.Table.Blacklist | lib/dht/dht.c:666-680 | a broken node counts as having left four requests unanswered, and its bucket forgets the cached address |
| DhtTable.BadNodeExpires | lib/dht/dht.c:666-1016 | such a node is in no bucket after the next expiry |
| DhtTable.ExpiryKeepsExactly | lib/dht/dht.c:981-1016 | the nodes of the table after an expiry are those before it with fewer than four unanswered requests |
| DhtTable.ExpiryForgets | lib/dht/dht.c:981-1016 | a bucket that loses nobody stays as it is, one that does forgets its cached address |
| DhtTable.ExpireList | lib/dht/dht.c:981-1016 | the unlinking loops remove exactly the nodes with four unanswered requests and keep the order |
| DhtTable.Table.ExpireBuckets | lib/dht/dht.c:981-1016 | expiry does that to every bucket, fixes `count`, and keeps the invariant |
| Closest.OfferKeepsSorted | lib/dht/dht.c:1039-1097 | an insertion keeps a list strictly sorted by XOR distance, with distinct ids |
| Closest.OfferKeepsTop | lib/dht/dht.c:1039-1097 | a list that holds the closest `cap` ids of a set holds those of the set with the offered id |
| Closest.OffersKeepTop | lib/dht/dht.c:1039-1097 | so does any sequence of offers |
| Closest.TopUnique | lib/dht/dht.c:461-479 | there is one sorted list of the closest `cap` ids of a set |
| Closest.TopPrefix | lib/dht/dht.c:2708-2753 | if some ids are closer than all others, the top list begins with their top list |
| Closest.OfferOrderIrrelevant | lib/dht/dht.c:1039-1097 | the order of the offers does not matter |
| ClosestNodes.InsertClosestNode | lib/dht/dht.c:2648-2693 | the array holds, in order, what offering the node to the sorted list gives |
| ClosestNodes.BufferClosestNodes | lib/dht/dht.c:2695-2706 | every good node of the bucket was offered with its id and address, and whatever the buffer holds was in it before or is the id and address of a good node of the bucket |
| ClosestNodes.SendClosestNodes | lib/dht/dht.c:2708-2753 | the reply is collected from the bucket of the target, the one after and the one before, in that order; every entry is the id and the address of a node of the table that is good |
| ClosestNodes.OfferGoodNames | lib/dht/dht.c:2648-2706 | insertions move ids with their addresses: every entry was there before or belongs to a good node that was offered |
| ClosestNodes.ReplyNamesGoodNodes | lib/dht/dht.c:2708-2753 | every entry of the reply is the id and the address of a good node of the table |
| ClosestNodes.HomeIsNearest | lib/dht/dht.c:2708-2753 | good nodes outside the home bucket are all farther from the target than those inside |
| ClosestNodes.ReplyIsTopOfScanned | lib/dht/dht.c:2708-2753 | the reply is the closest eight good nodes of the scanned buckets |
| ClosestNodes.ReplyBeginsWithGlobalAnswer | lib/dht/dht.c:2708-2753 | with g good nodes in the home bucket the first min(g, 8) entries are those of the answer over the whole table |
| ClosestNodes.FullHomeGivesGlobalAnswer | lib/dht/dht.c:2708-2753 | with g >= 8 the reply is that answer, as the find_node query of BEP 5 (section "DHT Queries") wants it |
| SearchSteps.DoneIffFrontSatisfied | lib/dht/dht.c:1186-1266 | a step ends the search exactly when the eight closest live candidates have replied and, if announcing, acked or given no token |
| SearchSteps.StepAt | lib/dht/dht.c:1136-1266 | a step, candidate by candidate: nothing within ten seconds of the last one; requests to the first four that are alive, have not replied and were not asked for ten seconds; once the first eight live ones have replied, announcements to those of them that have neither acked nor gone without a token |
| SearchSteps.FrontIsFirstLive | lib/dht/dht.c:1186-1266 | the candidates the step looks at are the first eight live ones |
| SearchSteps.SilentStepProgresses | lib/dht/dht.c:1186-1266 | with nothing heard, a call that does something (more than ten seconds after the last that did, or with the front all replied) ends the search or uses up requests |
| SearchSteps.SilentRunEnds | lib/dht/dht.c:1136-1266 | a silent search is unfinished after at most as many such calls as its candidates have requests left |
| SearchSteps.SatisfiedSavesOne | lib/dht/dht.c:1186-1266 | a satisfied live candidate stays so, its requests are never used, and the run is one step shorter |
| SearchSteps.OwingSavesOne | lib/dht/dht.c:1186-1266 | two candidates that owe an ack are announced to in one step, which makes the run one step shorter |
| SearchSteps.ThreeSaveOne | lib/dht/dht.c:1136-1266 | three live candidates at the head cannot all use up their requests one by one |
| SearchSteps.EffectiveRunEnds | lib/dht/dht.c:1136-1266 | with at most fourteen candidates 42 such calls are enough, query and announce phases together |
| SearchSteps.ApartCallsCount | lib/dht/dht.c:1186-2303 | calls at any times that do not go back: at least as many do something as are more than ten seconds after the one counted before |
| SearchSteps.SilentSearchEnds | lib/dht/dht.c:1136-2303 | a silent search of at most fourteen candidates is done once 42 of its calls are more than ten seconds apart, whatever calls come in between, and no more than 42 calls ever do anything |
| Searches.OfferedIds | lib/dht/dht.c:1039-1097 | the ids after an offer are those of offering the id to the sorted list |
| Searches.CandidatesAreClosest | lib/dht/dht.c:1039-1097 | after any offers in any order the candidates are the 14 closest of the initial ones and all that were offered |
| Searches.Search.InsertSearchNode | lib/dht/dht.c:1039-1097 | a known candidate is updated where it stands, a new one takes its place in the order, the last of fourteen making room, and one farther than fourteen others is turned away. A reply makes the candidate live, with no request in flight and none to be sent; without one nothing is concluded about a known candidate; a token of less than 40 bytes is stored, a longer one ignored; no other candidate changes |
| Searches.Search.FlushSearchNode | lib/dht/dht.c:1099-1106 | exactly that candidate goes |
| Searches.Search.Ask | lib/dht/dht.c:1136-1167 | a request goes out iff the candidate is alive, has not replied and has none in flight |
| Searches.Search.AskOne | lib/dht/dht.c:1136-1167 | the last candidate that may be asked is asked, if there is one |
| Searches.Search.SearchStep | lib/dht/dht.c:1186-1266 | the loops do what the step function says; candidates stay sorted |
| Searches.Search.AnnounceAll | lib/dht/dht.c:1206-1240 | the announce pass over the first eight live candidates, and whether all had acked |
| Searches.Search.AskAll | lib/dht/dht.c:1246-1266 | requests go to the first four candidates that may be asked |
| Searches.Search.Restart | lib/dht/dht.c:1374-1390 | a reused search keeps exactly the candidates that left at most two requests unanswered and replied within 7200 seconds, with address and times, nothing unanswered, and neither reply nor ack nor token |
| Searches.RenewedIsAfresh | lib/dht/dht.c:1374-1390 | the same of the list, for any candidates |
| Searches.Search.AnnounceAcked | lib/dht/dht.c:2185-2192 | the candidate that confirms is acked and live again, and no other changes |
| SearchHistory.CandidatesByHistory | lib/dht/dht.c:1039-1266 | over any history of offers, requests, acks and steps: the candidates are the 14 closest of all ids ever offered, each is said to have replied iff one of the offers was a reply of it, and has its last token of less than 40 bytes and its last address |
| SearchHistory.DoneWhenAllHaveReplied | lib/dht/dht.c:1186-1266 | a search without an announcement is done after a step iff each of the first eight live candidates has replied at some time |
| SearchHistory.DoneWhenAllHaveAcked | lib/dht/dht.c:1186-1266 | one with an announcement iff moreover each has acked or last gave no token |
| SearchHistory.RepliedStaysLive | lib/dht/dht.c:1136-1266 | in a search without an announcement whoever has replied stays live, with nothing unanswered |
| Tokens.RunRemembers | lib/dht/dht.c:1552-1566 | over any calls less than 900 s after issue the secret is still current or the one before |
| Tokens.TokenIsAccepted | lib/dht/dht.c:1552-1611 | a token is accepted from its address less than 900 s later, whatever rotations happen in between |
| Tokens.TokenCanExpireAt900 | lib/dht/dht.c:1552-1611 | 900 s is exact: two calls that far apart can make it worthless |
| Tokens.TokenIsForgotten | lib/dht/dht.c:1553-1617 | and rejected ever after once there were a call 2700 seconds after it was issued and one 2700 seconds after that, unless the hash collides |
| Tokens.TokenIssuer.EndOfPeriodic | lib/dht/dht.c:2225-2226 | the secrets rotate iff their time has come |
| Tokens.TokenIssuer.Check | lib/dht/dht.c:1597-1611 | accepts exactly the tokens of the current and the previous secret |
| TokenBucket.RefillExactIff | lib/event2/bufferevent_ratelim.c:73-111 | the machine refill is min(maximum, limit + ticks * rate) iff the limit is within its maximum or the refill reaches the wrapped distance back to it |
| TokenBucket.RefillIsMin | lib/event2/bufferevent_ratelim.c:73-111 | within the maximum it is exactly that, also for negative limits, and it never overflows |
| TokenBucket.TicksSurviveWrap | lib/event2/bufferevent_ratelim.c:82-99 | the 32-bit tick difference is right across a wrap, and a clock that steps back counts as no ticks |
| TokenBucket.UpdateIsMin | lib/event2/bufferevent_ratelim.c:73-111 | what one update does to both limits |
| TokenBucket.RefillsAddUp | lib/event2/bufferevent_ratelim.c:73-111 | any division of the time into refills gives the same limit |
| TokenBucket.RecoveryTime | lib/event2/bufferevent_ratelim.c:392-439 | an exhausted bucket holds something again iff floor(-limit / rate) + 1 ticks have been refilled |
| TokenBucket.BurstBound | lib/event2/bufferevent_ratelim.c:197-293 | reads that respect the limit take at most maximum + rate * (b - a) bytes in ticks a to b, and the limit stays between 0 and the maximum |
| Bufferevent.ArmedByHistory | lib/event2/bufferevent.c:66-108 | over any history the event is armed iff the last enable or disable was an enable and every suspension reason was withdrawn |
| Bufferevent.RateLimited.SuspendRead | lib/event2/bufferevent.c:66-75 | adds the reason and disarms the event if it is the first one |
| Bufferevent.RateLimited.UnsuspendRead | lib/event2/bufferevent.c:77-86 | withdraws the reason and arms the event if none is left and reading is enabled |
| Bufferevent.RateLimited.EnableEvents | lib/event2/bufferevent.c:481-503 | enables; suspended directions are not armed |
| Bufferevent.RateLimited.DisableEvents | lib/event2/bufferevent.c:555-587 | disables and disarms |
| Bufferevent.RateLimited.SetReadWatermark | lib/event2/bufferevent.c:593-638 | reading is suspended for the watermark iff that much input is buffered |
| Bufferevent.RateLimited.GetReadMax | lib/event2/bufferevent_ratelim.c:197-264 | the most that neither the refilled limit (or the fixed maximum without one) nor the share of the group forbids, nothing if the group is suspended, and then reading is held back for it |
| Bufferevent.SharesFit | lib/event2/bufferevent_ratelim.c:236-247 | no share is below the minimum; the shares of all members together fit the limit of the group unless the minimum is larger, and leave less than a byte each |
| Bufferevent.RateLimited.DecrementReadBuckets | lib/event2/bufferevent_ratelim.c:272-308 | spends the bytes; reading is suspended for bandwidth iff nothing is left, and then the timer runs |
| Bufferevent.RateLimited.DecrementReadLimit | lib/event2/bufferevent_ratelim.c:968-993 | the public decrement acts only when the limit crosses zero, and keeps the rule |
| Bufferevent.RateLimited.RefillCallback | lib/event2/bufferevent_ratelim.c:392-439 | refills, releases every direction with something left, and keeps the timer running for the others |
| Bufferevent.RateLimited.SetRateLimit | lib/event2/bufferevent_ratelim.c:559-635 | a new configuration clips the limits and leaves each direction suspended for bandwidth iff it is exhausted; without one nothing is; what is enabled and every other reason to suspend stay as they are |
| Bufferevent.CallbacksReleaseRead | lib/event2/bufferevent_ratelim.c:392-439 | with callbacks alone, each some ticks after the one before, an exhausted direction is released by the first that is floor(-limit / rate) + 1 ticks late and by none before |
| Wakeups.HistoryStaysAwake | lib/event2/bufferevent_ratelim.c:129-439 | over any history of callbacks, questions how much may be transferred, spending and other reasons to suspend, the timer runs exactly while a direction waits for bandwidth |
| Wakeups.LimitGrows | lib/event2/bufferevent_ratelim.c:73-142 | callbacks and questions refill in any order and at any readings, and add up to rate * ticks gained, up to the maximum |
| Wakeups.ReadIsReleasedInTime | lib/event2/bufferevent_ratelim.c:197-439 | after a callback reading is suspended for bandwidth iff what it was short of is more than the ticks gained since made up for, from any limit, suspended or not, whatever happened in between but spending on its side |
| Wakeups.ReadIsReleasedForGood | lib/event2/bufferevent_ratelim.c:197-439 | one callback that comes late enough is sufficient, and holds until somebody spends |
| Bufferevent.CallbacksReleaseWrite | lib/event2/bufferevent_ratelim.c:392-439 | the same for writing |
| Wakeups.WriteIsReleasedInTime | lib/event2/bufferevent_ratelim.c:197-439 | the same for writing |
| Wakeups.WriteIsReleasedForGood | lib/event2/bufferevent_ratelim.c:197-439 | the same for writing |
| Wakeups.ReadStaysReleased | lib/event2/bufferevent_ratelim.c:197-439 | and it stays released while nothing is spent on its side |
| RateGroup.StepKeepsGroup | lib/event2/bufferevent_ratelim.c:348-807 | every step of every thread, whatever try-locks fail, and every access of the unlocked set_min_share keep the group invariant: a member that is held back has a group that is suspended or owes an unsuspension, never both; the limit is within its maximum. When the group is suspended is said by GroupLimit.StepSuspends |
| RateGroup.RunKeepsGroup | lib/event2/bufferevent_ratelim.c:348-807 | so does every run in any interleaving |
| RateGroup.NewGroupOk | lib/event2/bufferevent_ratelim.c:637-669 | a new group satisfies it: it holds one tick of bytes, nobody is a member, and its share is the least of 64 and its rates |
| GroupLimit.StaysBoundIff | lib/event2/bufferevent_ratelim.c:272-807 | a step leaves an exhausted group suspended, except a refill to exactly nothing under a share of nothing |
| GroupLimit.RunStaysBound | lib/event2/bufferevent_ratelim.c:272-807 | over any run in which no share is set to nothing, whatever the try-locks do, a group whose limit is used up is suspended in every state |
| GroupLimit.ReachableIsBound | lib/event2/bufferevent_ratelim.c:272-807 | so it is in every state that such a run reaches from a new group |
| GroupLimit.ZeroShareFrees | lib/event2/bufferevent_ratelim.c:272-807 | with a share of nothing it is not: a run that ends with limit 0, the group not suspended and its member free |
| GroupLimit.ExhaustionHolds | lib/event2/bufferevent_ratelim.c:272-348 | the step that uses the limit up suspends the group and every member whose lock it wins |
| GroupLimit.AskingIsHeld | lib/event2/bufferevent_ratelim.c:197-807 | a member that asks, or joins, while the group is suspended is held back |
| GroupLimit.HeldThroughout | lib/event2/bufferevent_ratelim.c:272-807 | nobody who is held back gets away while the group is exhausted |
| GroupLimit.StepSuspends | lib/event2/bufferevent_ratelim.c:272-557 | the exact condition for the group to be suspended after each step |
| GroupLimit.UnsuspensionFrees | lib/event2/bufferevent_ratelim.c:474-504 | the step that lifts a suspension frees every member whose lock it wins, and owes another round iff it did not win one |
| GroupLimit.RunDrawsWhatThereIs | lib/event2/bufferevent_ratelim.c:272-807 | in any interleaving and through any configurations what is drawn and what is left are at most the limit at the beginning and what the refills could add, and exactly that limit if nothing was refilled or configured |
| GroupLimit.CallStoresLeast | lib/event2/bufferevent_ratelim.c:702-721 | an undisturbed set_min_share stores the least of its argument and the two rates, and remembers the argument |
| GroupLimit.ConfigureClipsAgain | lib/event2/bufferevent_ratelim.c:671-721 | a set_cfg makes of that argument the least of it and the new rates |
| RateGroup.ShareOkIff | lib/event2/bufferevent_ratelim.c:671-721 | after a set_cfg the share is within the rates, whenever the lock is free, iff the last store to it is not that of a set_min_share call that was in flight across the set_cfg with a result above the new rates |
| RateGroup.ConfigureIsSafeIff | lib/event2/bufferevent_ratelim.c:671-721 | it is so in every continuation iff no such call is in flight when set_cfg takes the lock |
| RateGroup.CarefulRunKeepsShare | lib/event2/bufferevent_ratelim.c:671-721 | a run whose every set_cfg is like that keeps the share within the rates |
| RateGroup.RaceBreaksShare | lib/event2/bufferevent_ratelim.c:671-721 | the run that breaks it: a share of 80 stored after a set_cfg with rates of 10 and a maximum of 50 |
| RateGroup.RaceStrandsMember | lib/event2/bufferevent_ratelim.c:474-721 | and then a member that is held back is freed by no refill |
| RateGroup.RefillsUnsuspend | lib/event2/bufferevent_ratelim.c:525-557 | with a share within the maximum, refills that add up to enough ticks, none of them more than INT_MAX, leave the group unsuspended |
| RateGroup.RefillsCannotUnsuspend | lib/event2/bufferevent_ratelim.c:525-557 | with a share above it, no refill changes who is held back |
| RateGroup.RecoversIff | lib/event2/bufferevent_ratelim.c:525-557 | a suspended group recovers by such refills iff its share is within its maximum |
| RateGroup.ShareOkReaches | lib/event2/bufferevent_ratelim.c:702-721 | a share within the rates is within the maximum |
| RateGroup.EveryoneIsReleased | lib/event2/bufferevent_ratelim.c:474-557 | a member whose lock is won by any refill from the point on where the ticks are enough is released, to the end of the run |
| RateGroup.ReleasedStaysReleased | lib/event2/bufferevent_ratelim.c:474-557 | and stays so while only refills happen |
| RateGroup.SomeTicksAreEnough | lib/event2/bufferevent_ratelim.c:702-721 | so many ticks are always long enough |
| RateGroup.UnsuspendMembers | lib/event2/bufferevent_ratelim.c:442-504 | the two loops from a random member compute the function the protocol uses: who is released, and that another round is owed iff a lock was not won |
| Base64.EncodeValueIsTable | lib/b64/cencode.c:60-65 | the encoder has the 64 characters of Table 1 of RFC 4648 (section 4), and = beyond them |
| Base64.DecodeValueIsIndex | lib/b64/cdecode.c:21-34 | the decoder gives each of them its place in that table |
| Base64.DecodeValueInverts | lib/b64/cdecode.c:21-34 | decoding a character of the alphabet gives back its value |
| Base64.SkippedIff | lib/b64/cdecode.c:21-107 | a byte is skipped iff it is none of the characters of that table: it delivers nothing and leaves the decoder as it is |
| Base64.EncodeChunks | lib/b64/cencode.c:67-145 | encoding a concatenation is encoding its parts one after the other |
| Base64.DecodeChunks | lib/b64/cdecode.c:42-107 | so is decoding |
| Base64.RoundTrip | lib/b64/cdecode.c:42-107 | decoding what was encoded, with any line length, gives the bytes back |
| Base64.RoundTripInChunks | lib/b64/cencode.c:67-175 | and so it does for any chunking of the input of the encoder and of the decoder |
| Base64.UnbrokenIsRfc4648 | lib/b64/cencode.c:67-175 | without line breaks the output is that of section 4 of RFC 4648, written over its own table |
| Base64.RfcExamples | lib/b64/cencode.c:67-175 | of which these are examples of its section 10: Zg==, Zm8= and Zm9v |
| Base64Lines.EncodedIsRfc4648Lines | lib/b64/cencode.c:67-175 | with a line length it is that text cut into lines, each ended by a line feed |
| Base64Lines.EncodeLengthIsExact | lib/b64/cencode.c:18-58 | base64_encode_length is the exact length, or 0 for no input or an overflow |
| Base64Lines.DecodeMaxLengthHolds | lib/b64/cdecode.c:16-19 | one call on a fresh decoder delivers at most base64_decode_maxlength bytes |
| Base64Lines.DecodeMaxLengthIsTight | lib/b64/cdecode.c:16-19 | and some texts reach that bound, up to two bytes |
| Base64Machine.Encoder.EncodeBlock | lib/b64/cencode.c:67-145 | the resumable loop writes what the byte-by-byte encoder gives and nothing else |
| Base64Machine.Encoder.EncodeBlockEnd | lib/b64/cencode.c:147-175 | writes the pending sextet, the padding and the final newline |
| Base64Machine.Decoder.DecodeBlock | lib/b64/cdecode.c:42-107 | the resumable loop leaves the decoded bytes in the array, with the pending bits in the scratch byte behind them |
| Segments.FlatAround | lib/event2/buffer.c:1729-1817 | the bytes around one segment of a buffer, and what replacing it does to the whole |
| EvbufferCore.ChainNew | lib/event2/buffer.c:155-193 | a chain with at least that much memory; none exactly if the size is out of range or memory is short |
| EvbufferCore.FreeTrailingEmptyChains | lib/event2/buffer.c:290-303 | drops exactly the empty chains at the end and returns the pointer behind the rest |
| EvbufferInsert.ChainInsert | lib/event2/buffer.c:308-327 | the chain ends up last, the bytes are the old ones and its own, the structure is in order |
| EvbufferAdd.Add | lib/event2/buffer.c:1729-1824 | append, all or nothing, in every branch (reuse, realign, new chain); it succeeds iff CanAdd held before |
| EvbufferAdd.AddSucceeds | lib/event2/buffer.c:1729-1824 | while memory lasts every addition the length can count succeeds |
| EvbufferAdd.AddWithoutMemory | lib/event2/buffer.c:1729-1824 | without memory it does iff the last chain with data has room behind its data, or before and behind together and few enough data |
| EvbufferAdd.AddBeyond | lib/event2/buffer.c:1790-1817 | what fits is put into the chain, the rest into a new one behind it; nothing happens iff no memory is had |
| EvbufferAdd.AddReference | lib/event2/buffer.c:2920-2958 | append of bytes that are not copied: the last chain is immutable and is exactly those bytes; the length is the one of the machine iff it fits a size_t |
| EvbufferPrepend.Prepend | lib/event2/buffer.c:1826-1910 | prepend; when it fails the buffer is as before, except that the front of the first chain may keep the end of the data |
| EvbufferPrepend.LeavesAByte | lib/event2/buffer.c:1855-1897 | a failing call that changes the buffer: with one byte of room before [2], prepending [7, 8, 9, 10] while memory is short can only leave [10, 2] |
| EvbufferPrepend.PrependTo | lib/event2/buffer.c:1855-1897 | says exactly when it fails and what stays behind then |
| EvbufferDrain.Drain | lib/event2/buffer.c:1100-1166 | drop-prefix, with last_with_datap redirected when its chain goes |
| EvbufferRead.CopyoutFrom | lib/event2/buffer.c:1189-1254 | the bytes at a position, across chains; the errors for a frozen front and for lengths out of range |
| EvbufferRead.Remove | lib/event2/buffer.c:1168-1181 | take-prefix; the count is returned as a 32-bit int |
| EvbufferMove.AddBuffer | lib/event2/buffer.c:965-1009 | dst becomes dst ++ src and src empty; both are in order and share no chain; the length is the one of the machine iff it fits a size_t |
| EvbufferMove.PrependBuffer | lib/event2/buffer.c:1054-1098 | dst becomes src ++ dst and src empty; both are in order and share no chain; the length is the one of the machine iff it fits a size_t |
| EvbufferMove.CopyChain | lib/event2/buffer.c:874-886 | taking over a whole list turns a last_with_datap that pointed into src into one that points into dst |
| EvbufferMove.AppendChain | lib/event2/buffer.c:888-905 | the same when the list goes behind the chains of dst |
| EvbufferMove.PrependChain | lib/event2/buffer.c:947-963 | the same when it goes before them |
| EvbufferRemove.AdvanceLastWithData | lib/event2/buffer.c:703-721 | afterwards last_with_datap addresses the last chain with data |
| EvbufferRemove.RemoveBuffer | lib/event2/buffer.c:1256-1347 | src loses its first m = min(n, length) bytes and dst gains them, but for the last Loss of them; the count returned is m all the same |
| EvbufferRemove.BytesAreLostIff | lib/event2/buffer.c:1256-1347 | bytes are lost iff some are left behind the whole chains that fit and the chain they should go to does not take them; then all of those are |
| EvbufferRemove.NoLoss | lib/event2/buffer.c:1256-1347 | nothing is lost while memory lasts, the length does not overflow and no chain is larger than an allocation can be |
| EvbufferRemove.LosesAByte | lib/event2/buffer.c:1256-1347 | a call that loses a byte: of [1, 2] in one chain one byte goes to an empty buffer while memory is short, and the only result the contract of the call leaves is [2], nothing, and a count of 1 |
| EvbufferPullup.Pullup | lib/event2/buffer.c:1349-1461 | the bytes stay what they are; a chain that is returned is the first one and holds the first n of them; null exactly in the stated cases |
| EvbufferPullup.RepairSlot | lib/event2/buffer.c:1446-1455 | both removed_last repairs leave last_with_datap at the last chain with data |
| EvbufferPullup.PullWhole | lib/event2/buffer.c:1423-1438 | the loop copies whole chains in order and sets each flag iff the chain it is about was passed |
| EvbufferReserve.ExpandSinglechain | lib/event2/buffer.c:1936-2046 | the bytes stay what they are in every branch; the chain returned is writable, has the space, and no data behind it; null iff neither chain will do and the memory is not to be had |
| EvbufferReserve.Resize | lib/event2/buffer.c:2008-2034 | a bigger chain with the same bytes takes the place of the last one with data, and no other chain changes place |
| EvbufferReserve.ReserveOne | lib/event2/buffer.c:670-700 | space for at least the size asked for; what is written there can be committed, all or part, except exactly when the space is that of a chain that is neither the last nor the first with space |
| EvbufferReserve.OnePieceIsAcceptable | lib/event2/buffer.c:723-791 | one piece is accepted iff the end is not frozen and its chain is the last one or the first one with space |
| EvbufferReserve.LastPieceIsAcceptable | lib/event2/buffer.c:723-791 | one piece at the end of the last chain is accepted up to exactly full, unless the end is frozen |
| EvbufferReserve.CommitSpace | lib/event2/buffer.c:723-791 | all or nothing: succeeds iff the pieces are acceptable, and then appends exactly what was written into them, in order |
| EvbufferPtr.SliceAt | lib/event2/buffer.c:2622-2672 | a piece of one chain is the piece of the whole at the sum of the lengths before it |
| EvbufferPtr.PtrSet | lib/event2/buffer.c:2622-2672 | the position of an offset agrees with the prefix sums of the chains; past the end it is not found |
| EvbufferPtr.PtrSubtract | lib/event2/buffer.c:2597-2620 | moves back, into an earlier chain if need be |
| EvbufferPtr.GetChr | lib/event2/buffer.c:1584-1594 | the byte at a position |
| EvbufferSearch.MemcmpConcat | lib/event2/buffer.c:2674-2712 | comparing piece by piece gives the result of comparing at once |
| EvbufferSearch.MemcmpDecides | lib/event2/buffer.c:2674-2712 | the sign of memcmp is that of the first byte that differs |
| EvbufferSearch.PtrMemcmp | lib/event2/buffer.c:2674-2712 | memcmp of the flat bytes at a position, -1 when they do not reach that far |
| EvbufferSearch.SearchRange | lib/event2/buffer.c:2720-2782 | the least match at or after the start that ends within the range, or not found and then there is none |
| EvbufferSearch.Search | lib/event2/buffer.c:2714-2718 | the same without an end |
| EvbufferSearch.SearchUnique | lib/event2/buffer.c:2720-2782 | the offset a search ends at is determined, and it is -1 iff nothing matches |
| EvbufferLines.FindEolChar | lib/event2/buffer.c:1495-1520 | looking for both characters chunk by chunk finds what one pass for either would |
| EvbufferLines.FindChar | lib/event2/buffer.c:1473-1542 | the first of the given bytes at or after a position, across chains |
| EvbufferLines.Strspn | lib/event2/buffer.c:1544-1581 | the length of the run of the given bytes from a position on, across chains |
| EvbufferLines.SearchEol | lib/event2/buffer.c:1596-1684 | the first line terminator of each style and its length |
| EvbufferLines.EolExamples | lib/event2/buffer.c:1596-1684 | the styles on bytes: what ends the lines of a, CR, LF, b, LF in each of them |
| EvbufferLines.EolUnique | lib/event2/buffer.c:1596-1684 | there is one answer to where the first terminator is and how long |
| EvbufferLines.LineHasNoEol | lib/event2/buffer.c:1686-1723 | the line cut off before a terminator holds none itself |
| EvbufferLines.Readln | lib/event2/buffer.c:1686-1723 | takes exactly the first line and its terminator; nothing happens iff the front is frozen, memory is short or there is no terminator |

## Left out

- Sockets, `sendto`, addresses as bytes and the wire format of messages: a message is the call it causes, an address
  is a pair of numbers, time is a parameter.
- `random()`, `dht_hash` and `dht_random_bytes`: parameters, or arbitrary functions. The martian and blacklist tests
  of `new_node` are one boolean parameter.
- Allocation failure in the DHT: its `calloc` calls are taken to succeed. In the evbuffer every operation that
  allocates takes a parameter that says whether its one allocation fails.
- One address family: a table per family behaves alike, and the model has one `Table` object each.
- The linked lists of the DHT (buckets, nodes) are sequences in fields of the class `Table`; pointers between their
  elements are not modelled. The array of a search and the reply buffer are arrays, updated in place.
- The memory of a chain is a sequence in a field, so two chains never share memory. Multicast chains
  (`evbuffer_add_buffer_reference`) share it and are left out, as are pinned chains, file segments, `sendfile`, locks,
  reference counts, callbacks and `evbuffer_reserve_space` for several pieces.
- `ev_ssize_t` lengths: positions and copied lengths are unbounded integers; a buffer of more than 2^63 bytes is not
  modelled.
- `add_search_node` offers a node to the searches from within `new_node`; here the two calls are made one after the
  other.
- Maintenance of the DHT (`bucket_maintenance`, `neighbourhood_maintenance`), stored announces and `dht_get_nodes`:
  they only call the operations modelled here.
- The sending side of a group: writing is the twin of reading and `RateGroup` follows reading alone.
- RateGroup.UnsuspendMembers: the random first member is a parameter.
- Bufferevent.RateLimited.GetReadMax: what it sees of the group, read under the group's lock, is a parameter.
- RateGroup.Next: the copy of a configuration by `set_cfg` is one step, so no reader finds it half done.
- DhtTable.Table.Blacklist: the table alone; the searches drop the node by `Searches.Search.FlushSearchNode`.
- Wakeups.Next: one configuration; `bufferevent_set_rate_limit` decides both suspensions anew, and a history begins
  after it.
- TokenBucket.BurstBound: for decrements that are not negative, since a negative one is a refill by hand.
- Base64Machine.Decoder.DecodeBlock: requires one byte of the array behind the delivered bytes, where the decoder
  keeps its pending bits.
- The pair, filter, socket and TLS bufferevents, the daemon, its option parsing, and the user interface.
