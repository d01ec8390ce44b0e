# apt-p2p: a model of its distributed hash table and downloader

apt-p2p downloads Debian packages from other users of the same mirror. It finds them through a
Kademlia-style hash table (`apt_p2p_Khashmir`), fetches a file piece by piece from several of them at
once, and uploads to others under a bandwidth limit (`apt_p2p`). This project models the parts of the
program that are state and arithmetic, and proves what they keep.

Where the program updates objects in place, so does the model: the routing table, the searches, the
requests, the throttle, the hashes, the file and its reader are classes whose methods are proved against
functions of the old state and keep an invariant (`Valid`) that holds between any two events. Events
come in any order: an answer, a failure, a timer or a read is a method call with no assumption but that
it can happen. What the program leaves to chance is a parameter: the order of sets and of peers, drawn
numbers, hash functions, the clock.

| file | what it models |
|---|---|
| Options, Chunks, Scalars, Text, Bits | missing values; chunks of data; strings and numbers of answers; decimal numbers, the order of strings, offsets; powers of two and exclusive-or |
| Khash | IDs as strings and as numbers, the distance, random IDs |
| KTableSpec | every operation of the routing table on values |
| KTableShape, KTableLists, KTableInvariant | the buckets as the binary path to our own ID; the lists in them; the invariant of the table |
| KTableInsert, KTableUpkeep | insertNode; replaceStaleNode, justSeenNode, nodeFailed |
| KTableRuns, KTableTimes | whole runs of operations: the invariant, and the order of time |
| KTableLookup, KTableMisses, KTableMissRun | where findNodes is exact, where it cannot be, and a run after which it is not |
| KBucket, KTable | nodes, buckets and the table as objects, with the loops of the program |
| ActionLists, Actions | the searches and stores as state machines over answers and failures |
| ActionRuns | whole runs of them: their end, and what they answer and deliver |
| Dht, Retrieval | many callers waiting for one search, and what a retrieval delivers to them |
| Bencode | the encoding of values, its decoder for numbers that are written plainly, and their loops |
| BencodeRuns | the decoder as it runs: offsets that go back, other numbers that int() reads, readings without end |
| Fitting, Krpc | fitting an answer into a datagram; what the other side makes of it |
| Transactions | requests, resends, timeouts and transaction numbers |
| Policies | the token bucket, the buffers and the queue of throttled connections |
| Hash | hashing a file and its pieces as it arrives |
| Streams, Pieces, PeerManager | one file, the writers of its pieces, its reader, and the download from several peers |
| PeerRuns | the run of a download from a single peer |

## What is false of the code, and exactly when it holds

- findNodes does not always return the closest nodes of the table. It does for a bucket, whatever the
  nodes are, exactly if the bucket is our own or its twin (`KTableMisses.ExactIffNearSelf`); after ten
  insertions into a new table it can miss one of the closest (`KTableMissRun.MissedAfterRun`).
- A node that has not been contacted is added after all, because the flag is not passed on after a
  split; exactly when its bucket is our own, full, and not crowded beside us
  (`KTableInsert.UncontactedIsAddedIff`), as after eight insertions into a new table
  (`KTableRuns.UncontactedEnters`).
- replaceStaleNode checks the bucket and the room for the new node, not whether it is ourselves, is held
  already or has failed too often; a run keeps the table in order exactly as long as no replacement is one
  of these (`KTableUpkeep.ReplaceStaleCorrect`, `KTableRuns.EveryRunKeepsInvIff`; an input is in
  `KTableRuns.OwnIdPutIn`). The program itself never gets there: its only call of replaceStaleNode, in
  invalidateNode, passes no replacement.
- bdecode does not read a value from its encoding only. A key length may have a minus sign, and then the
  value is read from before the colon: "d-2:abe" is read as the dictionary of "" to "ab", whose encoding is
  "d0:2:abe" (`BencodeRuns.OddAccepted`), and the reading of "d-4:" begins again and again
  (`BencodeRuns.OddEndless`). What is accepted is the encoding of what is returned exactly if every number
  read is a decimal number and every length is written in digits alone (`BencodeRuns.EncodingIff`,
  `BencodeRuns.OddNumber`).
- A sloppy bdecode accepts a string that is cut short (`BencodeRuns.SloppyAccepts`).
- An answer whose longest fitting list of values fills the datagram to the last byte is not sent: the
  assertion after the adjustment is strict, and the other side gets an error, exactly under the condition of
  `Krpc.ValuesSentIff`; `Krpc.BrimfulRefused` has two values for which it happens.
- A value can be lost although several nodes have it. An answer of which an item cannot be looked up breaks off,
  and the values before that item count as seen but are never delivered; a value is delivered exactly if it is
  neither empty nor zero and the first answer that brings it can be used as a whole (`ActionRuns.ValuesCome`);
  `ActionRuns.ValueLost` has two answers for which it is lost.
- A connection can wait for ever: exactly when the last of several chunks in its buffer is empty at its
  last turn (`Policies.LeftBehindIff`); `Policies.StuckConnection` is a run that ends so.
- A complete download need not be the accepted data: bytes that an earlier, rejected attempt wrote
  further than the accepted one stay in the file. The file is the accepted data exactly if every accepted
  piece before the last that is not empty is full, and no attempt has written beyond the accepted data
  (`PeerManager.FileDownload.FileIsAcceptedIff`); `PeerManager.StaleTail` is a run after which it is not.
- A reader need not get the whole file: it is told of PIECE_SIZE bytes for each complete piece. Of a download
  that is complete, a reader that stays to the end gets the whole file exactly if the file is not longer than
  PIECE_SIZE bytes for each piece (`PeerManager.FileDownload.ReaderEnds`); `PeerManager.CutOff` is a run with a
  file of one piece that is longer.
- A download need not go on until it is over. If the reader closes the file while its read waits, the next piece
  that could serve the read raises an exception (`Streams.GrowingFileStream.UpdateAvailable` raises exactly then),
  and the next round of requests is not made. After every event something is under way or the download is over,
  but for a piece that completes in this state (`PeerManager.FileDownload.GotPiece`);
  `PeerManager.LostReader` is a run after which nothing is under way and nothing is over.

## Model

| member | source | states |
|---|---|---|
| Khash.NumberRoundTrip | apt_p2p_Khashmir/khash.py:14-27 | Every number of the ID space becomes a string of 20 bytes that is read back as the number. |
| Khash.StringRoundTrip | apt_p2p_Khashmir/khash.py:14-27 | Every string of 20 bytes is read as a number below 2^160 that is written as the same string. |
| Khash.BigEndian | apt_p2p_Khashmir/khash.py:14-17 | Strings are read big-endian: null bytes are zero, and a byte that differs counts its difference times 256 for each byte behind it. |
| Khash.StringifyLength | apt_p2p_Khashmir/khash.py:19-27 | stringify gives 20 bytes exactly for the numbers of the ID space. |
| Khash.DistanceIsMetric | apt_p2p_Khashmir/khash.py:29-31 | The distance is zero only between equal IDs, symmetric, obeys the triangle inequality, and no two IDs are equally far from a third. |
| Khash.DistanceBits | apt_p2p_Khashmir/khash.py:29-31 | The distance has exactly the bits in which the two IDs differ. |
| Khash.RefreshesItsBucket | apt_p2p_Khashmir/khash.py:46-52 | Whatever is drawn, an ID made for a bucket's range is looked up in that bucket. |
| Bits.XorCompose | apt_p2p_Khashmir/khash.py:29-31 | The distances of a to b and of b to c combine by exclusive-or to that of a to c. |
| Bits.XorBits | apt_p2p_Khashmir/khash.py:29-31 | A bit of the exclusive-or is set exactly if the two numbers differ in it. |
| Bits.XorBlock | apt_p2p_Khashmir/ktable.py:95 | IDs of an aligned block around a target are exactly those at a distance less than its width. |
| KTableShape.IndexForFinds | apt_p2p_Khashmir/ktable.py:44-46 | Over ranges without gaps the bisection finds the one bucket that covers an ID. |
| KTableShape.EqualNeighboursArePair | apt_p2p_Khashmir/ktable.py:119-124 | Two neighbouring buckets are equally wide if and only if they are our own bucket and its twin. |
| KTableInvariant.LookupFindsBucket | apt_p2p_Khashmir/ktable.py:44-46 | In every table with the invariant the bucket found for an ID is the only one that covers it. |
| KTableInvariant.HeldOnlyInItsBucket | apt_p2p_Khashmir/ktable.py:187-195 | A record is in no other bucket than the one its number is looked up in. |
| KTableInvariant.SplitKeepsInv | apt_p2p_Khashmir/ktable.py:227-229 | Splitting our own full bucket keeps the partition, the path shape, the order and all nodes, and leaves our bucket and its twin with K nodes together. |
| KTableInvariant.MergeRestoresInv | apt_p2p_Khashmir/ktable.py:110-132 | The cascade of merges after a removal makes our bucket and its twin hold at least K nodes together again, and loses no node; it leaves the two apart only if they hold more than K. |
| KTableInsert.NeverFull | apt_p2p_Khashmir/ktable.py:222-225 | A table with the invariant has at most 158 buckets, so the table is never full. |
| KTableInsert.InsertCorrect | apt_p2p_Khashmir/ktable.py:164-232 | insertNode keeps the invariant, and records its argument or leaves the contents alone. Of a node that is new it answers whether it must be contacted exactly if it was not and there is room; if its bucket is full and not ours it answers the first node of that bucket, contacted or not, and changes nothing. It never reports a full table. |
| KTableInsert.FullHomeRefusesIff | apt_p2p_Khashmir/ktable.py:217-232 | Our own full bucket refuses a new node exactly if all its nodes lie in one subtree beside us that the new one would join. |
| KTableInsert.UncontactedIsAddedIff | apt_p2p_Khashmir/ktable.py:207-232 | A node not contacted is added exactly if its bucket is our own, full, and not crowded beside us. |
| KTableUpkeep.DropCorrect | apt_p2p_Khashmir/ktable.py:257-262 | Forgetting a node removes it and nothing else, and keeps the invariant. |
| KTableUpkeep.DropMerges | apt_p2p_Khashmir/ktable.py:110-132 | When a node of our own bucket or its twin goes, the two stay apart only if one bucket could not hold the nodes of both. |
| KTableUpkeep.ReplaceStaleCorrect | apt_p2p_Khashmir/ktable.py:134-162 | replaceStaleNode keeps the invariant if and only if a replacement it puts in is not us, not held and not failed out; then the stale record is exchanged for it. |
| KTableUpkeep.JustSeenCorrect | apt_p2p_Khashmir/ktable.py:234-255 | A message refreshes the one record of its sender and answers the time it had. |
| KTableUpkeep.NodeFailedCorrect | apt_p2p_Khashmir/ktable.py:264-283 | A failure is counted on the record of the node, which is dropped at MAX_FAILURES; nothing else changes. |
| KTableUpkeep.FailureAnswer | apt_p2p_Khashmir/ktable.py:264-283 | The answer of nodeFailed says whether the node is in the table afterwards. |
| KTableRuns.ApplyKeepsInvIff | apt_p2p_Khashmir/ktable.py:134-283 | Any operation keeps the invariant exactly if it does not put in a replacement that is us, held or failed out. |
| KTableRuns.EveryRunKeepsInvIff | apt_p2p_Khashmir/ktable.py:134-283 | The tables of any run satisfy the invariant exactly as long as no such replacement was put in. |
| KTableRuns.ReachableTables | apt_p2p_Khashmir/ktable.py:30-42 | Every table reached from the first, empty bucket without such a replacement, so without any as the program makes none, satisfies the invariant and has at most 158 buckets. |
| KTableRuns.OwnIdPutIn | apt_p2p_Khashmir/ktable.py:159-160 | An empty table that is given its own ID as a replacement takes it. |
| KTableRuns.UncontactedEnters | apt_p2p_Khashmir/ktable.py:227-232 | After eight contacted nodes of the other half of the space a node of our half that was not contacted is put into the table. |
| KTableRuns.ApplyAddsAtMostItsArgument | apt_p2p_Khashmir/ktable.py:134-283 | No operation makes the table hold a number that it was not given, whatever the replacement. |
| KTableTimes.EveryRunKeepsTimeOrder | apt_p2p_Khashmir/ktable.py:324-363 | Under a clock that does not run back every bucket of every table of a run stays sorted by the time its nodes were last seen, whatever replacements are put in. |
| KTableTimes.OldestIsLeastRecent | apt_p2p_Khashmir/ktable.py:322 | So the first node of a bucket is one that was least recently seen. |
| KTableLookup.AnswerIsClosestVisited | apt_p2p_Khashmir/ktable.py:66-96 | findNodes answers min(K, total) nodes, the closest of the buckets it visited, nearest first. |
| KTableLookup.OwnBucketFirst | apt_p2p_Khashmir/ktable.py:76-96 | The nodes of the target's own bucket come first, and others only when all of its own are answered. |
| KTableLookup.FullBucketExact | apt_p2p_Khashmir/ktable.py:76-81 | For a target in a full bucket the answer is the K closest nodes of the whole table. |
| KTableLookup.ExactNearSelf | apt_p2p_Khashmir/ktable.py:66-96 | For a target in our own bucket or its twin the answer is the min(K, total) closest nodes of the whole table. |
| KTableMisses.InexactElsewhere | apt_p2p_Khashmir/ktable.py:81-92 | For every other bucket there are nodes, within the same ranges and the invariant, and a target for which the answer is not the closest. |
| KTableMissRun.MissedAfterRun | apt_p2p_Khashmir/ktable.py:81-92 | A run: ten contacted nodes put into a new table, after which the answer for a target of the outer bucket is not the closest nodes of the table. |
| KTableMisses.ExactIffNearSelf | apt_p2p_Khashmir/ktable.py:66-96 | The answer for the targets of a bucket is exact whatever the nodes are, if and only if the bucket is our own or its twin. |
| KBuckets.InsertByTime | apt_p2p_Khashmir/ktable.py:324-329 | The loop of add inserts a node right after the last one that is not more recent. |
| KBuckets.SplitList | apt_p2p_Khashmir/ktable.py:378-382 | The loop of split leaves the nodes of the lower half in order and moves the others, by time. |
| KBuckets.MergeLists | apt_p2p_Khashmir/ktable.py:400-406 | The loops of merge produce the merge of two lists by time. |
| KTableLists.MergeStable | apt_p2p_Khashmir/ktable.py:385-408 | Of nodes last seen at the same time those of the first bucket come first in the merge, each in its own order. |
| KBuckets.KBucket.Split | apt_p2p_Khashmir/ktable.py:365-383 | split cuts the bucket in place to its lower half and returns the upper half. |
| KBuckets.KBucket.Merge | apt_p2p_Khashmir/ktable.py:385-408 | merge takes over the other bucket's range and nodes exactly if all fit. |
| KBuckets.KBucket.JustSeen | apt_p2p_Khashmir/ktable.py:347-363 | justSeen stamps the node object, moves it to the end, and changes no other node. |
| KTable.KTable.constructor | apt_p2p_Khashmir/ktable.py:30-42 | A new table is valid and is one empty bucket over all IDs. |
| KTable.KTable.BucketIndexForInt | apt_p2p_Khashmir/ktable.py:44-46 | The bisection loop finds the index that the specification gives. |
| KTable.KTable.FindNodes | apt_p2p_Khashmir/ktable.py:66-96 | The search over the bucket objects answers what the specification does. |
| KTable.KTable.MergeBucket | apt_p2p_Khashmir/ktable.py:110-132 | The merges in place compute the cascade of the specification. |
| KTable.KTable.InsertNode | apt_p2p_Khashmir/ktable.py:164-232 | insertNode in place keeps the table valid, changes it as the specification says, and answers the same; a node to be checked is the object that is first in its bucket. |
| KTable.KTable.ReplaceStaleNode | apt_p2p_Khashmir/ktable.py:134-162 | replaceStaleNode in place computes the table of the specification. |
| KTable.KTable.InvalidateNode | apt_p2p_Khashmir/ktable.py:257-262 | invalidateNode keeps the table valid and drops the node. |
| KTable.KTable.JustSeenNode | apt_p2p_Khashmir/ktable.py:234-255 | justSeenNode keeps the table valid, and computes the table and the answer of the specification. |
| KTable.KTable.NodeFailed | apt_p2p_Khashmir/ktable.py:264-283 | nodeFailed keeps the table valid, and computes the table and the answer of the specification. |
| ActionLists.NearestUnique | apt_p2p_Khashmir/actions.py:240-247 | A set of nodes has one order by distance, so re-sorting cannot depend on the order of a dictionary. |
| ActionLists.FrontIsClosest | apt_p2p_Khashmir/actions.py:260-269 | The first K nodes of the sorted list that have not failed are the min(K, n) closest of all that have not. |
| Actions.Action.SortNodes | apt_p2p_Khashmir/actions.py:240-247 | After sortNodes the list holds exactly the nodes found, nearest first, although it sorts only when the numbers differ. |
| Actions.Action.GetNodesToProcess | apt_p2p_Khashmir/actions.py:250-285 | A search goes on with the closest nodes that have not failed and gives up exactly the requests to others; it is over exactly if K of them have answered. |
| Actions.Action.Schedule | apt_p2p_Khashmir/actions.py:120-190 | After schedule the action is finished, with one call of the callback, or has as much under way as it may have; the nodes nearest to the target were asked first, and all that is kept of its nodes is in order. |
| Actions.Action.GotResponse | apt_p2p_Khashmir/actions.py:192-213 | An answer in time settles its node, as answered or, if it raises an exception, as failed. A node search keeps the token of the answer, a value search its number of values, other actions nothing; all else that is known of nodes stays. The results and the batch are those of the answer; a late one changes nothing. |
| Actions.FoundAfterIs | apt_p2p_Khashmir/actions.py:226-238 | An answer adds exactly the nodes it names before the first entry that cannot be used; of its sender a node search learns the token and a value search the number of values; no other node is touched. |
| Actions.UsefulIs | apt_p2p_Khashmir/actions.py:226-238 | An answer raises no exception exactly if its nodes, or its values, are all there and can all be used; that of a store never does. |
| Actions.Action.ActionFailed | apt_p2p_Khashmir/actions.py:215-224 | A failure adds its node to those that failed, also after the end, and leaves the nodes found, the results and the answers as they are. |
| Actions.Action.HandleGotNodes | apt_p2p_Khashmir/actions.py:226-238 | The loop finds the nodes before the first entry that cannot be used, new ones without token and values, and known ones stay as they are. |
| Actions.Action.NeverStalls | apt_p2p_Khashmir/actions.py:186-190 | When all requests have been answered or have failed, the action is finished. |
| Actions.Action.KeepsBusy | apt_p2p_Khashmir/actions.py:138-182 | Until it is finished an action has CONCURRENT_REQS requests under way, or as many as are expected to be enough, or nobody left to ask; a retrieval expects of each node the values that it has, a store one result, a search none. |
| Actions.Action.EndsWhen | apt_p2p_Khashmir/actions.py:129-136 | A store or a retrieval is finished only with enough results, or, if answers of as many nodes as replicas are kept may do, with as many answers, or when every node that could help has been asked and has answered or failed; it goes on only as long as it has fewer of both. |
| Actions.Action.SearchGoesOn | apt_p2p_Khashmir/actions.py:250-285 | A search goes on only as long as a request is under way to one of the K closest nodes that have not failed, and so is finished when these have all answered. |
| Actions.Action.NearestAsked | apt_p2p_Khashmir/actions.py:143-182 | A store or a retrieval asks no node as long as it has not looked at one that is nearer. |
| Actions.Action.AskedOnce | apt_p2p_Khashmir/actions.py:144-147 | No node is asked twice, and only nodes that were found are asked. |
| ActionRuns.Run | apt_p2p_Khashmir/actions.py:112-224 | From any first nodes, under any order of answers and failures that name only nodes of a finite set, an action is finished after at most as many resolutions as the set has nodes, and waits for a pending request until then. |
| ActionRuns.KnownAt | apt_p2p_Khashmir/actions.py:307-347 | After any run a value search has the number of values of a node from its last answer, and a node search its token, or else what was known at first. |
| ActionRuns.ValuesFound | apt_p2p_Khashmir/actions.py:331-347 | A finished value search has answered exactly the nodes found whose last answer named a positive number, or that never answered and were known to have values, nearest first. |
| ActionRuns.ValuesCome | apt_p2p_Khashmir/actions.py:372-384 | Whenever a retrieval ends, it has delivered exactly the values, neither empty nor zero, of which the first answer that brings them can be used as a whole. |
| ActionRuns.ValueLost | apt_p2p_Khashmir/actions.py:372-384 | A value that comes first in an answer that breaks off is not delivered when another node answers it. |
| ActionRuns.StoredAt | apt_p2p_Khashmir/actions.py:415-422 | The results of a store are those of exactly the nodes that have answered. |
| Actions.Action.SearchEnds | apt_p2p_Khashmir/actions.py:318-328 | A finished node search has called its callback once, with the min(K, n) closest of all nodes found that had not failed; each was asked and has answered, unless it was given up as too slow. |
| Actions.Action.StoresBounded | apt_p2p_Khashmir/actions.py:138-182 | Stores made and under way together are never more than wanted, and those under way never more than CONCURRENT_REQS. |
| Actions.Action.StoreEnds | apt_p2p_Khashmir/actions.py:404-422 | A store ends with exactly the number of stores wanted, or when every node with a token has been asked and has answered or failed. |
| Actions.NewValuesAre | apt_p2p_Khashmir/actions.py:372-384 | A batch is exactly the values of an answer, strings or integers, that were not seen before and are neither empty nor zero, each once. |
| Actions.Action.ProcessValues | apt_p2p_Khashmir/actions.py:372-384 | An answer with values adds one batch if there is a new one, and keeps all batches disjoint and none empty. |
| Actions.Action.ValuesDelivered | apt_p2p_Khashmir/actions.py:350-389 | Batches are disjoint and not empty, but for one empty batch, which comes last and exactly when the retrieval is finished. |
| Dht.DHT.GetValue | apt_p2p_Khashmir/DHT.py:245-258 | A caller gets an error before the configuration is loaded, another before joining, and else joins the search for its key; one is started exactly if there was none. |
| Dht.DHT.Gather | apt_p2p_Khashmir/DHT.py:260-264 | A batch is added to what is kept for the key, unless one of its values cannot be decoded, as a number cannot. |
| Dht.DHT.Complete | apt_p2p_Khashmir/DHT.py:265-274 | At the end every caller waiting for the key, and nobody else, is called once, with the values of all batches that could be decoded, in order. |
| Dht.NoneLost | apt_p2p_Khashmir/DHT.py:263-264 | No value of batches that can be decoded is lost. |
| Dht.StoredValuesDecode | apt_p2p_Khashmir/DHT.py:263-264 | Batches of values that were stored in their encoding can be decoded, to the values, whatever else int() reads. |
| Dht.NormKeyNormal | apt_p2p_Khashmir/DHT.py:235-243 | Normalised keys have the length of a hash, exactly keys of this length are left alone, and two keys meet exactly if they agree up to null bytes within it. |
| Retrieval.Come | apt_p2p_Khashmir/DHT.py:245-258 | A caller who comes during a retrieval waits with the others of its key, and the retrieval goes on as before. |
| Retrieval.Deliver | apt_p2p_Khashmir/DHT.py:260-274 | The callbacks of a finished retrieval give every caller of its key exactly the decoded values of the batches of the action, in order. |
| Bencode.ValueAt | apt_p2p_Khashmir/bencode.py:32-156 | Decoding the encoding of a value, wherever it stands and whatever follows, gives the value and stops exactly at its end. |
| Bencode.RoundTrip | apt_p2p_Khashmir/bencode.py:175-195 | bdecode undoes bencode for every nested value, tuples as lists and booleans as integers; bytes after the encoding are refused unless the caller is sloppy. |
| Bencode.PrefixFree | apt_p2p_Khashmir/bencode.py:360-375 | No encoding is a prefix of another, and equal encodings stand for the same value. |
| Bencode.WrittenOut | apt_p2p_Khashmir/bencode.py:442-472 | Integers, strings and booleans have the encodings that the format gives them. |
| Bencode.ListsWrittenOut | apt_p2p_Khashmir/bencode.py:453-456 | So have lists and tuples. |
| Bencode.DictionaryWrittenOut | apt_p2p_Khashmir/bencode.py:458-463 | So has a dictionary, its keys in order. |
| BencodeRuns.ValueFollows | apt_p2p_Khashmir/bencode.py:32-156 | The decoder as it runs returns, and what the plain reading says, unless a number is read that is not written plainly. |
| BencodeRuns.Canonical | apt_p2p_Khashmir/bencode.py:175-195 | Of data without such a number bdecode reads a value from exactly one string, its encoding: leading zeros, -0, unsorted keys and cut strings are refused at any depth. |
| BencodeRuns.EncodingIff | apt_p2p_Khashmir/bencode.py:175-195 | What bdecode accepts is the encoding of what it returns exactly if no such number is read. |
| BencodeRuns.OddNumber | apt_p2p_Khashmir/bencode.py:71-79 | Such a number is one that int() reads, and a length with a minus sign if int() reads decimal numbers only. |
| BencodeRuns.OddAccepted | apt_p2p_Khashmir/bencode.py:148-154 | "d-2:abe" is accepted, and is not the encoding of what is returned. |
| BencodeRuns.OddEndless | apt_p2p_Khashmir/bencode.py:148-154 | The reading of "d-4:" has not returned after any number of steps. |
| BencodeRuns.Undone | apt_p2p_Khashmir/bencode.py:175-195 | Whatever else int() reads, bdecode gives back what was encoded. |
| BencodeRuns.SloppyAccepts | apt_p2p_Khashmir/bencode.py:188-195 | Of data without odd numbers a sloppy bdecode accepts besides exactly: encodings with anything behind them, and a top-level string cut short. |
| Bencode.DecodeList | apt_p2p_Khashmir/bencode.py:129-133 | The loop of decode_list reads what the plain reading of a list reads, as far as numbers are written plainly. |
| Bencode.DecodeDict | apt_p2p_Khashmir/bencode.py:148-156 | The loop of decode_dict, which compares each key with the last one, reads what the plain reading reads, as far as numbers are written plainly. |
| Bencode.EncodeText | apt_p2p_Khashmir/bencode.py:370-375 | The pieces that the encoders append join to the encoding, which decodes to the value. |
| Bencode.EncodeDict | apt_p2p_Khashmir/bencode.py:339-345 | The loop over the sorted entries appends the encoding of the dictionary. |
| Text.SortedUnique | apt_p2p_Khashmir/bencode.py:340-341 | The keys of a dictionary have one sorted order. |
| Text.IntTextWritten | apt_p2p_Khashmir/bencode.py:51-55 | A decimal number without leading zeros and not -0 is the text of the integer it stands for. |
| Fitting.Fit | apt_p2p_Khashmir/krpc.py:486-493 | From any usable estimate the two loops end at the longest prefix of the values that fits. |
| Fitting.EstimateIsUsable | apt_p2p_Khashmir/krpc.py:481-484 | The exact estimate lies between -1 and one less than all values, and is negative exactly if a single byte is left. |
| Fitting.RoundedEstimateIsUsable | apt_p2p_Khashmir/krpc.py:481-484 | So does an estimate from a quotient whose relative error is at most one in four times the length, as floating point computes it; it is negative only if at most two bytes are left. |
| Fitting.RoomLeftIff | apt_p2p_Khashmir/krpc.py:488-499 | The longest prefix that fits is not empty and leaves a byte exactly if the first value fits and no prefix fills the room. |
| Krpc.PrefixIsEncoded | apt_p2p_Khashmir/krpc.py:487-493 | The length that the loops keep is that of the encoded list of the first values. |
| Krpc.SendResponse | apt_p2p_Khashmir/krpc.py:447-517 | What is sent is the encoding of the whole answer if that is not longer than 1472 bytes; else of the answer with the most values that fit, or of an error, whatever the estimate. |
| Krpc.ReplyIs | apt_p2p_Khashmir/krpc.py:466-517 | An answer that is not too long is sent as it is; error 206 with its length is sent for one that is too long and has no values, and error 201 for a list with an item called values. |
| Krpc.MostAreSent | apt_p2p_Khashmir/krpc.py:472-501 | Of an answer with values that is too long exactly the most values are sent with which it is not, or error 201 if that is none or leaves no byte of the datagram. |
| Krpc.EveryAnswerFits | apt_p2p_Khashmir/krpc.py:469-517 | No datagram sent for a request is longer than 1472 bytes, errors included. |
| Krpc.ErrorLength | apt_p2p_Khashmir/krpc.py:503-513 | The size of an error packet depends on the length of its text alone. |
| Krpc.ValuesSentIff | apt_p2p_Khashmir/krpc.py:472-501 | Of an answer that is too long values are sent exactly if the first one fits and no number of them fills the datagram to the last byte. |
| Krpc.BrimfulRefused | apt_p2p_Khashmir/krpc.py:494-513 | Of a value of 1418 bytes and an empty one the first alone makes a datagram of exactly 1472 bytes, and an error is sent. |
| Krpc.RoomIsPacket | apt_p2p_Khashmir/krpc.py:474-499 | An answer with any number of its values is as much too long as these values are for their room. |
| Krpc.ReplyUnderstood | apt_p2p_Khashmir/krpc.py:338-435 | The node that asked receives, for its transaction number, the response if it fits in a datagram; of one that does not, all other entries and the most values that fit, or error 201 if it has values and 206 if it has none. |
| Krpc.RequestReceived | apt_p2p_Khashmir/krpc.py:338-411 | A request with a proper transaction number is received with its name and its arguments. |
| Krpc.ReceivedIs | apt_p2p_Khashmir/krpc.py:338-369 | Whatever is not dropped could be decoded and has a transaction number of 20 bytes. |
| Transactions.Krpc.SendRequest | apt_p2p_Khashmir/krpc.py:519-546 | A new request becomes pending under its number, unless the connection is stopped. |
| Transactions.Krpc.Received | apt_p2p_Khashmir/krpc.py:412-445 | A response, an error or an unknown message ends the request with its number if it is pending, and no other. |
| Transactions.Krpc.FireFinalTimeout | apt_p2p_Khashmir/krpc.py:271-277 | The final timeout ends a pending request, however late it is called. |
| Transactions.Krpc.FireNextTimeout | apt_p2p_Khashmir/krpc.py:259-269 | The next timeout, when it is due or later, queues one more send as long as the time is not over and the connection not stopped; if the time is over it ends the request. |
| Transactions.Krpc.Stop | apt_p2p_Khashmir/krpc.py:575-581 | Stopping ends every pending request with an error, and none that has ended. |
| Transactions.Krpc.Advance | apt_p2p_Khashmir/krpc.py:259-269 | Time passes by any amount, whatever is due; a run is punctual exactly as long as nothing was due before the time that time passed to. |
| Transactions.Krpc.EndsAtMostOnce | apt_p2p_Khashmir/krpc.py:412-445 | In every reachable state a request has ended at most once, and its number is pending exactly until then, however late the reactor is. |
| Transactions.Krpc.NeverTooSoon | apt_p2p_Khashmir/krpc.py:250-269 | However late the reactor is, the k-th send is not before d * (2^k - 1), no send is queued after T, and no request times out before T. |
| Transactions.Krpc.AtMostThree | apt_p2p_Khashmir/krpc.py:244-248 | However late the reactor is, with a delay of 2 and a timeout of 9 no request is sent more than three times. |
| Transactions.Krpc.SentAtItsTimes | apt_p2p_Khashmir/krpc.py:244-269 | In a punctual run every send is at d * (2^k - 1) and not after T; a request that timed out was sent at all such times before T. |
| Transactions.Krpc.DefaultTimes | apt_p2p_Khashmir/krpc.py:244-248 | In a punctual run, with a delay of 2 and a timeout of 9, a request without an answer is sent after 0, 2 and 6 seconds. |
| Transactions.KrpcRequest.Send | apt_p2p_Khashmir/krpc.py:250-257 | There is never a pending request when a queued send is made. |
| Policies.WindowBound | apt_p2p/policies.py:241-253 | Over any part of a run with n refills at most (n + 1) times the limit, and less than a chunk more, is written. |
| Policies.WindowUsed | apt_p2p/policies.py:284-307 | Over a part of a run with n refills, none of which came while something could be written, at least n times the limit, less than a chunk excepted, is written if nothing can be written at its end. |
| Policies.ThrottlingFactory.RunBound | apt_p2p/policies.py:284-307 | In every reachable state this holds of the whole history, and the bytes available are above minus a chunk and at most the limit. |
| Policies.ThrottlingFactory.RunUsed | apt_p2p/policies.py:284-307 | In every reachable state this holds of the whole history as well. |
| Policies.ThrottlingFactory.CheckWriteBandwidth | apt_p2p/policies.py:284-307 | The refill adds the limit to what was overdrawn, and what is not left afterwards has been written, to the byte; the turns end with an empty queue or an empty bucket; nothing submitted is lost or reordered; a connection that leaves the queue is drained, and stuck exactly if chunks are left; the loops terminate. |
| Policies.ThrottlingFactory.ServeFirst | apt_p2p/policies.py:293-305 | The first connection writes less than CHUNK_SIZE and a chunk, and goes to the end of the queue unless it is drained. |
| Policies.ThrottlingFactory.Turn | apt_p2p/policies.py:294-301 | A turn ends when CHUNK_SIZE is reached, the bucket is empty or no byte is left. |
| Policies.ThrottlingFactory.NeverStuck | apt_p2p/policies.py:178-204 | A connection never given an empty chunk is throttled exactly while it buffers and exactly while it is queued; sent and buffered bytes are those submitted. |
| Policies.LeftBehindIff | apt_p2p/policies.py:196-204 | A drained connection leaves chunks behind exactly if there were several and the last is empty. |
| Policies.StuckConnection | apt_p2p/policies.py:284-307 | A run: a connection that writes a byte too many and then nothing is, after its turn, throttled and out of the queue. |
| Policies.ThrottlingProtocol.Write | apt_p2p/policies.py:124-142 | write sends or buffers its data behind what is buffered, and queues the connection once; nobody waits while something may be written. |
| Policies.ThrottlingProtocol.WriteSequence | apt_p2p/policies.py:144-156 | writeSequence sends chunks exactly as long as the bucket is not empty and buffers the others, in order. |
| Policies.ThrottlingProtocol.UnthrottleWrites | apt_p2p/policies.py:187-204 | The first chunk of the buffer is written; the assertions hold. |
| Hash.PiecesCover | apt_p2p/Hash.py:124-151 | The pieces make up the file; all but the last are full, and the last of a file that is not empty is not empty. |
| Hash.PiecesAre | apt_p2p/Hash.py:124-151 | There is the hash of each piece, in order, and none exactly if there is one piece and the hash of the file serves for it. |
| Hash.HashObject.Update | apt_p2p/Hash.py:116-154 | However the data is cut into chunks, the state after update is that of all the data so far; data after digest is refused. |
| Hash.HashObject.Digest | apt_p2p/Hash.py:182-193 | digest answers the hash of all data and completes the hashes of the pieces; a second call changes nothing. |
| Hash.HashObject.PieceDigests | apt_p2p/Hash.py:177-180 | The piece hashes are those of the consecutive pieces, and none if the file's own SHA1 serves for its one piece. |
| Hash.HashObject.Verify | apt_p2p/Hash.py:201-206 | verify says whether hash and size of the data are those expected. |
| Hash.HashObject.HashFile | apt_p2p/Hash.py:165-174 | A file read in chunks of any sizes is hashed as it is in one. |
| Streams.WriteContinues | apt_p2p/Streams.py:253-257 | Data written where the last data ended continues it in the file. |
| Streams.GapIsNull | apt_p2p/Streams.py:253-257 | Data written behind the end of the file leaves null bytes in between. |
| Streams.StreamToFile.GotData | apt_p2p/Streams.py:244-257 | Data is cut to the range of the piece, all of it taken unless the range is full, and what was hashed is what stands in the file. |
| Streams.GrowingFileStream.Read | apt_p2p/Streams.py:41-73 | A read gets the next bytes of the file, a chunk or all that is available, or, if there are none, the end or a promise. |
| Streams.GrowingFileStream.UpdateAvailable | apt_p2p/Streams.py:84-108 | More becomes available unless the stream is finished, and a pending read gets the next bytes, as many as a read; an exception is raised exactly if the file was closed and there is something for the read. |
| Streams.GrowingFileStream.AllAvailable | apt_p2p/Streams.py:110-148 | A pending read gets the next bytes, or the end exactly if there are none, so that none stays pending, unless an exception is raised, exactly if the file was closed and there is something for the read. |
| Streams.GrowingFileStream.Close | apt_p2p/Streams.py:78-81 | The reader closes the file at any time, also while a read is pending, and what it has received stays the beginning of the file. |
| Pieces.OthersStand | apt_p2p/PeerManager.py:426-431 | What is written for one piece leaves what was written for the others. |
| Pieces.InOrderIff | apt_p2p/PeerManager.py:426-431 | A file in which the accepted pieces stand is these pieces in order exactly if all before the last that is not empty are full and the file is not longer. |
| PeerManager.RoundIs | apt_p2p/PeerManager.py:344-366 | The loop of getPieces asks for exactly the missing pieces from the next one on, in order, each of the next site from the end of the list, until four requests wait, no site is left, or no piece. |
| PeerManager.NextRoundIs | apt_p2p/PeerManager.py:338-366 | The sites are put in the order of their rank, none lost, and this round is made from the highest rank down. |
| PeerManager.FileDownload.AskPeers | apt_p2p/PeerManager.py:344-366 | The loop over the fields computes this round, and books every request. |
| PeerManager.FileDownload.GetPieces | apt_p2p/PeerManager.py:338-384 | The next round is made by rank, and the download ends exactly if it is aborted, complete, or has no site left for a missing piece; else it is waiting for an answer or a body. An aborted one ends also if telling the reader raises an exception. |
| PeerManager.FileDownload.Start | apt_p2p/PeerManager.py:318-322 | At the start the mirror is used if there are few peers, and the first round is made. |
| PeerManager.FileDownload.GetPiece | apt_p2p/PeerManager.py:386-442 | 206 starts a writer of the part of the file that is the piece, and so does 200, for the whole file, if it has one piece only; 404, any other code, and 200 for several pieces start none. What this means for the piece and the site is in AnswerIs; the next round follows; the file and the complete pieces stay as they are. |
| PeerManager.AnswerIs | apt_p2p/PeerManager.py:386-442 | With a body the piece stays taken and the site can be asked again. After 404 the piece is missing again and the site is gone; after any other answer the piece is missing again and the site has an error more, with which it can be asked again unless it is the third. If the site is gone the mirror is added, once, if few peers are left. |
| PeerManager.ErrorIs | apt_p2p/PeerManager.py:444-483 | A request without an answer counts like an answer of a wrong code; a body that broke off or has the wrong hash makes the piece missing and counts an error, and one with the right hash makes it complete and forgets the errors. |
| PeerManager.FileDownload.GetError | apt_p2p/PeerManager.py:444-455 | A failed request makes its piece missing again and counts an error of its site, which is dropped at the third; the next round follows. |
| PeerManager.FileDownload.Data | apt_p2p/Streams.py:244-257 | The data is written and hashed as far as it belongs to the piece, unless the file is closed; the complete pieces at the start of the file stay. |
| PeerManager.FileDownload.GotPiece | apt_p2p/PeerManager.py:457-475 | A piece is complete, with the data of its writer, exactly if its hash matches or none is known, and missing again otherwise; an exception is raised exactly if the reader has closed the file with a read pending that there is something for; the next round follows, or the download ends, or the exception came before that. |
| PeerManager.FileDownload.GotError | apt_p2p/PeerManager.py:477-483 | A body that broke off is not accepted, and its piece is missing again; the next round follows. |
| PeerManager.FileDownload.OneAttempt | apt_p2p/PeerManager.py:347-366 | At most one attempt at a piece is under way, and none at a complete one. |
| PeerManager.FileDownload.ReaderFollows | apt_p2p/PeerManager.py:470-473 | What the reader has received is how the file starts, and lies within complete pieces, each accepted with a matching hash if one is known. |
| PeerManager.FileDownload.ReaderEnds | apt_p2p/PeerManager.py:368-384 | A reader that was told of the end, and has not closed the file, has received PIECE_SIZE bytes for each piece it was told of, or the whole file; of a complete download it has the whole file exactly if that is not longer than PIECE_SIZE bytes for each piece. |
| PeerManager.FileDownload.FileIsAcceptedIff | apt_p2p/PeerManager.py:457-475 | When all pieces are complete, the file is the accepted data in order exactly if every accepted piece before the last that is not empty is full and no attempt has written beyond the accepted data. |
| PeerManager.StaleTail | apt_p2p/PeerManager.py:457-475 | A run of one rejected and one accepted attempt, which is shorter, after which the file is not the accepted data. |
| PeerManager.LostReader | apt_p2p/PeerManager.py:468-475 | A run: the reader closes the file while it waits for the only piece, which then completes; the exception leaves nothing under way and nothing over. |
| PeerManager.CutOff | apt_p2p/PeerManager.py:468-473 | A run of one attempt with a file longer than a piece, which is accepted as a whole, and of which the reader is told of one piece only. |
| PeerRuns.FetchAll | apt_p2p/PeerManager.py:304-475 | A run: a single peer that has a file of any number of pieces is asked for each of them once, in order; the download is then complete, and the file is what the peer has. |

## Left out

- Clocks, timers and randomness are parameters; bucket access times (`touch`, `lastAccessed`), hosts and ports of nodes, statistics and logging are not modelled.
- Khash.Stringify: numbers below zero, on which the original raises an error, are not modelled; nor is newID with a suffix.
- Node IDs of all zero bytes, which stand for an unknown ID while joining, are excluded by the original's assertions in the table; an answer is taken to carry the ID of the node asked, as checkSender in `apt_p2p_Khashmir/knode.py` makes sure for all other IDs.
- KTable.KTable.FindNodes: the IndexError for a number of 2^160 or more, which no ID has, is a precondition.
- BencodeRuns.RunValue: what `int` and `long` of Python read besides decimal numbers (spaces, a plus sign, a final L) is a parameter, about which nothing is presumed. The fuel only cuts a run short: data is accepted if some fuel suffices.
- Bencode.DecodeValue: unicode and datetime values ('u', 't') and stored encodings (Bencached) are not modelled; nor is Python's limit on the depth of recursion, nor a value of a type without an encoder.
- Krpc.SendResponse: the estimate is a function that is only assumed to be usable, which `Fitting.RoundedEstimator` proves of every quotient near enough, as that of double precision is; the texts of exceptions are a parameter; values are a list, as every handler returns.
- Transactions.Krpc.SendRequest: transaction numbers, which are 160 random bits, are taken never to repeat.
- Transactions.Krpc.SentAtItsTimes: the exact times are those of a run in which no call was made late; for all runs there is NeverTooSoon.
- Transactions.Krpc.DefaultTimes: as for SentAtItsTimes; for all runs there is AtMostThree.
- Transactions.Krpc.FireSend: a send that is queued when the answer comes is made all the same, as in the original; what is proved once is the end of a request, not its transmission.
- ActionRuns.Run: that every pending request is answered or fails is left to the timeouts of the requests.
- Callbacks into the callers (Deferreds) are taken not to call back into the object that makes them.
- Actions.Action.GenerateArgs: a number of results of 0, for which the original's own assertion fails, is excluded when an action is made; a node without the method to call does not occur.
- Actions.Action.Note: numbers of values and tokens are taken to be integers and strings.
- Policies: producers, read limits, the callLater chain of refills and lost connections are not modelled; a connection that is lost while it is queued stays in the queue of the original.
- Hash: the hash functions are parameters; which of them is chosen from package records and the check for old versions of Python are not modelled.
- Streams: gzip and bz2 decompression, and the removal of the file, are not modelled.
- PeerManager: the retrieval of piece hashes before the download, HTTP, and the rating of peers by their speed are not modelled; the order of the peers is an arbitrary rank. That a download ends is not claimed: a site whose pieces never match is asked again for ever.
- PeerManager.FileDownload.GotPiece: an object of the model for each attempt stands for the chain of callbacks of the original, so that an attempt that is never answered stays open.
- apt_p2p's cache, mirror and package list handling, both databases, and the HTTP server are not part of this model.
