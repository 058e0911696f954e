# Verified model of the CivicLight miner core

The miner turns a pool's `mining.notify` into work, lets every thread scan its own nonce slice two headers at a
time, and hands the shares it finds through a queue to one submission thread. This project models that path and the
codecs around it, and proves that the fast forms equal the simple ones and that the protocol steps keep their promises.

Machine words are integers with written-out ranges (`Bytes.U32`, `Bytes.U64`); every wrap-around appears as a `%`. Bit
tricks are done on bit-vectors. Difficulties, targets and rates are exact reals. The SHA-256 compression function and
yespower are parameters; the two-lane transform and `yespower2` are two independent calls of them, because their code is
not shown. Code that updates state in place is a method over arrays or class fields, proved against a specification
function; the theorems are lemmas about those functions.

| module | what it models |
|---|---|
| `Wrappers` | the optional value |
| `Bytes` | bytes, words, `memcpy`, `memset`, byte order (`util.h`) |
| `FipsPadding` | FIPS 180-4 section 5.1.1 on bits, and the fold over blocks; looks at no code |
| `PaddingByte` | the byte with the extra bits and the first padding bit, in the source's mask and or |
| `MerkleDamgard` | the generic streaming hash engine |
| `Sha1` | the unrolled SHA-1 compression, against FIPS 180-4 section 6.1.2 |
| `Sha256` | the streaming SHA-256 wrapper |
| `Civiclight` | the proof-of-work hash, one lane and two lanes |
| `Header`, `Scan` | the 80-byte header and the nonce scan |
| `Work`, `Slices` | a work's fields, nonce slices, and one worker's turns |
| `Versions` | which version of the hash a header gets, by the time of its job |
| `Extranonce`, `Stratum` | notify, coinbase, Merkle fold, header, submit request, and the pool that checks it |
| `MerkleTree` | the transaction tree of a block, defined on its own, and its branches; looks at no code |
| `Subscription` | set_extranonce between notifies and generations |
| `Mining` | the chain from a notify to shares |
| `Protocol` | miners, submission thread and stratum thread as interleaved steps |
| `Reauthentication` | exactly when shares found before a reauthentication can still be sent |
| `Sessions` | exactly which shares of a new session a late raise of the epoch costs |
| `Queue` | the circular doubly linked queue |
| `Framer` | the newline framer over a growable buffer |
| `Hex`, `JsonNumbers` | the word-wide hex decoder and the JSON number rewriter |
| `JsonGrammar` | JSON text by the grammar of RFC 8259, against that rewriter |
| `Target`, `Nbits`, `RateRing` | difficulty, compact targets, hash rates |

What the proofs say about the code where it is not what one might expect:

- `hex2bin` accepts exactly the strings of hex digits, and those with a byte from 0xBA up whose eight-byte chunks are all
  accepted, carries included, before a rest of digits (`Hex.AcceptedIsExactUnlessFooled`). Such a string can arrive as
  valid UTF-8: U+00BA four times (`Hex.HighBytesPass`).
- `stratum_reauthenticate` resumes submissions before its caller raises the epoch. In between the whole queue of old
  shares can go out (`Reauthentication.ResumedBeforeRaised`, two of them in `Reauthentication.TwoOldSharesSent`), and
  there is no bound on their number (`Reauthentication.NotRaisedNoBound`). With miners at work, at most one old share
  ever follows exactly when the epoch has risen before the suspension ends
  (`Reauthentication.AtMostOneExactlyWhenRaised`), and with nothing past the suspension test, none does exactly then
  (`Reauthentication.NoneExactlyWhenRaised`). "Old" means work of the epoch at the suspension, or an earlier one.
- Because the epoch is raised only after the new session is there, a share found on work generated in between belongs
  to the current session and is never sent (`Sessions.FreshShareDropped`); raised first, it could be
  (`Sessions.FreshShareKept`). A queued share can still be sent exactly when the epoch was not raised after its work was
  generated (`Sessions.GenerationDecides`).
- `mining.set_extranonce` changes the extranonce in force and leaves the coinbase as it was laid out. A generation before
  the next notify then publishes work that the pool rebuilds, for extranonce1 values of one length, exactly when nothing
  has changed (`Subscription.ChangedBeforeGeneration`, `Subscription.RebuildsExactly`); over every run, that is when the
  extranonce in force is the one of the last notify, and always when a notify follows every change
  (`Subscription.InStepExactly`).
- The token check in `workio_submit_work` never drops a share that the work-epoch check would let through
  (`Protocol.TokenCheckIsImplied`).
- One nonce is left out between two batches of the same work: a pass stops before `max_nonce - 1` and the next one
  increments first (the `!taken` clauses of `Slices.Worker.Pass`).
- Nothing is hashed twice unless a worker takes work whose first 19 words it has taken before
  (`Slices.TwiceOnlyWhenRetaken`). The code does that: after a stratum reset the shared job id is NULL (soj.c:1700-1703),
  every pass takes the work again, and two such passes hash the thread's first nonce twice as soon as both get to it
  (`Slices.TurnsAfterReset`). When every taking got to its first nonce, retaking is the exact condition
  (`Slices.TwiceExactlyWhenRetaken`). A taking that is cut off before goes on one nonce further, and then words may be
  taken twice and nothing hashed twice (`Slices.CutOffTurns`).
- `scanhash_civiclight` computes `n + 1` in 32 bits. Unless it is restarted, its guard wraps exactly when the first nonce
  is 2^32 - 1 and the last is not 0, or the last is 2^32 - 1 and the first is odd (`Scan.WrapsExactlyOtherwise`); the
  turns of a worker never get there (`Slices.GuardSafeHere`).
- The JSON rewriter does not look at the sign. After a minus sign a terminated integer that fits in 64 bits is rewritten
  exactly when it is -9223372036854775808 (`JsonNumbers.OnlyTheMinimumIsLost`, `JsonNumbers.MinimumIsRewritten`). A number
  at the very end of the text is never rewritten. The test for more than four characters never decides anything
  (`JsonNumbers.ShortNumbersFit`).
- The shift form of the difficulty yields 0 outside exponents 16 to 41 and infinity for a zero mantissa inside;
  `Nbits.FormsAgreeExactly` states when both forms agree.
- A 92-slot ring answers like the whole history exactly for windows under 930 s (`RateRing.AgreesExactlyBelow930`).

## Model

| member | source | states |
|---|---|---|
| PaddingByte.TopIs | algo/sha/md_helper.c:258-263 | on a byte, masking below bit v and setting it keeps the bits above as a number |
| PaddingByte.PadByteIs | algo/sha/md_helper.c:255-265 | the 32-bit mask and or of the source, for any `ub` and 0 to 7 bits, give the top bits of its low byte, a one bit and zeros, as a number |
| PaddingByte.PadByteBits | algo/sha/md_helper.c:255-265 | the pad byte packs the 0 to 7 extra bits, a one bit and zeros |
| MerkleDamgard.PaddingIsFips | algo/sha/md_helper.c:241-316 | for every message and 0 to 7 extra bits, message, pad byte, zeros and length field are the section 5.1.1 padding of the bit string |
| MerkleDamgard.LengthFieldWraps | algo/sha/md_helper.c:298-301 | the 64-bit length field is the bit length modulo 2^64, even after the byte counter has wrapped |
| MerkleDamgard.LastBlocks | algo/sha/md_helper.c:266-317 | from the buffered tail alone, the one or two last blocks finish the fold over the padded message |
| MerkleDamgard.Context.Short | algo/sha/md_helper.c:124-168 | buffered path: the context holds exactly the old message followed by the data |
| MerkleDamgard.Context.Direct | algo/sha/md_helper.c:206-232 | direct-block path: the same promise, blocks read straight from the data |
| MerkleDamgard.Context.Update | algo/sha/md_helper.c:171-233 | either path, any alignment, any length: the message grows by the data |
| MerkleDamgard.Context.PadAndCompress | algo/sha/md_helper.c:250-317 | closing leaves the FIPS digest of message plus extra bits in the chaining value |
| MerkleDamgard.Context.AddBitsAndClose | algo/sha/md_helper.c:241-336 | the output is the first rnum digest words, big-endian, and nothing behind them is written |
| MerkleDamgard.HashPieces | algo/sha/md_helper.c:124-341 | any way of cutting a message into update calls, on either path, gives the digest of the whole message |
| Sha1.RotlMovesBits | algo/sha/sha1.c:43 | a rotation by 1, 5 or 30 takes bit i of a word to bit i + n modulo 32 |
| Sha1.KtIsRoot | algo/sha/sha1.c:46-49 | the round constants are 2^30 times the square roots of 2, 3, 5 and 10, rounded down |
| Sha1.InitialValueBytes | algo/sha/sha1.c:51-52 | the initial value, byte by byte |
| Sha1.Xor4IsParity | algo/sha/sha1.c:124-126 | the four-term exclusive or of the schedule is, place by place, the parity of four bits |
| Sha1.BlockWordsAre | algo/sha/sha1.c:336-341 | a block's words are its bytes in order, most significant first |
| Sha1.FIsCh | algo/sha/sha1.c:38 | the F macro is Ch of FIPS 180-4 |
| Sha1.HIsMaj | algo/sha/sha1.c:40 | the H macro is Maj of FIPS 180-4 |
| Sha1.WordExpanded | algo/sha/sha1.c:124-315 | overwriting a circular schedule word yields the 80-word schedule's word t |
| Sha1.NextVars | algo/sha/sha1.c:76-315 | rotating the register names is one round of the definition |
| Sha1.Rounds | algo/sha/sha1.c:63-315 | the eighty written-out rounds compute the working variables of section 6.1.2, for every block and chaining value |
| Sha1.RoundBody | algo/sha/sha1.c:316-322 | the registers are added into r, giving the compression function |
| Sha1.RoundBytes | algo/sha/sha1.c:336-341 | the same on bytes: decode big-endian, compress, update in place |
| Sha1.Full | algo/sha/sha1.c:386-392 | for every message the result is the SHA-1 digest of FIPS 180-4 |
| Sha256.InitialValueIsRoots | algo/sha/sha256-hash.c:5-6 | the initial value is the first 32 bits after the point of the square roots of the first eight primes |
| Sha256.FinalBlocks | algo/sha/sha256-hash.c:1321-1342 | 0x80, zeros and the bit count finish the section 5.1.1 padding in one or two blocks |
| Sha256.Sha256Context.Update | algo/sha/sha256-hash.c:1293-1319 | the context holds the old message followed by the data |
| Sha256.Sha256Context.Final | algo/sha/sha256-hash.c:1321-1342 | the hash is the digest of everything absorbed |
| Sha256.Full | algo/sha/sha256-hash.c:1344-1350 | the hash of the data, for every length |
| Civiclight.XorByteIs | algo/civiclight/civiclight.c:133-187 | the exclusive or of two bytes, as numbers: 1 in the last binary place exactly when they differ there, and so on for their halves |
| Civiclight.OneBlockDigest | algo/civiclight/civiclight.c:59-85 | the hand-padded 64-byte block digests a 32-byte message |
| Civiclight.TwoBlockDigest | algo/civiclight/civiclight.c:87-119 | the midstate and the hand-padded second block digest an 80-byte header |
| Civiclight.RunPowHash | algo/civiclight/civiclight.c:199-209 | the one-lane hash: double SHA-256, then v1 or v2 by the header time |
| Civiclight.RunPowHashFromMidstate | algo/civiclight/civiclight.c:211-221 | from the midstate of the first 64 bytes, the same hash |
| Civiclight.RunSha80TwoWay | algo/civiclight/civiclight.c:87-120 | both lanes are double SHA-256 of their own header |
| Civiclight.RunCoreV2TwoWay | algo/civiclight/civiclight.c:164-190 | both lanes are the v2 core of their own input |
| Civiclight.RunPowHashTwoWay | algo/civiclight/civiclight.c:223-248 | both lanes are the one-lane hash, also when only one header is past the activation time |
| Civiclight.HashTwoWay | algo/civiclight/civiclight.c:256-269 | for every pair of headers each output equals `civiclight_powhash` of its header, with or without a shared prefix |
| Versions.VersionOfHeader | algo/civiclight/civiclight.c:192-209 | the v2 core of the double SHA-256 exactly when bytes 68 to 71, little-endian, are at least 1784797200, the v1 core otherwise |
| Versions.VersionOfJob | algo/civiclight/civiclight.c:199-209 | for every well-formed job, extranonce and nonce the version is decided by the job's own time, as the pool sends it |
| Versions.BenchmarkGetsV2 | algo/civiclight/civiclight.c:286-290 | the header of any benchmark work gets the v2 core |
| Target.ValidHashCompares | util.c:1132-1181 | both forms compare the two 256-bit numbers |
| Target.DiffToHash128 | util.c:1115-1122 | 128-bit form: lower half all ones, upper half the floor of 2^96 / d |
| Target.DiffToHash64 | util.c:1145-1153 | 64-bit form: the same target |
| Target.FormsOfDiffAgree | util.c:1124-1161 | both forms of `hash_to_diff` agree when the top half is not zero |
| Target.MeetsTargetIffDifficult | util.c:1115-1181 | a hash meets the target of d exactly when its own difficulty is at least d |
| Target.MeetsTargetExactly | util.c:1115-1142 | for every hash, a zero top half included: it meets the target of d exactly when d times its top half is at most 2^96 |
| Target.WordsValue | util.c:1132-1142 | the limbs of eight words are the number the words write, least significant word first |
| Target.PrefilterKeepsValidLanes | algo-gate-api.c:160-180 | the top-word test of the four-lane scan rejects no lane that `valid_hash` accepts |
| Header.SharedPrefix | algo/civiclight/civiclight.c:284-297 | all nonces share the 64 bytes that the midstate covers |
| Scan.LimbsAreBytes | util.c:1132-1142 | the limbs that `valid_hash` reads are the number that the 32 hash bytes write, least significant byte first, and their top half that of the last sixteen |
| Scan.FoundAscending | algo/civiclight/civiclight.c:292-347 | the submissions name exactly the nonces whose header's hash, its bytes read as a number from the least significant one up, is at most the target, once each, ascending |
| Scan.ScanPairs | algo/civiclight/civiclight.c:271-358 | wherever the guard does not wrap, the pairwise scan submits what a one-at-a-time scan of [first, n) would, its statistics sum to `hashes_done`, and n is `max_nonce - 1` unless the restart flag was seen |
| Scan.WrapsExactlyOtherwise | algo/civiclight/civiclight.c:313 | the exact first and last nonces for which an unrestarted loop gets to n + 1 = 0 with its guard still true |
| Scan.ScanOneByOne | algo/civiclight/civiclight.c:294-308 | the one-nonce build keeps the same promise, for every first nonce and bound |
| Slices.SliceBounds | soj_work.c:82-83 | no 32-bit wrap in the slice arithmetic for 1 to 9999 threads, and no empty slice |
| Slices.SlicesDisjoint | soj_work.c:82-83 | slices of different threads do not meet |
| Slices.WorkersNeverCollide | soj_work.c:68-87 | two workers never hash the same nonce, on whatever works they have taken |
| Slices.TwiceExactlyWhenShared | soj_work.c:68-87 | over any turns of a worker, a nonce is hashed twice on the same words exactly when two takings of those words share it |
| Slices.TwiceOnlyWhenRetaken | soj_work.c:73-86 | over any turns whatever, nothing is hashed twice unless work was taken whose words were taken before |
| Slices.TwiceExactlyWhenRetaken | soj_work.c:73-86 | when every taking got to its first nonce, that is exactly when |
| Slices.TurnsAfterReset | soj_work.c:73-84 | two turns while the shared job id is NULL take the same words, and hash the first nonce twice on them when both get to it, as they do unless restarted |
| Slices.CutOffTurns | soj_work.c:73-86 | three turns of a new worker that take the same words twice and hash nothing twice, the second taking being restarted before its first nonce |
| Slices.Worker.GetNewWork | soj_work.c:68-87 | from the start on: work and its fields are copied exactly when, with a stratum, there is no pair of job ids to compare or the ids differ as numbers, or when the nonces are exhausted or the first 19 words differ; otherwise only the nonce moves; without a stratum the ids play no part |
| Slices.Worker.MaxNonce | soj.c:1345-1356 | the bound is max64 (or 1000) ahead or the end nonce, whichever comes first, and positive |
| Slices.Worker.Pass | soj.c:1306-1362 | nonces hashed on taken work are strictly increasing and inside the slice, what is left strictly shrinks, the turn gets to one short of its bound unless restarted, and it submits what a one-at-a-time scan finds against the work's own target |
| Slices.BoundsForScan | soj.c:1353-1362 | a nonce of a slice is never the last 32-bit one |
| Slices.GuardSafeHere | soj.c:1353-1362 | the first nonce and bound of a turn never let the scan's guard wrap |
| Hex.DecodeEncode | util.c:902-1017 | decoding the hex form of any bytes gives the bytes back |
| Hex.EncodeAt | util.c:902-906 | the hex form has the high digit of every byte first, in lower case |
| Hex.Bin2Hex | util.c:902-906 | the buffer holds the hex form |
| Hex.MaskByLanes | util.c:932-949 | for every eight bytes, what the mask accepts lane by lane, carries included |
| Hex.MaskIsExactUnlessFooled | util.c:932-949 | mask and digit test agree, except exactly when a byte from 0xBA up is present and all lanes are accepted |
| Hex.AcceptedByChunks | util.c:974-1012 | a string is accepted exactly when each whole chunk is, lane by lane with carries, and the rest are digits |
| Hex.AcceptedIsExactUnlessFooled | util.c:951-1017 | on whole strings, the verdict is the digit test exactly unless a byte from 0xBA up is present and that holds |
| Hex.HighBytesPass | util.c:938 | U+00BA four times, in UTF-8, is accepted and is no hex |
| Hex.AcceptedLowBytes | util.c:951-1012 | without bytes from 0xBA up, and so on seven-bit strings, the decoder accepts exactly the strings of hex digits |
| Hex.ChunkDecodes | util.c:985-1000 | the packed word of any eight characters holds the bytes of their four pairs, nothing spilling between lanes |
| Hex.PairsOfDigits | util.c:927-930 | on hex digits the bytes of the pairs are those the string writes |
| Hex.Hex2Bin | util.c:951-1017 | verdict on every string; every accepted string leaves the bytes of its pairs followed by zeros, and nothing past len is written |
| Extranonce.Increment | soj.c:1062-1065 | the in-place carry loop adds one to the window and changes no other coinbase byte |
| Extranonce.AfterCounts | soj.c:1062-1065 | k increments give start + k modulo 256^size |
| Extranonce.GenerationsDistinct | soj.c:1026-1065 | fewer than 256^size generations never repeat an extranonce2 |
| Extranonce.GenerationsWrap | soj.c:1062-1065 | after 256^size generations the value comes back |
| Stratum.StratumContext.GenWorks | soj.c:1009-1067 | over k successive generations of one job, the i-th publishes the start value plus i, all different up to 256^size of them, and the words go with the last one |
| Stratum.StratumContext.OnNotify | soj_stratum_methods.c:53-146 | refused exactly for a wrong length of a field or a Merkle branch; a well-formed notify leaves the decoded job, laid out for the extranonce in force, with the pending difficulty; a new job id clears the extranonce2 window, a repeated one of the same shape keeps it |
| Stratum.StratumContext.Layout | soj_stratum_methods.c:122-131 | the coinbase is half 1, extranonce1, extranonce2, half 2 |
| Stratum.GenMerkleRoot | soj_protocol.c:53-61 | the in-place fold gives the Merkle root above coinbase and branches |
| MerkleTree.FoldIsBlockRoot | soj_protocol.c:53-61 | for every list of transactions and every coinbase in the place of the first one: folding the coinbase over the branches of leaf 0 gives the root of the tree with leaves `Sha(Sha(tx))`, parents `Sha(Sha(left + right))` and the last node of an odd level doubled |
| MerkleTree.HeaderHoldsBlockRoot | soj.c:1637-1648 | the header hashed for the job of a block holds, at bytes 36 to 67, the root of that block with the miner's own coinbase |
| Stratum.GlobalWork.BuildBlockHeader | soj.c:1610-1635 | all 48 work words of the stratum path |
| Stratum.StratumContext.BuildExtraheader | soj.c:1637-1648 | the shared words are those of the job with the current extranonce2 |
| Stratum.StratumContext.SetExtranonce | soj_stratum_transport.c:643-690 | accepted exactly for a present extranonce1 and a size from 2 to 16; then only the extranonce in force changes |
| Stratum.StratumContext.GenWork | soj.c:1009-1067 | on any layout, the shared work carries job id, height, epoch, difficulty and its target, the header words of the coinbase, and as extranonce2 what the coinbase holds there in the size in force; the counter then moves on by one |
| Stratum.BuildStratumRequest | soj_protocol.c:7-28 | the submit strings are the hex of extranonce2, time word and nonce word |
| Stratum.WorkImage | algo/civiclight/civiclight.c:286-297 | the hashed 80 bytes are the word-swapped job fields, the Merkle root and the nonce |
| Stratum.PoolRebuildsHeader | soj_protocol.c:7-28 | for every well-formed job and nonce, a pool that rebuilds the header from the submitted strings gets exactly the hashed 80 bytes |
| Stratum.SubmissionsAreGood | algo/civiclight/civiclight.c:326-336 | every submission of a scan: the rebuilt header has the submitted hash, and it meets the target |
| Subscription.SameCoinbase | soj_stratum_methods.c:122-131 | a pool's extranonce1 and extranonce2 give the laid-out coinbase exactly when the two pairs are the same bytes |
| Subscription.PoolSeesExactly | soj_protocol.c:7-28 | the pool rebuilds the hashed header exactly when the Merkle roots above the two coinbases agree |
| Subscription.ChangedBeforeGeneration | soj.c:1282 | after set_extranonce with an extranonce1 of the same length and a generation before any notify, the pool gets the hashed coinbase exactly when nothing has changed |
| Subscription.RebuildsExactly | soj.c:1020-1034 | in any state, with extranonce1 values of one length, exactly when the layout is that of the extranonce in force |
| Subscription.InStepExactly | soj_stratum_transport.c:643-690 | over every run, the layout is that exactly when the extranonce in force is the one of the last notify, and always when a notify follows every change |
| Subscription.NotifyShows | soj_stratum_methods.c:53-146 | a well-formed notify is an event of those runs: context and abstraction go on agreeing, the window cleared for a new job |
| Subscription.ChangeShows | soj_stratum_transport.c:643-690 | so is a set_extranonce, or it changes nothing |
| Subscription.GenerationShows | soj.c:1009-1067 | so is a generation, and the work it publishes is that of the layout it found |
| Mining.OnNewJob | soj.c:1009-1067 | the notify of a new job and the generation after it publish work of that job, with the target of its difficulty |
| Mining.Turn | soj.c:1296-1362 | after any turn a worker is on its own or the shared job's work, also after a reset has taken the job id away; from every share it submits the pool rebuilds a header with that hash, whose top half times the work's difficulty is at most 2^96 |
| Protocol.ReachableOrdered | soj.c:860-884 | over every interleaving, work epoch <= token <= global epoch for every queued command |
| Protocol.PassingIsCurrent | soj.c:542-552 | a share passes the epoch check exactly when its epoch is the global one at that moment |
| Protocol.TokenCheckIsImplied | soj.c:650-668 | the token check drops exactly the shares queued before the epoch last rose, and the epoch check would drop those at that and any later time |
| Protocol.HandledAlone | soj.c:526-567 | a popped share that nothing interferes with is sent exactly when its work is of the current epoch and submissions are not suspended, and finished either way |
| Protocol.SubmittedAlone | soj.c:860-884 | a miner that nothing interferes with queues one share with the epoch and session of the work it hashed, the epoch of that moment and a number of its own; nothing if the queue is frozen |
| Protocol.GeneratedAlone | soj.c:1027 | a generation that nothing interferes with publishes work of the current epoch and session, and a refresh takes exactly that |
| Protocol.TokensAreFresh | soj.c:650-668 | over every run, a share copied after some moment has a token of at least the epoch of that moment |
| Protocol.NothingAfterStop | soj.c:723 | once the submission thread has stopped, nothing is accepted, finished or sent any more |
| Protocol.AtMostOneStaleShare | soj.c:526-567 | once the epoch has reached e, at most one share of an older epoch is ever sent: the very one past its check |
| Protocol.AtMostOneWhileSuspended | soj.c:536-540 | until submissions resume, at most one share is sent: the very one past the suspension test |
| Protocol.NoShareSentTwice | soj.c:860-884 | over every run, every share is sent at most once |
| Protocol.RaisedWhileSuspended | soj.c:1572 | an epoch raised during the suspension leaves at most the share past the test of the earlier work to be sent, however the run goes on |
| Reauthentication.QueuedShareFate | soj.c:526-567 | in every reachable state a queued share can still be sent exactly when its work is of the current epoch |
| Sessions.GenerationDecides | soj.c:1027 | in every reachable state a queued share, of the current session or any other, can still be sent exactly when the epoch was not raised after its work was generated |
| Sessions.FreshShareDropped | soj.c:1555-1572 | a share found between the new session and the raise belongs to the current session and is never sent |
| Sessions.FreshShareKept | soj.c:1572 | with the raise before the generation, a share of the new session can be sent |
| Reauthentication.AtMostOneExactlyWhenRaised | soj.c:1555-1572 | after a suspension at most one old share can follow exactly when the epoch has risen before submissions resume |
| Reauthentication.NoneExactlyWhenRaised | soj.c:1555-1572 | with nothing past the suspension test, no old share can follow exactly when the epoch has risen |
| Reauthentication.NotRaisedNoBound | soj_stratum_transport.c:1178-1181 | if the epoch has not risen, any number of old shares may follow |
| Reauthentication.ResumedBeforeRaised | soj_stratum_transport.c:1178-1181 | in the order of the code, the whole queue of old shares can be sent before the epoch rises |
| Reauthentication.TwoOldSharesSent | soj_stratum_transport.c:1178-1181 | a reachable run that sends two shares queued before the suspension after it |
| Protocol.NothingLostOrDuplicated | soj.c:686-720 | every accepted command is finished, in hand or queued, once and in order; what was sent is exactly what finished as sent |
| Queue.ThreadQ.AddTail | elist.h:19-30 | the ring stays mutually linked and gains the node at its end |
| Queue.ThreadQ.DeleteFirst | elist.h:32-43 | the ring stays mutually linked without the node, whose links become null |
| Queue.ThreadQ.Push | soj_queue.c:75-100 | appends exactly when memory is there and the queue is not frozen; a failed push changes nothing |
| Queue.ThreadQ.Pop | soj_queue.c:102-153 | returns the first element, or nothing, or keeps waiting; accepted = popped + queued throughout |
| Queue.ThreadQ.Free | soj_queue.c:47-53 | the teardown visits every remaining node once and never follows a freed one |
| Framer.SockBuf.Append | soj_stratum_transport.c:194-206 | the text grows by the chunk, below the capacity, which stays a multiple of 2048 |
| Framer.SockBuf.TakeLine | soj_stratum_transport.c:321-383 | splits at the first newline: line, newline and what stays are the old text |
| Framer.SockBuf.Receive | soj_stratum_transport.c:226-272 | stops at the first newline, failure or timeout; the text grows by what was pulled, in order |
| Framer.SockBuf.RecvLine | soj_stratum_transport.c:208-402 | a line comes back exactly when the text pulled so far holds one; failure counting, forced disconnect at two and reset at three |
| Framer.StreamKept | soj_stratum_transport.c:230-257 | every byte brought in is kept exactly when none is a NUL |
| Framer.ChunksDoNotMatter | soj_stratum_transport.c:321-383 | two buffers that received the same text and hold no whole line have returned the same lines |
| JsonNumbers.RewritesExactlyTheOverflows | util.c:463-521 | on JSON text ".0" is inserted after exactly the terminated all-digit numbers over 2^63 - 1 outside strings, nothing else changes |
| JsonGrammar.RewritesByGrammar | util.c:463-521 | on every text of strings, marks, words and numbers of the JSON grammar, numbers being followed by white space, comma, colon or a closing bracket or brace: exactly the numbers without fraction and exponent whose digits write more than 2^63 - 1, and that something follows, gain ".0" |
| JsonGrammar.PositionalIsDecimal | util.c:490-511 | the number that the overflow test computes is the sum of the digits times their powers of ten |
| JsonNumbers.RewriteIsIdempotent | util.c:463-521 | a second rewriting changes nothing |
| JsonNumbers.OnlyTheMinimumIsLost | util.c:484-511 | after a minus sign, a terminated integer that fits in 64 bits gains ".0" exactly when it is -2^63 |
| JsonNumbers.MinimumIsRewritten | util.c:484-511 | "-9223372036854775808," becomes "-9223372036854775808.0," |
| JsonNumbers.EmitBound | util.c:469 | for every input at most twice its length is written |
| JsonNumbers.ShortNumbersFit | util.c:497 | a token of at most four characters never overflows |
| JsonNumbers.HackJsonNumbers | util.c:463-521 | the loop over the buffer writes exactly the rewriting, NUL-terminated, for every input |
| RateRing.SteadyRate | algo/civiclight/civiclight_stats.c:102-121 | a miner at a steady speed with an older sample in the window is shown exactly that speed |
| RateRing.Ring.WindowRate | algo/civiclight/civiclight_stats.c:102-121 | on a non-decreasing clock the backward scan gives the rate since the oldest retained sample of the window |
| RateRing.Ring.Tick | algo/civiclight/civiclight_stats.c:136-157 | with samples at least 10 s apart, the 60, 300 and 900 s rates are those of the unbounded history |
| RateRing.AgreesExactlyBelow930 | algo/civiclight/civiclight_stats.c:13-14 | the ring of 92 agrees with the whole history exactly for windows under 930 s |
| Nbits.NbitsToDiffClean | soj_protocol.c:72-119 | the iterated form is the ratio of the difficulty-1 target to the target |
| Nbits.NbitsToDiff | util.c:1217-1252 | the shift form, on the byte-swapped word, in every branch |
| Nbits.DifficultyIs | util.c:1217-1252 | of a word with exponent e in its top byte and mantissa m below: the difficulty times m times 256^e is 0xFFFF times 256^29 |
| Nbits.DifficultyOne | soj_protocol.c:72-119 | the compact target 0x1d00ffff is difficulty 1 |
| Nbits.ShiftFits | util.c:1229-1235 | no shift of the fast branch loses a bit in 128 |
| Nbits.FormsAgreeExactly | util.c:1217-1252 | both forms agree exactly for a nonzero mantissa with exponent 16 to 41, or a zero mantissa with another exponent |

## Left out

- The SHA-256 compression function, yespower and `sha256d` internals: parameters of `Civiclight.Primitives`.
- `algo/sha/sha1-hash.c`, every SIMD header and the choice of yespower implementation.
- The `md_helper.c` configurations other than 64-byte blocks, big-endian words, 0x80 padding and a 64-bit counter, and the re-initialisation after `sph_sha1_close`.
- Floating-point rounding: difficulty, target and rate arithmetic is exact.
- Target.MeetsTargetIffDifficult: asks for d > 2^-32 and a hash with a nonzero top half, the range in which `diff_to_hash` fits and `hash_to_diff` divides by a nonzero number.
- Scan.ScanPairs: asks that the 32-bit guard does not wrap; `Scan.WrapsExactlyOtherwise` shows that this is no more than the promise needs, and `Slices.Worker.Pass` that the mining loop never calls it otherwise.
- Slices.Worker.Pass: claims no repeats within one taking and no escape from the slice, not coverage, because the code leaves one nonce out between batches.
- Stratum.StratumContext.OnNotify: a malformed field of the right length leaves bytes that the contract does not describe, and JSON parsing and `getblocheight` are parameters.
- Queue.ThreadQ.Pop: stops where the source would wait, since wake-ups come from other threads; mutexes are one atomic step, and a node and the list head inside it are one object.
- JsonNumbers.RewritesExactlyTheOverflows: is about JSON text; other input has only the length bound and the exact output of the loop.
- Framer.SockBuf.RecvLine: the clock and the socket are parameters (the number of rounds it allows, and what each receive brings); the wall-clock pause is not modelled.
- Framer.SockBuf.Append: growing allocates a new buffer where the source may extend in place.
- Protocol: the epoch does not wrap at 2^64; backoff waits, wake-ups and the retry of a failed reauthentication are not modelled.
- `strtoul`, which the job id comparison of `std_get_new_work` calls, is a parameter.
- Mining.Turn: between a stratum reset and the next notify the shared job id is NULL, and the requests of that time name no job; what is proved of their shares is about the job the words came from.
- Stratum.StratumContext.GenWork: asks that the extranonce2 in force ends inside the coinbase, since the source reads past it otherwise, and for a difficulty over 2^-32, the range in which `diff_to_hash` fits.
- Subscription.RebuildsExactly: is about a size in force up to the one laid out; a larger one counts up bytes of the coinbase's second half, and runs end there (`Subscription.ChangedBeforeGeneration` covers the generation itself).
- Benchmark work generation, the non-stratum header branch, `submitblock` and `getwork` paths.
- `snprintf` truncation of requests, and the user name in them.
- `simd-utils/intrlv.h` apart from the 80-byte word swap and lane extraction.
- Statistics formatting, memory and CPU queries, logging, command line, TLS, curl and Windows shims.
