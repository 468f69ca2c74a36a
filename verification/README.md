# Verification model of the coding gateway

The gateway tunnels IP packets over several lossy paths. The sender collects packets into blocks of
up to k, pads them, encodes each block into n shards over GF(2^8), hides the payloads behind a
keystream and spreads the shards over its paths. The receiver keeps a window of blocks, decodes a
block as soon as k shards allow it and writes the packets to its TUN device.

This project models that pipeline in Dafny and proves what it guarantees. `dafny verify dfyconfig.toml`
checks all of it.

## How it is organised

| module | models |
|---|---|
| `Fields`, `Gf256`, `GfPolynomial`, `GfTables` | `src/gf256.c`: bytes as a field, the product as polynomials modulo x^8+x^4+x^3+x^2+1, the two tables |
| `LinearAlgebra`, `Codec`, `Encoder`, `Erasure`, `Selection` | `src/codec.c`: Gauss-Jordan elimination in place, the encoder, which losses are survived, and what it costs to try the k lowest shards only |
| `Crypto`, `Keystreams`, `Wire` | `src/crypto.c`, what its keys and nonces are for, and the byte layouts of `src/transport.c` |
| `UnboundedWindow`, `WindowRuns` | the receive window of `src/rx.c` as a state machine over ids that do not wrap, and what all its runs keep |
| `Window32`, `StaleSlots` | the window as the code keeps it, with 32-bit ids; it refines the machine above, and what happens where it no longer does |
| `IpPackets` | `ip_packet_length` |
| `Scheduler`, `Service`, `Strategy`, `Coverage`, `Numbers` | `src/strategy.c`: weighted round robin, redundancy, loss rates and hysteresis, which blocks reach which paths, and all of its numbers in terms of the configuration |
| `Tx`, `Turns`, `Sender` | `src/tx.c` and the sending half of the event loop of `src/main.c`; `Turns` has its rules on values |
| `EndToEnd`, `Stream`, `Paths`, `Liveness`, `Attempts`, `Network` | everything together: integrity, order, coverage of paths, delivery, which orders of arrival decode, and what comes out at the far end of a network |

The codec is proved for any field (`Fields.Laws`); `Gf256.GfIsField` makes bytes one. Objects that
the source updates in place are classes (`Tables`, `RxWindow`, `Context`, `TxBlock`, `TxLoop`) or
methods on arrays, and each is proved against a function or a state machine on values, about which
the theorems are.

What a step depends on besides its arguments is an input: the clock readings, and the values that
`rand()` draws for coefficients (`draws`, any matrix of bytes). The network may drop, repeat and
reorder: the receiver's theorems hold for every sequence of datagrams of the blocks that the sender
flushed.

## Where code and documentation differ

The model follows the code.

- The design note (`docs/plans/2026-03-09-gateway-design.md:228-229`) lets a shard beyond the window
  advance it; `rx_find` rejects such a shard (`src/rx.c:19`, `WindowRuns.OutsideIsIgnored`).
- A block at base that is neither complete nor expired is given up as soon as a newer block holds a
  slot, and its slot is never cleared. `WindowRuns.BaseStaysOpen` says exactly when base stays,
  `WindowRuns.NewerBlockLeaksSlot` that the slot is lost otherwise, `WindowRuns.RunKeepsSlot` that
  one slot is always left, and `WindowRuns.RunLeaksAllButOne` that no more may be.
- The design note (`docs/plans/2026-03-09-gateway-design.md:94-95`) relies on signed comparison of
  ids. With the slots that are never cleared it fails 2^31 blocks later: once such a slot is 2^31
  behind, the first call of `rx_window_advance` that moves base at all drives it 2^31 ids forward, to
  that old block (`StaleSlots.StaleSlotDrivesBase`). `StaleSlots.RawRoundExactly` says exactly which
  rounds still do what the machine over unbounded ids does.
- README.md:147 says any k independent shards decode a block. `try_decode` tries only the k received
  shards of lowest index (`src/rx.c:76-79`), after every shard (`src/main.c:221-229`). So the order of
  arrival counts: of a block whose two packets are both lost, shards 2, 3 and 4 in this order are not
  decoded, although 2 and 4 would do (`Selection.LowestShardsCanFail`); in the order 2, 4, 3 they are
  (`Selection.AnotherOrderDecodes`). `Attempts.RisingOrderFails` and `Attempts.OtherOrderDelivers` are
  the two runs of a fresh window. `Selection.AnyIndependentBytesSufficeExactly` says that the sentence
  holds, for all draws and all orders of arrival, if and only if just k shards were received or at
  most one packet was lost.
- README.md:508 says that k * ratio >= N shards reach all N paths. Two shards can miss one of two
  paths of weight one (`Coverage.TwoShardsMissThePath`, with the events that lead there);
  `Coverage.CoverageReachably` has the exact number of shards, over all states that come about.
- README.md:508 goes on that a path without losses then guarantees decoding. For k >= 2 it does not:
  with the k = 4 and ratio 2.0 of its example, a path carries two of eight shards
  (`Paths.TwoShardsAreNotFour`). `Paths.LosslessPathExactly` has the exact condition.
- README.md:143 says that redundancy is scaled up when paths fail. The event loop only ever reports
  answered probes to the strategy (`src/main.c:234`), so no path is marked dead except by a reload
  (`Sender.TxLoop.Run`, `Turns.StandingsFollow`, `Strategy.AnswersNeverKill`).
- README.md:698 promises reloads at run time. Probes go only to live paths
  (`src/main.c:276`), so a path that one reload disables and a later one enables stays dead, unless
  the answer to a probe sent before comes in (`Turns.RevivedByOldProbe`, `Turns.DeadStaysDead`).
- A comment (`src/crypto.c:21-22`) says that different keys always give different seeds. There are fewer seeds than
  keys; `Keystreams.KeysHaveSeeds` says it of keys that differ in one byte, but for the seed that stands in for zero.
- The redundancy ratio is capped at 3 only while some path is down, so losing a path can lower n;
  `Strategy.LosingPathsExactly` says exactly when it cannot.
- The block timeout can fire up to a millisecond early (`Tx.TimeoutExactly`).
- Filler slots of a block that was flushed before it was full are decoded and written to the TUN
  device as packets of zeros (`Paths.WrittenPackets`).

## Model

| member | source | states |
|---|---|---|
| GfTables.Tables.constructor | src/gf256.c:7-36 | after initialisation the tables hold the product of every pair of bytes and the inverse of every byte but zero |
| GfTables.ShiftAndXor | src/gf256.c:12-21 | the shift-and-xor loop computes the field product |
| GfTables.Tables.Inverse | src/gf256.c:39-39 | the table entry of a non-zero byte times the byte is one |
| GfTables.Tables.Div | src/gf256.c:40-44 | the quotient times the divisor is the dividend |
| GfTables.InverseIsUnique | src/gf256.c:26-35 | no byte has two inverses, so it does not matter which one the search meets first |
| GfPolynomial.MulIsPolynomialProduct | README.md:151-151 | the product of two bytes is the one polynomial of degree below 8 that differs from their polynomial product by a multiple of x^8+x^4+x^3+x^2+1, and no other |
| Gf256.GfIsField | src/gf256.c:7-36 | bytes with exclusive or and the table product satisfy the field laws, with an inverse for every non-zero byte |
| Gf256.MulAssoc | src/gf256.c:38-38 | the product is associative |
| Codec.GfVecAxpy | src/codec.c:7-12 | adds a multiple of one row to another and touches nothing else, also inside one buffer |
| Codec.ReduceColumn | src/codec.c:75-106 | one column of the elimination, on matrix and data alike, is the row step that the theorems are about |
| LinearAlgebra.StepKeepsSystem | src/codec.c:75-106 | swapping, scaling and eliminating keep the solutions of M x = D, in both directions, and singularity |
| LinearAlgebra.NoPivot | src/codec.c:68-73 | without a pivot a non-zero vector with M x = 0 exists; it is built from the columns already reduced |
| LinearAlgebra.DecodingIsExact | src/codec.c:46-114 | if D = M P, decoding gives P, or fails and then M is singular |
| LinearAlgebra.DecodingIsUnique | src/codec.c:46-114 | the contract of decoding leaves no choice: any two results that meet it are equal |
| Codec.DecodeBlock | src/codec.c:46-114 | the in-place elimination fails exactly if some non-zero vector x has M x = 0, and otherwise returns the only solution of M P = D |
| Encoder.EncodeBlock | src/codec.c:14-44 | every shard is its row of coefficients times the block of packets, padded as include/codec.h asks of the caller |
| Encoder.SystematicShard | src/codec.c:30-33 | the first k shards carry the packets themselves |
| Encoder.MaxLenIsReached | src/codec.c:22-23 | the common length is the length of some packet |
| Erasure.ChosenAreLowest | src/rx.c:76-79 | a received shard is left out only if k shards of lower index were chosen |
| Erasure.ChosenDecodeExactly | src/rx.c:73-86 | decoding any k chosen shards of a block returns the block, or fails because their rows are dependent |
| Erasure.OneLossIsDecoded | src/codec.c:37-41 | k shards with at most one packet missing decode, whatever non-zero coefficients were drawn |
| Erasure.TwoLossesCanFail | src/codec.c:37-41 | with two packets missing there are draws for which decoding fails |
| Erasure.GuaranteedLoss | src/rx.c:73-86 | decoding from k or more received shards succeeds for all draws if and only if at most one packet is missing |
| Selection.LowestShardsCanFail | README.md:147-147 | k = 2, both packets lost, shards 2, 3 and 4 arrive in this order: 2 and 4 are independent, and no attempt decodes |
| Selection.AnotherOrderDecodes | src/main.c:221-229 | in the order 2, 4, 3 an attempt decodes the same shards |
| Selection.AnyIndependentBytesSufficeExactly | README.md:147-147 | for every draw under which some k received shards are independent, and every order of their arrival, one of the attempts made after each shard decodes, if and only if just k were received or at most one packet is missing |
| Selection.AnyOrderSufficesExactly | src/main.c:221-229 | the same over every field with an element besides zero and one |
| Selection.AnyIndependentSufficeExactly | src/rx.c:76-79 | the same condition for a single attempt on the shards received |
| Selection.ChoiceIsChosen | src/rx.c:76-79 | no choice of received shards is larger than their number, and one as large is what the scan collects |
| Crypto.SeedFromKeyNonce | src/crypto.c:25-34 | the loop computes the hash of key and nonce, zero replaced |
| Crypto.CryptoXor | src/crypto.c:47-74 | word by word and with its tail, the loop combines every byte with one keystream function of its position and leaves the rest of the buffer alone |
| Crypto.CryptedTwice | src/crypto.c:47-74 | the same call decrypts |
| Crypto.CryptedPrefix | src/crypto.c:57-73 | no byte of the result depends on the length |
| Keystreams.NoncesHaveSeeds | src/crypto.c:25-35 | under one key two nonces have different seeds, unless the seed is the one that stands in for zero |
| Keystreams.KeysHaveSeeds | src/crypto.c:20-35 | so do two keys that differ in one byte, under one nonce |
| Keystreams.SameSeedsExactly | src/crypto.c:47-74 | a payload of at least eight bytes is encrypted to the same bytes under two keys and nonces if and only if their seeds are equal |
| Keystreams.NoncesHideDifferently | src/test_crypto.c:38-53 | one key and two nonces encrypt every payload of at least eight bytes differently, with that one exception |
| Keystreams.KeysHideDifferently | src/test_crypto.c:55-75 | so do two keys that differ in one byte |
| Keystreams.KeystreamMoves | src/crypto.c:37-45 | no word of the keystream repeats the one before it |
| Keystreams.HashVectors | src/crypto.c:23-28 | the hash has the published values of FNV-1a for no byte, "a" and "foobar" |
| Keystreams.SeedVector | src/crypto.c:18-45 | seed and first two words for the key 0, ..., 31 and nonce 42 |
| Keystreams.CipherVector | src/crypto.c:47-74 | twelve zero bytes encrypted under them, a word and a tail |
| Keystreams.NoncesDiffer | src/tx.c:81-81 | no two pairs of block id and shard index have the same nonce |
| Keystreams.ShardsHideDifferently | src/tx.c:79-84 | so the same payload is encrypted differently in any two shards of the 2^32 blocks |
| Crypto.StateNeverZero | src/crypto.c:33-45 | the generator never reaches zero, after any number of steps |
| Wire.SendShard | src/transport.c:102-126 | the buffer sent holds the header, the coefficients and the payload |
| Wire.SendProbe | src/transport.c:128-164 | the buffer of a probe or an echo holds a header and the 64-bit time stamp |
| Wire.Receive | src/transport.c:186-226 | reading the buffer field by field gives what the datagram means, or rejects it |
| Wire.HeaderLayout | src/test_transport.c:14-37 | which field is at which of the fourteen offsets, in network order |
| Wire.DataLayout | src/transport.c:102-126 | the bytes of a shard: c0 de, version, type, every field at its offset, coefficients, payload |
| Wire.ProbeLayout | src/transport.c:128-164 | the bytes of a probe or an echo |
| Wire.ParseExactly | src/transport.c:186-226 | a datagram is accepted if and only if it begins with c0 de and is a shard whose lengths fit or a probe with its time stamp, and it is taken for what its bytes say |
| Wire.HeaderRoundTrip | src/transport.c:112-120 | the fourteen header bytes give back every field |
| Wire.DataRoundTrip | src/transport.c:102-126 | a shard that is sent is parsed as the same fields, coefficients and payload |
| Wire.ProbeRoundTrip | src/transport.c:128-164 | time stamps of all 64-bit values survive |
| Wire.ParsedDataIsPrefix | src/transport.c:206-215 | an accepted data datagram begins with exactly the bytes that were parsed: nothing behind its end is read |
| Window32.SignedDiffOfWrapped | src/rx.c:18-19 | the signed 32-bit difference of two ids is their difference if and only if they are less than 2^31 apart |
| Window32.StaleBlockLooksNewer | src/rx.c:146-152 | a block held since more than 2^31 blocks counts as newer than base |
| StaleSlots.RawRoundExactly | src/rx.c:127-159 | a round of the loop on 32-bit ids is the round on unbounded ids if and only if the block at base is done, a newer one is held, or no block held is more than 2^31 behind |
| StaleSlots.RawRoundRefines | src/rx.c:127-159 | so it is within the horizon |
| StaleSlots.NoStaleAtEnd | src/rx.c:145-157 | when the loop has ended, no block held is more than 2^31 (and less than 2^32) behind base, so no call begins with one |
| StaleSlots.StaleSlotDrivesBase | src/rx.c:127-159 | with a block 2^31 behind base, a call runs on for 2^31 rounds, to that block, if it moves base at all, and it does if and only if the block at base is done or a newer one is held |
| Window32.RxWindow.RxFind | src/rx.c:14-34 | finds or claims the slot that the machine over unbounded ids would |
| Window32.RxWindow.Insert | src/rx.c:36-62 | stores the decrypted shard once, and only in an undecoded block |
| Window32.RxWindow.TryDecode | src/rx.c:64-103 | decodes the block if enough shards allow it, and marks it |
| Window32.RxWindow.Advance | src/rx.c:123-160 | the loop moves base as the machine does, and ends |
| Window32.RxWindow.Receive | src/main.c:221-229 | insert, decode and advance on 32-bit ids are one step of the machine, as long as the blocks held stay within 2^31 less the window size of base |
| Window32.RxWindow.ReceiveAll | src/main.c:221-229 | a whole run on 32-bit ids, across wrap-around, delivers the blocks that the machine delivers, under their wrapped ids |
| UnboundedWindow.RoundShortensReach | src/rx.c:127-159 | every round of the advance loop brings base closer to the newest block held, so the loop ends |
| WindowRuns.StepKeepsInv | src/rx.c:14-160 | after every step the ids held are distinct, the counts equal the flags, and a block not behind base is at base and undecoded |
| WindowRuns.StepAdvancesAtMostSize | src/rx.c:123-160 | one step moves base by at most the window size, and never back |
| WindowRuns.StepDelivers | src/main.c:221-229 | a step that delivers block d leaves base at d + 1 |
| WindowRuns.OutsideIsIgnored | src/rx.c:18-19 | a shard behind or beyond the window stores nothing and delivers nothing |
| WindowRuns.BaseStaysOpen | src/rx.c:127-159 | the block at base stays if and only if it is not decoded, has not expired, and no newer block is stored |
| WindowRuns.AdvanceTimesOut | src/rx.c:123-159 | an open block at base, nothing newer being held, is given up if and only if it was first filled 50000 us ago or more or the clock is behind that moment; then base moves by one and the slot is free, and otherwise nothing changes |
| WindowRuns.StepTimesOut | src/main.c:221-229 | the same for a step, whatever arrives |
| WindowRuns.BaseTimesOut | src/rx.c:127-141 | a shard that neither completes the block at base nor stores a newer one makes no difference: base moves if and only if 50 ms have passed |
| WindowRuns.RunDeliversInOrder | src/main.c:221-229 | over every run base never goes back and the ids delivered rise strictly |
| WindowRuns.RunKeepsAbandoned | src/rx.c:18-33 | the slot of a block that base has passed is the same after every run |
| WindowRuns.NewerBlockLeaksSlot | src/rx.c:145-157 | a newer block that is stored makes base pass an undecoded, unexpired block, whose slot is not cleared |
| WindowRuns.DeadForever | src/rx.c:18-33 | a window whose slots are all behind base is unchanged by every run and delivers nothing |
| WindowRuns.RunKeepsSlot | src/rx.c:123-160 | no run from a window with a slot left reaches such a window: one slot stays free or at base |
| WindowRuns.RunLeaksAllButOne | src/rx.c:145-157 | from a fresh window of any size some run leaves every slot but one behind base |
| IpPackets.PaddingIsReversible | src/rx.c:105-121 | padding a packet is undone for every width if and only if it is an IP packet whose header gives its length, or, at the maximal length, its header gives no shorter one |
| IpPackets.FillerIsWritten | src/rx.c:105-121 | a row of zeros is written at its full length |
| Scheduler.BestIsHighest | src/strategy.c:88-96 | the scan finds the usable path of highest credit, the first of them |
| Scheduler.CallKeepsRange | src/strategy.c:53-100 | credits of usable paths stay between zero and the weight, the others are untouched |
| Scheduler.RunReachesRefill | src/strategy.c:64-86 | any run spends all credit within as many calls as the weights add up to |
| Scheduler.Fairness | src/strategy.c:53-100 | from then on every stretch of S calls, wherever it begins, picks path i exactly w_i times and returns to the same credits |
| Scheduler.PicksArePeriodic | src/strategy.c:53-100 | the picks repeat with period S |
| Scheduler.Coverage | src/strategy.c:53-100 | a block of S or more shards then puts at least w_i of them on every path i |
| Service.ServedExactly | src/strategy.c:53-100 | from any credits path i is picked within n calls if and only if n exceeds its wait, which is computed from the credits |
| Service.CoverageExactly | src/strategy.c:53-100 | n shards reach path i from all credits in range if and only if n exceeds the longest wait |
| Coverage.CoverageReachably | README.md:508-508 | from a fresh context with a positive threshold, every block of n shards reaches path i whenever it is in use, after any blocks of n shards and any probes between them, if and only if n exceeds the longest wait |
| Coverage.StarvedCredits | src/strategy.c:153-157 | for every n, blocks of n shards followed by probe answers lead to the credits of the longest wait |
| Coverage.TwoShardsMissThePath | README.md:508-508 | two paths of weight one: after two sends and one probe answer, two shards miss the second path |
| Numbers.SharesExactly | src/strategy.c:44-45 | a weight is worth the nearest whole number, halves going up, and at least one |
| Numbers.WeightedFairness | src/strategy.c:53-100 | once the initial credit is spent, every stretch of one period returns each path in use as often as its configured weight, rounded, says |
| Numbers.FirstPeriodIsFair | src/strategy.c:53-100 | so does the first period after initialisation |
| Numbers.TwoToOne | src/test_strategy.c:133-155 | weights 2 and 1: of the first six calls four return the first path, two the second |
| Numbers.ShardCountExactly | src/strategy.c:102-127 | a block gets at most m shards if and only if m is at least k times the ratio, scaled by the enabled over the live paths while some are down but not beyond 3, or 3k when none is left; the paths are counted as sets |
| Numbers.BlockCountExactly | src/tx.c:73-73 | so for the block that is flushed in a given state |
| Numbers.HalfThePathsDown | src/test_strategy.c:74-83 | ratio 1.5 with one of two paths down: six shards for two packets |
| Numbers.ReloadTakesOver | src/strategy.c:171-204 | what a named path takes over and keeps, its new credit, and that other paths are left alone |
| Numbers.NextPeriodIsNew | src/strategy.c:171-204 | the first period after a reload serves every path by its new weight |
| Numbers.NextBlockIsNew | src/strategy.c:171-204 | the first block after a reload gets its shards by the new ratio and the new switches |
| Numbers.AlphaExactly | src/strategy.c:26-32 | a factor in (0,1] is kept, any other becomes 0.2 |
| Numbers.ProbesAreCounted | src/strategy.c:129-147 | over every run the counters of a path are its probe results and its answers |
| Numbers.RoundTripConverges | src/strategy.c:129-147 | answers that take the same time bring the smoothed round-trip time to it by the factor 1-alpha each; nothing else moves it |
| Strategy.ProbesRefillAboveZeroOnly | src/strategy.c:153-157 | without a positive threshold no probe changes a credit |
| Strategy.Context.constructor | src/strategy.c:19-49 | every path starts with its configured state and a full credit; alpha outside (0,1] becomes 0.2 |
| Strategy.Context.NextPath | src/strategy.c:53-100 | refill, scan and payment make one call of the scheduler, or -1 and no change without a usable path |
| Strategy.Context.ComputeN | src/strategy.c:102-127 | counts the enabled and alive paths and scales, caps and clamps the redundancy by them |
| Strategy.Context.UpdateProbe | src/strategy.c:129-158 | one probe result updates one path and its credit; an index out of range changes nothing |
| Strategy.Context.Reload | src/strategy.c:171-204 | weights, switches and credits are taken over path by path, what probes have measured is kept |
| Strategy.ShardCountRange | src/strategy.c:102-127 | n lies between k and MAX_N |
| Strategy.LosingPathsExactly | src/strategy.c:114-126 | fewer usable paths never lower n if and only if the ratio is at most 3, or 3k reaches MAX_N, or no path is enabled |
| Strategy.LosingPathsNeverLowersN | src/strategy.c:102-127 | the same for any pattern of enabled and alive paths, some of which die |
| Strategy.ProbedSound | src/strategy.c:129-158 | any probe result keeps loss rates in [0,1] and the credits of enabled paths between zero and the weight |
| Strategy.PickedSound | src/strategy.c:53-100 | so does every call of `strategy_next_path` |
| Strategy.UpdateIsInBand | src/strategy.c:149-157 | after any update a live path has at most the threshold in loss, a dead one at least half of it |
| Strategy.RevivalTakesTime | src/strategy.c:145-157 | a path just marked dead is alive after m updates only if (1-alpha)^m < 1/2, whatever the probes say |
| Strategy.RevivedExactly | src/strategy.c:145-157 | m successes in a row revive it if and only if its decayed loss is below half the threshold |
| Strategy.SuccessesRevive | src/strategy.c:145-157 | m successes revive it once (1-alpha)^m is below half the threshold |
| Strategy.KilledExactly | src/strategy.c:145-157 | m losses in a row kill a live path if and only if the loss they build up exceeds the threshold |
| Strategy.RunHealth | src/strategy.c:129-158 | in any run of sends and probes the health of a path is decided by its own probe results alone |
| Strategy.DeadPathStaysDown | src/strategy.c:129-158 | the hysteresis bound over every run of sends and probes of all paths |
| Strategy.AnswersNeverKill | src/main.c:230-237 | over every run of sends and answered probes loss rates stay zero and, with a threshold of at least zero, no live path is marked dead |
| Tx.TxBlock.Init | src/tx.c:8-12 | the block is empty and has its new id |
| Tx.TxBlock.AddPkt | src/tx.c:14-26 | a packet is appended unless the block is full; the first one sets the clock |
| Tx.TxBlock.NeedsFlush | src/tx.c:28-37 | true if and only if there is a packet and, in microseconds, the timeout has passed, or all but a millisecond of it and the microsecond field has wrapped |
| Tx.TimeoutExactly | src/tx.c:33-36 | when the truncated arithmetic says the timeout has passed, in microseconds, both ways |
| Tx.TxBlock.Prepare | src/tx.c:51-73 | after padding and filling, the rows are the packets followed by zeros, for any mix of lengths and any partial block |
| Tx.TxBlock.Flush | src/tx.c:39-104 | every datagram carries its coefficient row times that one zero-padded block, encrypted, on the path that the scheduler picks for it |
| Sender.TxLoop.OnPacket | src/main.c:193-203 | a packet read joins the block, which is flushed and renumbered if and only if the packet fills it |
| Sender.TxLoop.OnTimer | src/main.c:206-209 | a block is flushed exactly if it is not empty and overdue |
| Sender.TxLoop.Flush | src/tx.c:39-104 | the block is logged with as many shards as the strategy asks for, its datagrams are added to what was sent on the paths picked, and the strategy has made that many picks |
| Sender.TxLoop.Run | src/main.c:193-293 | over a run with its shutdown drain: the packets read are, in order, the packets of the blocks flushed; blocks are flushed in just the turns that fill them or find them overdue; every one gets the shards that the strategy then asks for; what is sent is, in order, the datagrams of those flushed while a path was in use, which without a reload are all if there is one at first |
| Turns.SentExactly | src/tx.c:86-99 | what the paths carry is, in order, every datagram of every block flushed while some path was in use, and none of the others |
| Turns.HistoryLasts | src/main.c:230-237 | without a reload and with a threshold of at least zero no path goes out of use, so that everything flushed is sent |
| Turns.StandingsFollow | src/strategy.c:149-157 | over every run of the event loop, reloads and answers alone decide which paths are alive |
| Turns.ReadInOrder | src/main.c:193-203 | the packet of every turn that finds one is read, after those of the turns before |
| Turns.ReadOncePerTurn | src/main.c:193-203 | and nothing else is |
| Turns.NothingIsOverdue | src/main.c:206-209 | after a turn no packet waits that was overdue when the clock was read |
| Turns.WaitingSince | src/tx.c:14-37 | the packets that wait are the last ones read, and the timeout counts from the first of them |
| Turns.EachPath | src/strategy.c:149-157 | which paths are alive is decided for each path by its own answers and by the reloads |
| Turns.AliveExactly | src/strategy.c:149-157 | under positive thresholds a path is alive after a run if and only if it was at first and no reload disabled it, or a probe was answered on it since the last reload that did |
| Turns.RevivedByOldProbe | src/main.c:271-281 | as probes go to live paths only, a path once dead is alive later only if the answer to a probe sent before its death has come in since |
| Turns.DeadStaysDead | src/main.c:271-281 | a path disabled at the start stays dead over every run, even if a reload enables it |
| EndToEnd.SentArrives | src/transport.c:186-215 | a datagram that was sent parses and decrypts to the shard that was encoded |
| EndToEnd.DatagramBytes | src/tx.c:75-99 | a datagram of a block, byte for byte: header, coefficients in the clear, payload encrypted under the nonce of block and shard |
| EndToEnd.DatagramsInOrder | src/main.c:212-229 | every data datagram among the inputs is received, in the order of arrival |
| EndToEnd.DatagramsAreCounted | src/main.c:212-229 | and nothing else is taken for one |
| EndToEnd.OutcomeIsSource | src/rx.c:64-86 | decoding a slot gives the zero-padded block, or fails because the rows chosen are dependent |
| EndToEnd.OneLossIsRecovered | src/rx.c:64-86 | a slot with k shards and at most one packet missing decodes |
| EndToEnd.StepHolds | src/rx.c:36-160 | every step leaves only shards of the blocks in the window and delivers the block as it was encoded |
| EndToEnd.RunIsFaithful | src/rx.c:36-160 | integrity over every run: each delivery is its block, zero-padded |
| EndToEnd.ShortRunsAreReceivable | src/rx.c:18-19 | up to 2^31 - 16 blocks no id is ever ambiguous |
| EndToEnd.TunnelAcrossWrap | src/main.c:212-229 | the receiver on 32-bit ids, from any state and across wrap-around, delivers blocks as they were flushed, in order, under their wrapped ids, while the blocks held stay within the horizon |
| EndToEnd.Tunnel | src/main.c:212-229 | whatever the network drops, repeats or reorders, the receiver delivers blocks as they were flushed, each at most once and in order |
| Stream.DeliveredInOrder | src/main.c:193-229 | the packets delivered are a subsequence of the packets of all blocks |
| Stream.WrittenIsDelivered | src/rx.c:88-92 | the rows written for the blocks delivered, zeros removed, are the packets of those blocks, if these are IP packets |
| Stream.ReceiveStream | src/main.c:193-293 | from TUN device to TUN device: if IP packets are read, the packets written, all-zero fillers removed, are a subsequence of them |
| Stream.ReceiveEverything | src/main.c:193-293 | if enough shards of each block arrive in time and before the next block begins, the IP packets written, all-zero fillers removed, are exactly the packets read |
| Paths.DispatchFollowsPicks | src/tx.c:86-99 | a block puts as many shards on a path as the scheduler picks it |
| Paths.PathIsUsed | src/tx.c:86-99 | a path carries a shard of a block if and only if the block has more shards than the path's wait |
| Paths.OneShardSuffices | src/codec.c:37-41 | with k = 1 any shard decodes its block |
| Paths.LosslessPathSuffices | src/codec.c:37-41 | with k = 1 one path without losses is enough for every block with more shards than that path's wait |
| Paths.LosslessPathDecodes | src/rx.c:73-86 | a slot that holds a path's shards, when these are k and lack at most one packet, decodes whatever else it holds |
| Paths.LosslessPathExactly | README.md:508-508 | the shards on a path guarantee decoding, whatever else arrives and whatever was drawn, if and only if there are k of them and they lack at most one packet |
| Paths.TwoShardsAreNotFour | README.md:508-508 | k = 4, eight shards, four paths of weight one: each path carries two shards, which guarantee nothing |
| Paths.IndependentShardsDecode | src/rx.c:73-86 | a slot with k shards, or with at most one packet missing, decodes whenever some k of its shards are independent |
| Paths.WrittenPackets | src/rx.c:88-92 | for IP packets the receiver writes the packets byte for byte, and zeros for every filler slot |
| Liveness.WaitingBlockIsDelivered | src/rx.c:36-160 | shards of one block that complete it in time deliver it, once, and free its slot |
| Liveness.InOrderChannelDelivers | src/rx.c:36-160 | if of each block k shards with at most one packet missing arrive within 50 ms and before the next block begins, every block is delivered, in order; further shards may come at any time later |
| Attempts.DecodesExactly | src/rx.c:73-86 | a slot decodes if and only if its k shards of lowest index are there and independent |
| Attempts.RunDeliversExactly | src/main.c:221-229 | a run of timely shards of the block at base, in any order and with repetitions, delivers it, once, if and only if one of the attempts made after each shard finds independent shards |
| Attempts.RisingOrderFails | src/main.c:221-229 | from a fresh window, shards 2, 3 and 4 in this order deliver nothing for the draws of `Selection.FailingDraws` |
| Attempts.OtherOrderDelivers | src/main.c:221-229 | in the order 2, 4, 3 they deliver the block |
| Network.NetworkIsChannel | src/main.c:212-229 | if of every block k different datagrams, with at most one of the first k missing, arrive within 50 ms and before those of the next, in any order and with repetitions, the arrivals are those of an in-order channel |
| Network.ReceiveFromNetwork | src/main.c:193-293 | at the end of such a network every block is delivered, once and in order, and if IP packets were read, the packets written, all-zero fillers removed, are exactly those |

## Left out

- Sockets, `select`, signals and the TUN device: replaced by the inputs of a turn or a step.
- The sender's address and the path it selects in `transport_recv`: it only affects metrics and probes.
- `src/config.c`: only its clamps, 1 <= k <= MAX_K and 1 <= window_size <= MAX_WINDOW, appear, as
  preconditions. A change of these by a reload does not occur in the source either.
- `src/metrics.c`, logging, `crypto_parse_key`, and `probes_sent` being counted a second time when a probe is sent.
- Rounding of floating-point numbers, and conversions of floats that do not fit an int: reals and integers are unbounded.
- Codec.DecodeBlock: takes shards of one length. Where a receiver holds shards of one block that disagree about k or
  their length, which the sender never produces, the window machine lets the decoder return anything
  (`stray`); the theorems about runs hold for every such choice.
- Codec.ReduceColumn: the same, for one column.
- Encoder.EncodeBlock: says nothing of packets that the caller has not padded with zeros, which include/codec.h
  rules out; the shards of such a block would not belong to one block.
- WindowRuns.RunDeliversInOrder: assumes k >= 1 in headers, as the sender writes them.
- WindowRuns.StepDelivers: the same; a header with k = 0 would decode a block of no packets, even in a slot without shards.
- Window32.RxWindow.Receive: says nothing once a block is held that is 2^31 less the window size behind base;
  `StaleSlots.StaleSlotDrivesBase` says what the loop then does.
- Window32.RxWindow.RxFind: within the same horizon.
- Window32.RxWindow.Insert: within the same horizon.
- Window32.RxWindow.TryDecode: within the same horizon.
- Window32.RxWindow.Advance: within the same horizon.
- Window32.RxWindow.ReceiveAll: takes the datagrams of a run one after the other by recursion, where the source
  returns to its event loop; probes and the sending half between them do not touch the window.
- Slots of the receive window are values in an array; the shard and flag arrays inside a slot are sequences.
- Scheduler.Fairness: holds between probe results, since every good probe answer refills its path's credit;
  `Service.CoverageExactly` and `Service.ServedExactly` hold with probes in between.
- Coverage.CoverageReachably: for a positive threshold; without one no probe refills a credit, and the longest wait
  among the states that come about is shorter and not computed here.
- Strategy.DeadPathStaysDown: without a reload, which may change threshold and alpha.
- Turns.RevivedByOldProbe: takes for granted that an answer on a path follows a probe sent there (`Turns.AnswersProbes`).
- Turns.DeadStaysDead: the same.
- Keystreams.KeysHaveSeeds: of keys that differ in one byte.
- Network.ReceiveFromNetwork: covers logs of up to 2^31 - 16 blocks.
- Attempts.RunDeliversExactly: for shards of the block at base alone; a newer block that is stored can make base pass it
  (`WindowRuns.BaseStaysOpen`).
- EndToEnd.Tunnel: covers logs of up to 2^31 - 16 blocks, for which nothing wraps; `EndToEnd.TunnelAcrossWrap` has no
  such bound. It assumes that no data datagram comes from anywhere but the sender; nothing detects a forged one.
- Failed `sendto` calls: a datagram that is not sent is one that the network drops.
- The strength of the cipher, the probability of decoding beyond the guaranteed losses, throughput and latency.
