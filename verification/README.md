# wfb-ng: verified core

A Dafny model of the parts of wfb-ng that carry its promises, with proofs.

- **Erasure codec** (`src/zfex.c`): the field GF(2^8) and its tables, the multiply-accumulate kernels, Gauss-Jordan
  and Vandermonde inversion, the systematic encoding matrix, encoding, decoding, and their round trip.
- **Block transport** (`src/tx.cpp`, `src/rx.cpp`): the transmitter and the receiver's ring of forty blocks, each as a
  class that updates its state in place, and the two together over an air that loses, repeats and reorders.
- **Token scheduler** (`src/aq_sq_manager.cpp`, `src/server_scheduler.cpp`): two rotating queues and the watchdog.
- **Framing**: the MAVLink splitter, the aggregation queue in front of a link, the two tunnels, the radiotap walk.

A module is a file. The codec is `Gf256`, `GfTables`, `LinearAlgebra`, `GaussJordan`, `Polynomial`, `Vandermonde`,
`Kernels`, `EncodingMatrix`, `Codec`, `RoundTrip`. The receiver's specification is a plain queue of blocks, `RxSpec`.
About it, `RxWindow` says which blocks can still be taken, `RxOutput` what is handed over, `RxCounters` what is counted,
`RxLossless` and `RxTolerant` when nothing is missing. `Session` says what a fragment of a session carries; `Recovery`
and `Aggregator` are the receiver on buffers and ring, proved against the queue; `Transmitter` is the sender and
`EndToEnd` joins them. `Sequences` and `Bytes` hold what several modules share.

Conventions. A *slot* is the serial number `block * k + fragment` of a data fragment. The cipher is an ideal
authenticated channel: what decrypts is what some fragment of the session carried (`Session.Authentic`); block and
fragment number travel in the nonce. The air is a sequence of indices into what was sent. A block is *in time* while it is
newer than everything so far, or no older than the first arrival, fewer than forty behind the newest, and no block
from it on has got k fragments (`RxWindow.InTime`). Bytes and field elements are
integers below 256; widths are written out where the code depends on them (the 32-bit loss counter, the 56-bit block
number in the nonce, 16-bit windows and the 8-bit silence counter).

## Results that differ from what one might expect

- `_invert_vdm` starts its coefficient loop one step late. It inverts the Vandermonde matrix exactly when there are at
  most two points or one of the first two is zero (`Vandermonde.InvertsExactlyWhenHarmless`, with the failing points
  1, 2, 3 in `Vandermonde.LateStartFails`). `fec_new` always passes 0 as the first point.
- The comment above `_invert_mat` speaks of a return code; there is none. The model follows the code.
- Losses right after slot 0 go uncounted, because serial 0 also means "nothing yet". Below 2^32 that is the only exception
  (`LossAccounting.CountedExactly`, `LossAccounting.UncountedExample`).
- The window cap of the token server is not one: state II is not clamped (`Watchdog.CapExceeded`,
  `Watchdog.CapExceededExample`), and over a run windows can drift up by 49 ms per report (`Watchdog.WindowsDrift`).
  The minimum can be missed too, when the 16-bit sum wraps (`Watchdog.MinimumMissed`,
  `Watchdog.MinimumMissedExample`).
- Full use raises a window by 100 ms a report up to the cap, for ever, only for caps up to 65435; above, the sum wraps
  after 654 reports (`Watchdog.GrowthExactly`).
- The caps keep a round of all other nodes below the 5000 ms they are meant for only up to 34 nodes (`Watchdog.CycleBound`).
- Setting a node up again while it is active breaks the agreement between scheduler and queues; otherwise setting up
  keeps it (`Watchdog.StartAgrees`, `Watchdog.AgreesExactly`, `Watchdog.StartAgainExample`).
- If the aggregation timer fires while only empty messages wait, it is left behind as fired: no batch ever leaves again
  (`Aggregation.StalledForever`, example in `Aggregation.EmptyMessageStalls`). Nothing else does this, and empty
  messages with others behind them are harmless (`Aggregation.RunTimely`, `Aggregation.EmptyMessageHarmless`).
- The radiotap walk uses a pointer that only vendor data sets when it reaches the undefined bit 18 of a
  default-namespace word before any vendor data. Not every header with that bit does: an earlier field may not fit, or
  an earlier bit may end the walk. `Radiotap.UndefinedFieldExactly` says exactly which headers do;
  `Radiotap.UndefinedFieldExample` is one.

## Model

| member | source | states |
|---|---|---|
| `Gf256.MulCommutes` | src/zfex.c:33-47 | multiplication of the field given by the polynomial 1+x^2+x^3+x^4+x^8 is commutative |
| `Gf256.MulAssociates` | src/zfex.c:33-47 | multiplication is associative |
| `Gf256.MulAddLeft` | src/zfex.c:33-47 | multiplication distributes over XOR |
| `Gf256.TimesTwo` | src/zfex.c:33-47 | multiplication by x is a shift, reduced by 1+x^2+x^3+x^4+x^8; x^7 times x is 0x1d |
| `Gf256.AlphaOrder` | src/zfex.c:101-109 | alpha^255 = 1, and alpha^15, alpha^51, alpha^85 are not 1 |
| `Gf256.AlphaPrimitive` | src/zfex.c:101-109 | no smaller positive power of alpha is 1: alpha is a primitive element |
| `Gf256.EveryNonzeroIsPower` | src/zfex.c:101-109 | every nonzero element is a power of alpha below 255, so logarithms exist |
| `Gf256.MulInverse` | src/zfex.c:47-48 | the power 255 - log a inverts every nonzero a |
| `Gf256.MulByLogs` | src/zfex.c:107-115 | a product of nonzero elements is the power at the sum of the logarithms mod 255 |
| `GfTables.Modnn` | src/zfex.c:54-61 | the shift-and-add loop ends and computes x mod 255 for every x |
| `GfTables.AlphaEightComplete` | src/zfex.c:136-158 | the eight coefficients add up to alpha^8 of the field |
| `GfTables.NextPower` | src/zfex.c:165-172 | shift with reduction by alpha^8 is multiplication by alpha |
| `GfTables.Tables.GenerateGf` | src/zfex.c:131-190 | the exp table holds all powers twice over, log is its inverse on nonzero elements, inverse holds multiplicative inverses |
| `GfTables.Tables.InitMulTable` | src/zfex.c:110-123 | the multiplication table is field multiplication for all 65536 pairs, zero rows and columns included, and the nibble table is multiplication by 16 times the nibble |
| `GfTables.Tables.constructor` | src/zfex.c:701-707 | the tables as built satisfy all of the above together |
| `GfTables.Tables.FillLowPowers` | src/zfex.c:144-158 | the first loop leaves alpha^0..alpha^8 and their logarithms |
| `GfTables.Tables.FillHighPowers` | src/zfex.c:165-172 | the second loop leaves all 255 powers and logarithms |
| `GfTables.Tables.RepeatPowers` | src/zfex.c:177-179 | the second half of the exp table repeats the first |
| `GfTables.Tables.FillInverses` | src/zfex.c:186-189 | every nonzero entry of the inverse table multiplies to 1 |
| `Kernels.NibbleSplit` | src/zfex.c:228-246 | the product is the XOR of the products with low and high nibble |
| `Kernels.AddMul` | src/zfex.c:278-354 | the unrolled scalar loop XORs c times the source into the destination on exactly the given range, for any length |
| `Kernels.NibbleKernel` | src/zfex.c:228-246 | one vector step does the same on its lanes by two table look-ups |
| `Kernels.AddMulSimd` | src/zfex.c:360-506 | vector steps and scalar tail together equal the scalar addmul on buffers of any length |
| `LinearAlgebra.DotAxpy` | src/zfex.c:613-622 | adding a multiple of a row adds that multiple of its product |
| `GaussJordan.PivotExchanges` | src/zfex.c:592-622 | one pivot step exchanges one input of the linear map with one output |
| `GaussJordan.SwapRepresents` | src/zfex.c:587-589 | a row swap keeps the tableau's meaning with two output labels exchanged |
| `GaussJordan.NoPivotIsSingular` | src/zfex.c:555-579 | if no unused row and column has a nonzero entry, the matrix has a kernel |
| `GaussJordan.UnitRowReducesNothing` | src/zfex.c:605-623 | skipping elimination when the pivot row is already a unit row changes nothing |
| `GaussJordan.IsUnitRow` | src/zfex.c:612-613 | the comparison with the identity row says exactly whether the row is a unit row |
| `GaussJordan.SwapRows` | src/zfex.c:587-589 | rows r and c are exchanged and nothing else |
| `GaussJordan.SwapColumns` | src/zfex.c:625-628 | columns r and c are exchanged and nothing else |
| `GaussJordan.NormalizeRow` | src/zfex.c:592-604 | the pivot row is divided by the pivot and the pivot replaced by its inverse |
| `GaussJordan.Eliminate` | src/zfex.c:612-623 | all other rows are reduced by the pivot row, with or without the skip |
| `GaussJordan.FindPivot` | src/zfex.c:557-579 | finds a nonzero entry in an unused row and column, or shows there is none |
| `GaussJordan.NextPivot` | src/zfex.c:555-624 | every iteration finds a pivot and moves one more label, given a nonsingular input |
| `GaussJordan.PivotAll` | src/zfex.c:543-624 | after k pivots all labels are moved, up to the recorded swaps |
| `GaussJordan.UnswapSolves` | src/zfex.c:625-628 | undoing one recorded swap on the columns undoes it on the labels |
| `GaussJordan.InvertMat` | src/zfex.c:533-634 | for every nonsingular matrix the result is its two-sided inverse |
| `Polynomial.VdmRowEvaluates` | src/zfex.c:636-646 | a Vandermonde row times coefficients is the value of the polynomial at the point |
| `Polynomial.Division` | src/zfex.c:681-691 | synthetic division by x - r: value = remainder + (x - r) times value of the quotient |
| `Polynomial.RootBound` | src/zfex.c:636-646 | a polynomial with as many distinct roots as coefficients is zero |
| `Polynomial.LagrangeAt` | src/zfex.c:681-694 | the normalised cofactor is 1 at its own point and 0 at the others |
| `Vandermonde.InvertsExactlyWhenHarmless` | src/zfex.c:667-694 | for distinct points, the late-starting loop yields the inverse if and only if at most two points, or one of the first two zero |
| `Vandermonde.LateStartFails` | src/zfex.c:674-677 | the points 1, 2, 3 are a case where it does not |
| `Vandermonde.MultiplyIn` | src/zfex.c:674-679 | one round of the coefficient loop multiplies the polynomial by x - p_i except for the constant coefficient |
| `Vandermonde.BuildPoly` | src/zfex.c:673-679 | the loop computes the code's polynomial for the points |
| `Vandermonde.DivideOut` | src/zfex.c:685-691 | synthetic division gives the cofactor and its value at the point |
| `Vandermonde.InvertVdm` | src/zfex.c:647-699 | writes the code's columns in place of the Vandermonde rows, which is the inverse when the late start is harmless |
| `EncodingMatrix.Systematic` | src/zfex.c:770-778 | the first k rows of the code are the identity |
| `EncodingMatrix.FragmentIsEvaluation` | src/zfex.c:752-769 | fragment r of a data column is the value at point r of the polynomial through the data |
| `EncodingMatrix.MonomialFragment` | src/zfex.c:752-769 | with data 1, 0, ... (d = 0) or 0, alpha^0, alpha^d, alpha^2d, ... fragment r is alpha^((r-1)d), for every d < k and r >= 1 |
| `EncodingMatrix.OnlyRow` | src/zfex.c:752-769 | no other row has these fragments, so they fix the code |
| `EncodingMatrix.FirstParityOfTwo` | src/zfex.c:752-769 | for k = 2 the first parity row is 3, 2 |
| `EncodingMatrix.AnyRowsNonsingular` | src/zfex.c:752-778 | every choice of k distinct rows of the matrix is nonsingular |
| `EncodingMatrix.NonsingularExactly` | src/zfex.c:752-778 | k rows of the matrix are nonsingular if and only if the fragment numbers are distinct |
| `EncodingMatrix.RepeatedRowSingular` | src/zfex.c:874-881 | a repeated fragment number makes the decode matrix singular |
| `EncodingMatrix.FillPowers` | src/zfex.c:752-761 | the temporary matrix is the Vandermonde matrix of the points 0, alpha^0, alpha^1, ..., which `EncodingMatrix.MonomialFragment` reads off the finished code |
| `EncodingMatrix.MultiplyBottom` | src/zfex.c:511-525 | each entry is the product of row and column |
| `EncodingMatrix.SetIdentity` | src/zfex.c:770-778 | the top square becomes the identity and the rest is untouched |
| `EncodingMatrix.FecNew` | src/zfex.c:726-784 | for every 1 <= k <= n < 256 the matrix built is the code's: identity, then the rows fixed by `EncodingMatrix.MonomialFragment` and `EncodingMatrix.OnlyRow` |
| `Codec.EncodeStride` | src/zfex.c:811-827 | one stride of one pass fills exactly its bytes of every parity packet |
| `Codec.FecEncode` | src/zfex.c:786-830 | every parity byte is the code's combination of the data bytes at that position, bytes beyond sz stay, inputs stay |
| `Codec.Shuffle` | src/zfex.c:832-861 | ends; succeeds exactly when no two packets claim the same data block; packet and number pairs are permuted; data packets end at their own position |
| `Codec.DecodeMatrix` | src/zfex.c:863-882 | the matrix is the inverse of the rows of the packets at hand |
| `Codec.ComputeMissing` | src/zfex.c:913-931 | each missing block is its row of the decode matrix applied to the packets, in increasing order |
| `Codec.FecDecode` | src/zfex.c:885-934 | fails exactly on a conflict; otherwise, whatever data the packets encode, the outputs are its missing blocks in increasing order |
| `RoundTrip.LoseAndRecover` | src/zfex.c:726-934 | for every code, all contents and any k distinct surviving fragments in any order, decoding after encoding returns exactly the missing blocks |
| `RoundTrip.MissingMeans` | src/zfex.c:913-931 | the missing blocks are those without a surviving fragment, in strictly increasing order |
| `RoundTrip.Encode` | src/zfex.c:786-830 | data and parity packets together are the n fragments of the code |
| `RoundTrip.Decode` | src/zfex.c:885-934 | any k distinct fragments are decoded without conflict |
| `RxSpec.PushManyKeepsNewest` | src/rx.cpp:471-485 | a jump of any length pushes out only old blocks and never one it has just created |
| `RxSpec.LocateKeeps` | src/rx.cpp:457-486 | a new block leaves consecutive blocks up to the newest, ending in the new one, and flushes only earlier slots; which blocks is said by `RxWindow.JumpOpens` and `RxWindow.LocateFirst` |
| `RxSpec.InsertKeeps` | src/rx.cpp:760-856 | a fragment keeps the ring shape, and the slots it hands over lie between old and new frontier |
| `RxSpec.StepKeeps` | src/rx.cpp:735-857 | every received packet keeps shape and order |
| `RxSpec.RunKeeps` | src/rx.cpp:735-857 | over every run the ring holds consecutive blocks short of k fragments and slots handed over strictly increase |
| `RxSpec.RunRemembers` | src/rx.cpp:762-769 | over every run a block in the ring holds exactly its fragments that ever arrived |
| `RxSpec.InsertCompletes` | src/rx.cpp:774-856 | the k-th fragment of a block in the ring hands over its remaining slots and removes it |
| `RxSpec.KthFragmentCompletes` | src/rx.cpp:755-856 | when the k-th distinct fragment of a block the receiver can take arrives, all k slots have been handed over and the block is gone |
| `RxWindow.JumpOpens` | src/rx.cpp:471-485 | after a jump the ring holds every skipped block fewer than forty behind the new one |
| `RxWindow.LocateFirst` | src/rx.cpp:457-486 | a new block moves the start of the ring exactly to thirty-nine before it, if it moves it; the first block of a session starts the ring |
| `RxWindow.InsertFirst` | src/rx.cpp:784-856 | a fragment moves the start of the ring if and only if it is at least the k-th of its block, and then behind that block |
| `RxWindow.RunOpens` | src/rx.cpp:735-857 | over every run newest block and start of the ring, told from the arrivals alone |
| `RxWindow.ReceivableExactly` | src/rx.cpp:457-486 | over every run the receiver can take a block if and only if it is in time, a condition on the arrivals alone |
| `RxOutput.StepAccounts` | src/rx.cpp:735-857 | one packet, with its flushes, overrides and recovery, keeps the account of what is out of every block |
| `RxOutput.RunAccounts` | src/rx.cpp:421-857 | exactly what is out, over every run and for every block: of one in the ring the fragments sent so far; of one that has left or was jumped over, all if k of its fragments arrived in time and otherwise the data fragments that did; beyond the newest, nothing |
| `RxOutput.OutputExactly` | src/rx.cpp:735-857 | over every run, by the arrivals alone: of a block no longer in time the data fragments that came in time are out, all if k came; of one in time nothing, except of the oldest what has no gap before it |
| `RxOutput.SentAtOnce` | src/rx.cpp:771-792 | a new fragment that does not complete the oldest block in time leaves exactly its fragments up to the first gap handed over |
| `RxCounters.OverridesExactly` | src/rx.cpp:421-485 | a fragment overrides exactly the blocks of the ring forty or more behind its own |
| `RxCounters.RecoveredExactly` | src/rx.cpp:818-844 | in every run a fragment adds to the recovered exactly the slots it brings out whose own fragments have not arrived |
| `RxLossless.StepInOrder` | src/rx.cpp:771-792 | the next fragment in order is handed over at once |
| `RxLossless.ParitiesIgnored` | src/rx.cpp:465-469 | parity fragments of a finished block do nothing |
| `RxLossless.LosslessRun` | src/rx.cpp:735-857 | without loss or reordering exactly the slots sent so far are handed over |
| `RxTolerant.RunSettles` | src/rx.cpp:735-857 | while blocks arrive in order, every block with k fragments has been handed over completely |
| `RxTolerant.CompletesHandsOver` | src/rx.cpp:755-856 | whatever the order of arrival, a block that gets its k-th fragment in time is handed over whole by the end of the run |
| `RxTolerant.InOrderCompletes` | src/rx.cpp:735-857 | while blocks arrive in order, every block with k fragments gets the k-th in time |
| `RxTolerant.NothingMissing` | src/rx.cpp:735-857 | if every block gets k fragments in time, in whatever order fragments arrive, every slot is handed over, once and in order |
| `LossAccounting.LossesConserved` | src/rx.cpp:865-880 | for slots below 2^32 from a nonzero first slot on, the counter grows by exactly the slots skipped, modulo 2^32 and from whatever an earlier session left in it |
| `LossAccounting.FirstSlotUncounted` | src/rx.cpp:867-880 | in a session that starts at slot 0 the counter grows by the slots skipped from the second slot handed over on |
| `LossAccounting.CountedExactly` | src/rx.cpp:865-880 | the counter grows by all slots skipped if and only if the first slot is not 0, or is the only one, or is followed by slot 1 |
| `LossAccounting.RunLosses` | src/rx.cpp:859-893 | over every run of the receiver with slots below 2^32: that equivalence, and the growth from the first nonzero slot on |
| `LossAccounting.UncountedExample` | src/rx.cpp:867-880 | a run that hands over 0, 2, 3 and counts no loss |
| `Session.ExtractHeld` | src/rx.cpp:859-893 | a buffer that starts with a packet's body delivers that packet, or nothing if it only closes a block |
| `Session.BodyFormat` | src/tx.cpp:687-698 | on the air a packet is its flags, its size with the high byte first, its payload |
| `Session.SizeFieldFormat` | src/rx.cpp:861-864 | the receiver reads the size with the high byte first |
| `Session.ParitySize` | src/tx.cpp:706-735 | a parity fragment is exactly as long as the longest data fragment of its block |
| `Session.AuthenticSize` | src/rx.cpp:732-733 | authentic fragments meet the size assertions of the receiver |
| `Session.NonceSplits` | src/rx.cpp:735-736 | shift and mask recover block and fragment number from the transmitter's nonce |
| `Session.NonceIncreases` | src/tx.cpp:631-631 | nonces are ordered as block and fragment numbers |
| `Recovery.ChooseFragments` | src/rx.cpp:902-933 | a block with k fragments gets k distinct fragment numbers, data in place; the parity index never runs out; at most n - k outputs; the size is that of a parity fragment |
| `Recovery.NextParity` | src/rx.cpp:918-923 | the search for a parity fragment stops at one, before the end |
| `Recovery.ApplyFec` | src/rx.cpp:895-937 | received buffers stay, and if the fragments are authentic every data buffer then starts with its packet |
| `Aggregator.QueueUpdate` | src/rx.hpp:78-92 | changing one ring entry changes one block of the queue |
| `Aggregator.QueueDrop` | src/rx.cpp:787-788 | advancing the front drops the oldest block |
| `Aggregator.QueueAppend` | src/rx.cpp:423-428 | filling the entry behind the last appends a block |
| `Aggregator.AtDistance` | src/rx.cpp:799-799 | the distance from the front modulo the ring size is the position in the queue |
| `Aggregator.Aggregator.constructor` | src/rx.cpp:306-339 | a session starts with an empty ring and no output |
| `Aggregator.Aggregator.SendPacket` | src/rx.cpp:859-893 | one slot is handed over, charged to the loss account, and its packet delivered |
| `Aggregator.Aggregator.RingPush` | src/rx.cpp:421-454 | a free entry, or the oldest after its fragments are handed over, counted as an override |
| `Aggregator.Aggregator.Search` | src/rx.cpp:459-463 | finds the block's entry exactly when the queue holds it |
| `Aggregator.Aggregator.PushBlocks` | src/rx.cpp:471-485 | the queue becomes that with the new blocks (`RxWindow.JumpOpens`), the flushed slots go out, and the override counter grows by the blocks pushed out |
| `Aggregator.Aggregator.FlushBefore` | src/rx.cpp:797-816 | all blocks before the recovered one are flushed and removed, which then is the oldest |
| `Aggregator.Aggregator.RecoverIfNeeded` | src/rx.cpp:818-844 | recovery runs when a data fragment is missing; then all data buffers hold their packets, and the counter grows by the number missing |
| `Aggregator.Aggregator.CompleteBlock` | src/rx.cpp:794-856 | flush, recover, hand over and remove, as in the queue |
| `Aggregator.Aggregator.InsertFragment` | src/rx.cpp:760-856 | ring and queue agree after a new fragment |
| `Aggregator.Aggregator.ProcessPacket` | src/rx.cpp:735-857 | ring, fragment counters, output, override and recovery counters refine the queue step; authentic input keeps ring and output faithful to the packets sent |
| `Transmitter.Transmitter.constructor` | src/tx.cpp:113-140 | a transmitter starts at the first fragment of block 0 |
| `Transmitter.Transmitter.InitSession` | src/tx.cpp:113-143 | a new session has its own code, empty buffers and position 0 |
| `Transmitter.Transmitter.FillBuffer` | src/tx.cpp:687-698 | the buffer holds header, payload and zeros; other buffers stay |
| `Transmitter.DataSent` | src/tx.cpp:622-708 | the body under the nonce of its position is what the wire holds next: the receiver reads back block and fragment number, and the fragment is authentic |
| `Transmitter.ParitySent` | src/tx.cpp:622-735 | the same for a parity fragment |
| `Transmitter.Transmitter.SendData` | src/tx.cpp:687-710 | one data fragment goes out at once and is authentic |
| `Transmitter.Transmitter.EncodeBlock` | src/tx.cpp:712-713 | every parity buffer, cut to the largest packet, is the authentic parity fragment |
| `Transmitter.Transmitter.SendParity` | src/tx.cpp:718-735 | the n - k parity fragments go out in order, each of the largest packet's size |
| `Transmitter.Transmitter.FinishBlock` | src/tx.cpp:712-738 | a full block ends with its parity fragments, at the first fragment of the next |
| `Transmitter.Transmitter.SendPacket` | src/tx.cpp:681-751 | refuses exactly closing packets outside an open block; otherwise the wire is the next position's, all of it authentic; a new session starts after the last block number |
| `Transmitter.Transmitter.CloseBlock` | src/tx.cpp:899-900 | the closing loop ends after k - fragment_idx + 1 calls (one if no block is open) at fragment 0 with the block complete |
| `Transmitter.Transmitter.SetFec` | src/tx.cpp:888-902 | bad parameters are refused without effect; otherwise the open block is closed and a session with the new code starts |
| `Transmitter.WireOrdered` | src/tx.cpp:706-738 | fragments of a session leave in strictly increasing order of block and fragment |
| `Transmitter.NoncesIncrease` | src/tx.cpp:631-631 | no nonce is used twice in a session |
| `Transmitter.ParityAuthentic` | src/tx.cpp:712-713 | the encoder's output over padded packets is what the receiver needs |
| `EndToEnd.RefusedInvisible` | src/tx.cpp:681-685 | refused packets are none the application would see |
| `EndToEnd.InOrderDelivery` | src/rx.cpp:859-893 | increasing slots deliver payloads in the order of sending |
| `EndToEnd.FullDelivery` | src/rx.cpp:859-893 | all slots deliver all payloads |
| `EndToEnd.Transmit` | src/tx.cpp:681-750 | a session's wire is the accepted packets' fragments, all authentic |
| `EndToEnd.Receive` | src/rx.cpp:735-937 | a receiver fed any authentic datagrams delivers the packets of exactly the slots of the queue's run |
| `EndToEnd.Link` | doc/wfb-ng-std-draft.md:212-230 | the wire is the accepted packets' authentic fragments and the output the packets of the slots handed over for what arrives; under any loss, repetition and reordering it is an in-order subsequence of the payloads, byte for byte; all of them without loss, and also when every block gets k fragments in time, as when blocks arrive in order and each loses at most n - k |
| `Queues.AqSqManager.InitNode` | src/aq_sq_manager.cpp:9-20 | a node already queued stays where it is, a new one goes to the end of SQ |
| `Queues.AqSqManager.MigrateToAq` | src/aq_sq_manager.cpp:22-39 | the node is at the end of AQ and nowhere else, unless it was in AQ already |
| `Queues.AqSqManager.MigrateToSq` | src/aq_sq_manager.cpp:41-58 | the same towards SQ |
| `Queues.AqSqManager.GetNextNode` | src/aq_sq_manager.cpp:60-96 | the node served, the queue it is from, and the rotated queues, in all four cases; `Queues.ServedFrom` and `Queues.InterleavedExactly` say what these are |
| `Queues.ServedFrom` | src/aq_sq_manager.cpp:60-96 | the node served is said to be from SQ exactly when it is in SQ, and from AQ exactly when it is in AQ |
| `Queues.InterleavedExactly` | src/aq_sq_manager.cpp:78-95 | over every run a sleeping node is served exactly when one is queued and either nobody is active or `ratio` services of active nodes have passed since the last one served between them |
| `Queues.RunPartition` | src/aq_sq_manager.cpp:9-96 | over every run the queues are duplicate-free, disjoint, mirrored by their sets, and hold exactly the nodes ever added |
| `Queues.SqStep` | src/aq_sq_manager.cpp:22-96 | no operation but its own waking lengthens a sleeping node's wait, and each service of another node shortens it |
| `Queues.AqStep` | src/aq_sq_manager.cpp:22-96 | the same for active nodes |
| `Queues.SleepingNodeServed` | src/aq_sq_manager.cpp:22-96 | a node asleep at position p is served within (p + 1)(ratio + 1) calls under arbitrary migrations of other nodes |
| `Queues.ActiveNodeServed` | src/aq_sq_manager.cpp:22-96 | a node active at position p is served within 2p + 2 calls under arbitrary migrations of other nodes |
| `Queues.SleepingWaitExact` | src/aq_sq_manager.cpp:78-95 | while a node is active and nobody migrates, a sleeping node is not served before its rank, so the bound is reached |
| `Watchdog.ServerScheduler.CalculateNextWindow` | src/server_scheduler.cpp:27-78 | record, granted window and migration after a report, unknown node and missing manager included; `Watchdog.RunRecords`, `Watchdog.GrantExactly` and `Watchdog.ActiveExactly` say what they are over runs |
| `Watchdog.ServerScheduler.GetNextNodeToServe` | src/server_scheduler.cpp:80-109 | the next node and its time, nothing without nodes or manager; which time is said by `Watchdog.TimeExactly` |
| `Watchdog.TimeExactly` | src/server_scheduler.cpp:80-109 | over every run: 15 ms exactly for a node in SQ, its recorded window for one in AQ, nothing for node 255 or without nodes |
| `Watchdog.RunRecords` | src/server_scheduler.cpp:27-78 | over every run the record is fixed by the node's reports: asleep with 50 ms after three quiet reports or without use, after full use 100 ms more than the grant within the cap, after partial use 50 ms more than the use |
| `Watchdog.GrantExactly` | src/server_scheduler.cpp:33-77 | over every run a quiet report that is the first or second in a row returns the grant and leaves the recorded window; every other report returns the recorded window |
| `Watchdog.GrowthExactly` | src/server_scheduler.cpp:53-65 | for every cap of 50 or more: r reports of full use give min(50 + 100r, cap) for every r if and only if cap + 100 fits 16 bits |
| `Watchdog.WindowsGrow` | src/server_scheduler.cpp:53-65 | the same for any cap up to 654 reports |
| `Watchdog.CycleBound` | src/server_scheduler.cpp:19-25 | the cap never grows with the number of nodes, and n - 1 caps stay below 5000 ms if and only if n <= 34 |
| `Watchdog.ActiveExactly` | src/server_scheduler.cpp:33-77 | over every run a node is active after an event exactly when it reports 5 ms or more, or was active and this is not at least its third quiet report in a row by the byte counter |
| `Watchdog.ReportAgrees` | src/server_scheduler.cpp:27-78 | a report keeps flags, counters and queues in agreement |
| `Watchdog.StartAgrees` | src/server_scheduler.cpp:7-9 | setting a node up keeps the agreement if and only if the node is not active |
| `Watchdog.StartAgainExample` | src/server_scheduler.cpp:7-9 | set up, active, set up again: the agreement is broken |
| `Watchdog.RunAgrees` | src/server_scheduler.cpp:7-109 | over every run in which no active node is set up, in_aq is membership in AQ and the byte counter is the number of quiet reports in a row modulo 256 |
| `Watchdog.AgreesExactly` | src/server_scheduler.cpp:7-109 | the agreement holds at every moment of a run if and only if no active node is set up in it |
| `Watchdog.OnceIsInactive` | src/server_scheduler.cpp:7-9 | setting nodes up once is enough for that |
| `Watchdog.RunCounts` | src/server_scheduler.cpp:7-109 | over every run, however nodes are set up, the queues partition the nodes and the byte counter is the number of quiet reports in a row modulo 256 |
| `Watchdog.LeavesOnlyAfterSilence` | src/server_scheduler.cpp:33-48 | in every run a node leaves AQ only on a report under 5 ms that is at least the third in a row |
| `Watchdog.CapExceeded` | src/server_scheduler.cpp:53-77 | a report sets a window above the cap if and only if it is a partial use whose 16-bit sum with the margin exceeds the cap |
| `Watchdog.CapExceededExample` | src/server_scheduler.cpp:19-77 | ten nodes, 290 of 300 ms used: 340 ms |
| `Watchdog.MinimumMissed` | src/server_scheduler.cpp:55-65 | a report sets a window below the minimum if and only if grant plus step wraps to less than it |
| `Watchdog.MinimumMissedExample` | src/server_scheduler.cpp:55-65 | with ten nodes a window reached by reports, 65465 ms, fully used, becomes 29 ms |
| `Watchdog.WindowsDrift` | src/server_scheduler.cpp:67-77 | reports that use all but one millisecond of the last window raise it by 49 ms each, whatever the cap |
| `Mavlink.BytesPartitioned` | wfb_ng/mavlink_protocol.py:103-135 | every byte is in exactly one message, skipped, or still waiting; messages are whole frames and skipped bytes start none |
| `Mavlink.ScanConcat` | wfb_ng/mavlink_protocol.py:98-135 | scanning in two parts and keeping what waits is scanning the whole |
| `Mavlink.ChunkIndependence` | wfb_ng/mavlink_protocol.py:89-135 | however a stream is cut into chunks, the output is that of the whole stream |
| `Mavlink.FramesSplit` | wfb_ng/mavlink_protocol.py:103-135 | a batch of whole frames splits into exactly these frames |
| `Mavlink.DecodeEncoded` | wfb_ng/mavlink_protocol.py:70-78 | a packet of either version put together from header, payload, checksum and signature is one frame and is read back as it was |
| `Mavlink.EncodeDecoded` | wfb_ng/mavlink_protocol.py:103-135 | every frame is such a packet |
| `Mavlink.Parser.Send` | wfb_ng/mavlink_protocol.py:89-135 | one chunk gives the messages of old rest and chunk; trimming the buffer is invisible |
| `Mavlink.Parser.TakeFrames` | wfb_ng/mavlink_protocol.py:103-135 | the inner loop takes exactly the scan's messages and leaves its rest |
| `Mavlink.SplitStream` | wfb_ng/mavlink_protocol.py:81-135 | a splitter fed chunk by chunk outputs the messages of the whole stream |
| `Aggregation.ProxyProtocol.FlushQueue` | wfb_ng/proxy.py:44-52 | a fired timer sends the queue as one batch, or is left behind when nothing has size |
| `Aggregation.ProxyProtocol.MessageReceived` | wfb_ng/proxy.py:62-85 | direct, dropped, batch sent first, queued, timer set: all cases, the failing cancel included; when a batch is sent is said by `Aggregation.SendsExactly` |
| `Aggregation.SendsExactly` | wfb_ng/proxy.py:62-85 | a message sends the waiting ones, as one batch, if and only if it could be queued but not with them; otherwise it joins them |
| `Aggregation.FireSends` | wfb_ng/proxy.py:44-52 | the timer sends all that waits as one batch |
| `Aggregation.BatchesFull` | wfb_ng/proxy.py:44-85 | while the timer does not fire, every batch with the first message of the next is more than a batch can hold |
| `Aggregation.RunGood` | wfb_ng/proxy.py:44-85 | for non-empty messages and any firing of the timer: batches fit, the timer is set exactly when messages wait, batches and queue are the messages taken in order |
| `Aggregation.StepTimely` | wfb_ng/proxy.py:44-85 | every event, empty messages included: no error, batches fit, nothing lost or reordered; size right, and the timer set exactly when messages wait, stay so if and only if the timer does not fire over empty messages only |
| `Aggregation.RunTimely` | wfb_ng/proxy.py:44-85 | over every run a fired timer is left behind if and only if at some moment the timer fires over a queue of empty messages; otherwise all of the above holds of the whole run |
| `Aggregation.StalledForever` | wfb_ng/proxy.py:44-85 | after such a moment no batch ever leaves and what is queued stays queued, whatever follows |
| `Aggregation.EmptyMessageStalls` | wfb_ng/proxy.py:44-85 | an empty message to an empty queue and its timer: a message then waits without a timer, and the next that does not fit raises an error |
| `Aggregation.EmptyMessageHarmless` | wfb_ng/proxy.py:44-85 | an empty message followed by another before the timer does no harm |
| `Aggregation.SplitBatch` | wfb_ng/proxy.py:189-196 | a batch is split as the splitter splits it |
| `Aggregation.MavlinkIdentity` | wfb_ng/proxy.py:44-202 | aggregating frames and splitting the batches gives back the frames in order |
| `Aggregation.TunnelIdentity` | wfb_ng/tuntap.py:156-202 | packets framed, aggregated and unpacked come out unchanged and in order |
| `Aggregation.TunTapProtocol.Write` | wfb_ng/tuntap.py:156-178 | writes the whole packets of the batch and drops a damaged tail |
| `Aggregation.TunTapProtocol.DataReceived` | wfb_ng/tuntap.py:200-202 | the packet with its length goes to the queue; a length that does not fit is an error |
| `Bytes.UnpackPacked` | wfb_ng/tuntap.py:163-202 | unpacking undoes packing |
| `Bytes.PrefixFormat` | wfb_ng/tuntap.py:200-202 | the length comes first, high byte first, in packing and unpacking |
| `Bytes.CleanIsPacked` | src/wfb_tun.c:230-261 | a batch of whole packets is the packing of its unpacking |
| `Tunnel.Sender.TunRead` | src/wfb_tun.c:118-167 | the packet is appended within the buffer of two MTU and the machine takes its read step: read again only while there is room |
| `Tunnel.Sender.SocketWrite` | src/wfb_tun.c:169-227 | by socket or timer: the datagram is the packets of the batch, at most an MTU, and the machine takes its send step |
| `Tunnel.RunOnCourse` | src/wfb_tun.c:118-227 | over every order of callbacks: groups sent and buffer are the packets read in order, no group exceeds a datagram, the device is read only with room, and a packet never waits without a pending callback |
| `Tunnel.DatagramsFull` | src/wfb_tun.c:118-227 | with aggregation, while the timer does not fire, every datagram with the packet after it would exceed an MTU |
| `Tunnel.OnePerDatagram` | src/wfb_tun.c:118-227 | without aggregation every datagram is one packet |
| `Tunnel.Drained` | src/wfb_tun.c:169-227 | after any course, four more callbacks of socket and timer send everything that was read |
| `Tunnel.EverythingSent` | src/wfb_tun.c:118-227 | with a read and these callbacks for each packet, all packets are read and sent, in order |
| `Tunnel.Sender.constructor` | src/wfb_tun.c:494-523 | the tunnel starts reading with nothing buffered |
| `Tunnel.Send` | src/wfb_tun.c:118-227 | for every packet sequence and every order of callbacks: one datagram per group of the machine, at most an MTU of whole packets; as many packets read as the machine reads; the rest within two MTU |
| `Tunnel.Receiver.SocketRead` | src/wfb_tun.c:264-297 | a datagram is taken up to the buffer size, a ping skipped |
| `Tunnel.Receiver.TunWrite` | src/wfb_tun.c:230-261 | one whole packet is written; the assertions hold exactly when there is one |
| `Tunnel.Receiver.Receive` | src/wfb_tun.c:230-297 | a datagram runs through without failing an assertion if and only if what fits the buffer is whole packets, which are then written in order |
| `Tunnel.Link` | src/wfb_tun.c:118-297 | the far device gets exactly the packets of the groups sent, unchanged and in order; with those still in the buffer they are the packets read |
| `Radiotap.PaddingAligns` | src/radiotap.c:267-271 | the padding arithmetic gives the least aligned offset |
| `Radiotap.SkipWords` | src/radiotap.c:122-153 | the bitmap words are accepted exactly when all lie within the stated length, and the data starts behind them |
| `Radiotap.Init` | src/radiotap.c:93-160 | a header is accepted exactly when version, length and bitmap words fit; only header bytes are read |
| `Radiotap.StepOk` | src/radiotap.c:211-364 | every step keeps the iterator's invariant and uses up bitmap |
| `Radiotap.Iterator.Next` | src/radiotap.c:208-365 | the in-place loop ends and computes the specified next field |
| `Radiotap.Iterator.NextBitOrField` | src/radiotap.c:211-364 | one turn of the loop, all cases |
| `Radiotap.NextProper` | src/radiotap.c:208-365 | a field returned lies within it_len, is aligned and has its defined size; the walk goes on behind it |
| `Radiotap.NextDefined` | src/radiotap.c:235-253 | without bit 18 in default-namespace words, no unset pointer is used and fields do not overlap |
| `Radiotap.WalkProper` | src/radiotap.c:208-365 | every walk over an accepted header ends, with proper fields only |
| `Radiotap.DefinedHeaderWalk` | src/radiotap.c:93-365 | the same for whole headers, in order and without overlap |
| `Radiotap.WalkHeader` | src/radiotap.c:93-365 | initialising and calling until the end returns the specified walk |
| `Radiotap.PlainHeader` | src/radiotap.c:21-365 | an accepted header of any number of words, all in the default namespace, without undefined bits and long enough for its fields, yields exactly the present fields of every word, where the format puts them |
| `Radiotap.FieldShape` | src/radiotap.c:21-47 | every field is as long as its integers together and aligned as the largest of them |
| `Radiotap.NumberFormat` | src/radiotap.c:107-129 | lengths and bitmap words are read with the low byte first |
| `Radiotap.VendorCovers` | src/radiotap.c:273-291 | a vendor namespace of owner, kind, length and data is found as one field that covers exactly these bytes, and the walk goes on behind it |
| `Radiotap.UndefinedFieldExactly` | src/radiotap.c:208-365 | for every accepted header: the walk uses the unset pointer if and only if it reaches bit 18 of a default-namespace word before vendor data, with all fields before it fitting and nothing ending the walk |
| `Radiotap.UndefinedFieldFirst` | src/radiotap.c:235-251 | the simplest case, a word whose lowest bit is 18 |
| `Radiotap.SetPointer` | src/radiotap.c:286-291 | after vendor data no walk uses an unset pointer |
| `Radiotap.UndefinedFieldExample` | src/radiotap.c:235-251 | an accepted eight-byte header that does so |

## Left out

- Cipher, keys, session packets and their hashing: replaced by the authenticated channel; a session is a number.
- The bypass branch of `send_packet` and the token emitter, which write buffer 0 but transmit the current one.
- Radio, sockets, packet capture, injection, event library and command lines: callbacks and methods are called with what arrives.
- Threads, workers, `wfb_core.cpp`, `rx_demux.cpp`, `tx_worker.cpp`, `scheduler_worker.cpp`, `tun_reader.cpp`.
- Receive statistics other than the loss, override and recovery counters; antenna selection; the packet-loss listener.
- Aggregator.Aggregator.ProcessPacket: one session; switching to a new session is a new object. Counters of bad and unique packets are not kept.
- EndToEnd.Link: a session ends after 2^55 blocks, so it takes fewer packets than one session can carry.
- Recovery.ApplyFec: decodes into fresh buffers and writes them back, where the source decodes into the ring's own buffers.
- GaussJordan.InvertMat: matrices are two-dimensional arrays, not flat memory; the row operation is a loop of its own.
- Kernels.AddMulSimd: the arithmetic of the nibble split on any number of lanes; alignment checks and instruction sets are not modelled.
- Codec.FecEncode: buffer alignment errors are not modelled; buffers are taken to be distinct.
- Codec.FecDecode: two packets with the same parity number are excluded by a precondition, since the matrix is then singular (`EncodingMatrix.RepeatedRowSingular`).
- The transmitter's inter-fragment delay and firewall marks.
- Queues.AqSqManager.GetNextNode: the counter of AQ services is unbounded; the lock makes each call one step.
- Mavlink.Parser.Send: the count of skipped bytes, which only reaches a log, and the parsing of payloads beyond their bytes.
- Aggregation.SplitBatch: transport errors while sending, the mirror address and the hooks.
- Aggregation.TunTapProtocol.Write: keepalive semaphores.
- Tunnel.Link: pings; datagrams are delivered in order here, and a lost datagram loses only its own packets.
- Radiotap.Init: vendor namespace definitions are absent, as in the only caller; `is_radiotap_ns` is not kept.
- Small or single-branch files: packet queue, breathing cycle, MAC token, sequence generator, watermark, configuration.
