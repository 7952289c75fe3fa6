# Verification models for CoreLib and the Google Test sources beside it

CoreLib is a small library for inter-process communication: a growable byte buffer (`Message`), an event loop that other
threads can wake (`Looper`), and connected channels over packet sockets (`Channel`, `Socket`). The Google Test sources that
the repository carries hold its hardest algorithms. This project models both and proves what they promise, for all inputs,
all runs and all interleavings.

| module | what it models |
|---|---|
| `EditDistance`, `UnifiedDiff` | the edit script behind equality failures, and its printing as hunks with context |
| `Regex`, `Glob` | the two backtracking matchers, against declarative languages |
| `Message`, `Growth` | the byte buffer, and the bit arithmetic of its growth |
| `Looper` | the wake protocol as a state machine over interleaved steps, and the loop as code that runs it |
| `Channel` | a connected pair of channels as a machine over two ordered packet queues, and the socket and channel objects that run it |
| `Registry`, `UnitTest`, `RandomOrder`, `FisherYates`, `Visits`, `Sharding`, `ShardSizes`, `TestProgram` | registration, shuffling, the repeat loop, filtering and sharding of tests, and a whole test program |
| `Utf8`, `Xml` | encoders and escapers, each with a reader that undoes them |
| `Numbers`, `Argv`, `DeathTestFlag` | number parsers, the command line, and the flag a death-test child receives |
| `Primes`, `Queue` | the prime tables and the linked queue of the samples |
| `Bytes`, `CText`, `Arithmetic`, `Sequences` | octets, and text, division and concatenation facts that several modules use |

Code that works in place is modelled in place: tables, arrays, buffers, linked nodes and object fields are updated by methods
whose postconditions tie the new state to a function of the old one, and the lemmas are about those functions. A vector or
list is a sequence that its owner reassigns; `ShuffleRange` hands the shuffled vector back to the owner for that.

What the models take from outside as parameters: whether an allocation succeeds, which failure a socket call meets and how
often it blocks first, which source the wait set returns, the clock, the environment variables, whether `char` is signed, and
whether `wchar_t` has two bytes.

## Where the code differs from what it says

The models follow the code. These differences are stated by lemmas:

- `CalculateOptimalEdits` does not always return an optimal script. When add and remove tie below replace, the branch test
  falls through to replace. `ResultOptimalIff` and `OptimalIffCleanScript` say exactly when the returned script is optimal,
  `OptimalEverywhereIff` and `OptimalIffNoTie` when the whole table is.
- `RE::FullMatch` accepts a mere prefix when the pattern ends in an escaped dollar, because `Init` looks only at the last
  character before it adds the end anchor (`FullMatchIsMembershipIff`).
- `Message_NextPOTSize` need not return a power of two above 2^32 where `size_t` has 64 bits (`RoundedFailsAbove`);
  `RoundedIsPow2Iff` says when it does.
- `Message::decode` compares with the capacity, not with the data (`DecodePastTheData`). `DecodesStayInDataIff` and
  `SenderDecodesStayInDataIff` say exactly when no decode leaves the data.
- `CodePointToUtf8` promises to spell out everything above U+10FFFF, but does so only above 0x1FFFFF (`SpelledOutIff`); the
  code points between get four octets, and surrogates three. `ScalarValuesAreUtf8` says which outputs RFC 3629 allows. Code
  point zero yields the empty string; `ReadsBackIff` says exactly which texts survive.
- `HybridPrimeTable::GetNextPrime(-1)` is 2 or -1 depending on the table that answers.
- `IsValidXmlCharacter` takes a `char`: where that is signed, every non-ASCII byte counts as invalid and is dropped
  (`ValidPartIsAllIff`). Carriage returns in text and CDATA do not survive an XML reader (`LinesIsIdentityIff`).
- `ParseNaturalNumber` also accepts the 2^31 largest 64-bit numbers and turns them into negative ints, although it promises
  positive ones (`DecimalIsAccepted`).
- A file name with a vertical bar makes the death-test child abort (`RoundTripIff`).

## Model

| member | source | states |
|---|---|---|
| EditDistance.CalculateOptimalEdits | Test/GoogleTest/src/gtest.cc:991-1047 | The tables are filled and read back in place; the result is a script that consumes left, produces right and matches only equal elements. It weighs no less than the true optimum and no more than the length difference plus 1.00001 times the shorter length, is a cheapest of all scripts if and only if the last cell can be reached cleanly, and is all matches exactly when the inputs are equal. |
| EditDistance.FillCell | Test/GoogleTest/src/gtest.cc:1009-1034 | One step of the double loop writes exactly one cell of both tables, from its three neighbours, with the branch test as written (a tie of add and remove below replace falls through to replace). |
| EditDistance.PathAligns | Test/GoogleTest/src/gtest.cc:1037-1046 | From any cell the reconstruction ends at the origin, yields an alignment of the two prefixes, and the moves on it add up to the cell: the path table and the cost table agree. |
| EditDistance.EditsAreAScript | Test/GoogleTest/src/gtest.cc:991-1047 | The script read back from the last cell is valid, weighs what the last cell says, and is bounded by the diagonal script. |
| EditDistance.AllMatchIffEqual | Test/GoogleTest/src/gtest.cc:991-1047 | The script is all kMatch if and only if the two sequences are equal. |
| EditDistance.OptimumIsLeast | Test/GoogleTest/src/gtest.cc:991-1034 | The independent reference: the optimum is the least weight of any script at all aligning the two prefixes, and no other number is. |
| EditDistance.MatchIsNeverWorse | Test/GoogleTest/src/gtest.cc:1011-1017 | Exchange argument: at an equal pair taking the match is optimal over all scripts, so not looking at the three other moves loses nothing. |
| EditDistance.OptimalEverywhereIff | Test/GoogleTest/src/gtest.cc:1019-1034 | For inputs of any size, every cell is the least weight over all scripts if and only if no mismatching cell falls through to replace with add or remove no dearer than it. |
| EditDistance.NoTieWithReplace | Test/GoogleTest/src/gtest.cc:1019-1034 | Parity: while the shorter input has under 100000 elements, add and remove never tie with replace at any cell. |
| EditDistance.OptimalIffNoTie | Test/GoogleTest/src/gtest.cc:1019-1034 | With under 100000 elements on the shorter side, the table is optimal if and only if no mismatching cell has add == remove < replace. |
| EditDistance.ResultOptimalIff | Test/GoogleTest/src/gtest.cc:1009-1046 | For inputs of any size, a cell, and with it the script read back from it, is the least of all scripts if and only if the cell can be reached cleanly: on the borders, over equal pairs that are kept, and at mismatches that do not fall through from a neighbour on a cheapest way that is itself reached so. |
| EditDistance.OptimalIffCleanScript | Test/GoogleTest/src/gtest.cc:1009-1046 | The same about scripts: the result is optimal if and only if some cheapest script that keeps every equal pair it comes to meets no cell that falls through, and then the returned script is such a one. |
| EditDistance.TieOnPathIsNotOptimal | Test/GoogleTest/src/gtest.cc:1019-1034 | Whenever the reconstructed path runs through a cell that falls through, the result is strictly worse than the optimum: minimality fails for the whole family. |
| EditDistance.SwappedPairIsNotOptimal | Test/GoogleTest/src/gtest.cc:1019-1034 | [p,q,p] against [q,p,q] gets three replaces (300003) although a script of weight 200000 exists, for all p != q. |
| EditDistance.InternalStrings.GetId | Test/GoogleTest/src/gtest.cc:1053-1061 | Equal strings get equal ids and different strings different ones, for ever: no earlier id changes. |
| EditDistance.SamePatternSamePath | Test/GoogleTest/src/gtest.cc:1067-1081 | The script depends only on which elements are equal to which, over any two element types. |
| EditDistance.CalculateOptimalEditsOfLines | Test/GoogleTest/src/gtest.cc:1067-1081 | Going through interned ids gives the very script of the lines themselves. |
| UnifiedDiff.CreateUnifiedDiff | Test/GoogleTest/src/gtest.cc:1166-1226 | For every left, right and context >= 1 the hunks are the maximal groups of changes with context, ascending and disjoint, each a slice of left and a slice of right with header counts that match its body; applying them to left gives right, and there are none exactly when the texts are equal. Context 0 emits nothing. |
| UnifiedDiff.Hunk.PushLine | Test/GoogleTest/src/gtest.cc:1098-1114 | Buffering removals ahead of pending additions never changes what either side of the hunk reads: each side only grows at its end, and the counters count. |
| UnifiedDiff.Hunk.Print | Test/GoogleTest/src/gtest.cc:1116-1155 | The header, computed from counters before the pending lines are flushed, gives the start and the length of each side that changes; within a group removals come before additions. |
| UnifiedDiff.FillHunk | Test/GoogleTest/src/gtest.cc:1186-1218 | The inner loop stops at the end or where the next change is at least context away; what it pushed is exactly the edits it passed, and neighbouring changes in it are closer than twice the context. |
| UnifiedDiff.NextHunk | Test/GoogleTest/src/gtest.cc:1174-1223 | One turn of the outer loop yields the next hunk, beginning no earlier than where the last one ended, with the asked-for context on both sides. |
| UnifiedDiff.PatchRestores | Test/GoogleTest/src/gtest.cc:1166-1226 | Round trip: a patch tool that checks every removed and context line accepts the hunks on left and produces right. |
| UnifiedDiff.EmptyIffEqual | Test/GoogleTest/src/gtest.cc:1166-1226 | The diff is empty if and only if the texts are equal. |
| UnifiedDiff.StartLinesAgree | Test/GoogleTest/src/gtest.cc:1138-1155 | The side the header leaves out is determined by the other: the two start lines differ by the net growth of the earlier hunks. |
| UnifiedDiff.CoveredIffNear | Test/GoogleTest/src/gtest.cc:1176-1210 | An edit is shown in some hunk if and only if it is a change or lies within context of one. |
| Glob.PatternMatchesIff | Test/GoogleTest/src/gtest.cc:446-461 | The backtracking matcher terminates and decides declarative glob matching of the pattern up to its first colon or end. |
| Glob.MatchesFilter | Test/GoogleTest/src/gtest.cc:463-482 | True if and only if some colon-separated segment of the filter matches the name. |
| Glob.FilterMatchesTest | Test/GoogleTest/src/gtest.cc:484-510 | A test is selected if and only if its full name matches the part before the first dash (everything if that part is empty) and nothing after it. |
| Glob.PlainNameSelectsItself | Test/GoogleTest/src/gtest.cc:446-510 | A filter that is a full name without special characters selects that test and no other. |
| Glob.DashExcludes | Test/GoogleTest/src/gtest.cc:484-510 | What stands behind the first dash excludes exactly what it accepts by itself, and with nothing in front of the dash everything else is selected. |
| Glob.PlainNameExcludesItself | Test/GoogleTest/src/gtest.cc:484-510 | A dash and a full name without special characters selects every test but that one. |
| Glob.OneToken | Test/GoogleTest/src/gtest.cc:446-461 | A question mark stands for any one character, a star for any text, every other character for itself alone. |
| Glob.GlobConcat | Test/GoogleTest/src/gtest.cc:446-461 | A pattern made of two matches exactly the texts that split into a match of each, so with the tokens the whole language of patterns is fixed. |
| Glob.AcceptsEither | Test/GoogleTest/src/gtest.cc:463-482 | A colon between two filters accepts what either accepts. |
| Regex.ValidateRegex | Test/GoogleTest/src/gtest-port.cc:641-694 | The loop over characters decides the grammar of valid patterns from the start position; a null pattern is invalid. |
| Regex.ValidIffPrinted | Test/GoogleTest/src/gtest-port.cc:641-694 | The accepted texts are exactly the printed forms of syntax trees, so the trees are the patterns. |
| Regex.PrintIsInjective | Test/GoogleTest/src/gtest-port.cc:641-694 | Unique parsing: no text is the printed form of two syntax trees. |
| Regex.MatchRepetitionAndRegexAtHead | Test/GoogleTest/src/gtest-port.cc:704-727 | The loop over repetition counts is true if and only if some prefix is in the language of the repeated atom followed by the rest. |
| Regex.MatchRegexAtHead | Test/GoogleTest/src/gtest-port.cc:731-757 | True if and only if some prefix of the text (all of it, for a pattern ending in $) is in the language. |
| Regex.MatchRegexAnywhere | Test/GoogleTest/src/gtest-port.cc:767-780 | True if and only if some substring, anchored as written, is in the language; false on null arguments. |
| Regex.RE.PartialMatch | Test/GoogleTest/src/gtest-port.cc:796-798 | For any valid pattern, true if and only if some substring anchored as written is in its language; never true for an invalid one. |
| Regex.RE.FullMatch | Test/GoogleTest/src/gtest-port.cc:790-793 | For any valid pattern, true if and only if the whole text is in its language; where the pattern ends in an escaped dollar, if and only if some prefix is. |
| Regex.RE.Init | Test/GoogleTest/src/gtest-port.cc:801-830 | The compiled object is well formed: validity, the pattern, and the anchored pattern are as the two matchers need them. |
| Regex.FullTextIsPattern | Test/GoogleTest/src/gtest-port.cc:815-830 | Adding anchors to the text of a pattern gives the text of the same pattern with both anchors, except the end anchor when it ends in an escaped dollar. |
| Regex.FullMatchIsMembershipIff | Test/GoogleTest/src/gtest-port.cc:790-830 | For every pattern: full matching coincides with membership of the whole text on all texts if and only if the pattern does not end in an escaped dollar. |
| Regex.AtomMatchesIff | Test/GoogleTest/src/gtest-port.cc:612-631 | The case distinction on escapes decides, for every atom and every character, membership in the class of the atom: the ten digits, the six blanks, the word characters, their complements, all but the newline for the dot, one character for anything else. |
| Regex.ValidEscapeIff | Test/GoogleTest/src/gtest-port.cc:605-608 | The escapes accepted are the eleven class letters and the ASCII punctuation. |
| Regex.RepeatLaws | Test/GoogleTest/src/gtest-port.cc:704-727 | A repeated atom, unrolled: none or one for a question mark, none or one more for a star, at least one for a plus. |
| Regex.ConcatLaw | Test/GoogleTest/src/gtest-port.cc:731-757 | A pattern of two parts matches exactly the texts that split into a match of each. |
| Regex.LiteralLaw | Test/GoogleTest/src/gtest-port.cc:731-757 | A pattern of plain characters without dots matches its own text and no other. |
| Regex.FindsIffBetween | Test/GoogleTest/src/gtest-port.cc:767-780 | What is searched for stands between two pieces of the text, the first empty under a leading anchor and the second under a trailing one. |
| Regex.LiteralSearch | Test/GoogleTest/src/gtest-port.cc:767-780 | A literal pattern is found in exactly the texts that contain it. |
| Growth.NextPOTSize | Source/Message.cpp:52-62 | The step-by-step smearing computes the word function the lemmas below are about, including the wrap-around at zero. |
| Growth.RoundedIsLeastPow2 | Source/Message.cpp:52-62 | For 1 <= x <= 2^32 the bit smearing returns the least power of two that is at least x, below twice x. |
| Growth.RoundedAtLeast | Source/Message.cpp:52-89 | Up to 2^63 it never returns less than it was asked for, so the assertion in the resize never fails. |
| Growth.RoundedFailsAbove | Source/Message.cpp:52-62 | For 2^32 + 1 the result is 2^33 - 1, no power of two: five shifts smear only 32 bits. |
| Growth.RoundedIsPow2Iff | Source/Message.cpp:52-62 | Up to 2^63 the result is a power of two if and only if the argument less one has no 32 clear bits in a row below its top bit. |
| Growth.RoundedWraps | Source/Message.cpp:52-62 | Zero is rounded to zero, and above 2^63 the result is at least the argument or has wrapped to zero. |
| Message.Message.Reserve | Source/Message.cpp:64-70 | Succeeds if and only if there is room or the allocation succeeds; capacity never shrinks, nothing already written changes, and on failure nothing at all. |
| Message.Message.ResizeBuffer | Source/Message.cpp:72-100 | Replaces the buffer by a larger one with the old bytes in front, or leaves everything as it was. |
| Message.Message.Encode | Headers/Message.h:53-63 | Appends the value to the data, or on a failed allocation leaves the message unchanged; capacity is the old one or the rounded length, and the growth invariant is kept. |
| Message.Message.Decode | Headers/Message.h:65-76 | Succeeds exactly within the allocation and then returns the next bytes and advances; a failed decode changes nothing. |
| Message.GrowthKept | Source/Message.cpp:52-100 | One reallocation: all capacities given up so far still sum to less than the new capacity, which is below twice the data length. |
| Message.EncodeAll | Headers/Message.h:53-63 | Any sequence of values under any pattern of allocation failures: which encodes succeed and which capacity and length result is exactly what the values and allocations determine, the data is the concatenation of the values that succeeded, and growth is amortised. |
| Message.SucceededIff | Headers/Message.h:53-63 | In any run the k-th encode succeeds if and only if its value fits in the capacity that the earlier ones have left or the allocation it needs is granted. |
| Message.AllAllocatedAllSent | Headers/Message.h:53-63 | With every allocation granted every value is sent. |
| Message.DecodeAll | Headers/Message.h:65-76 | A message built from the data decodes to the same values in order and rejects any further non-empty decode. |
| Message.Transfer | Headers/Message.h:53-76 | The whole round trip through data() and size(): the receiver decodes exactly the values whose encode succeeded, in order, and then rejects every further decode; with the amortised bound on the bytes moved. |
| Message.DecodesStayInDataIff | Headers/Message.h:65-76 | On any message, the non-empty decodes that go through all end within the data if and only if the capacity is the data length or everything has been read. |
| Message.NothingLeftOverIff | Headers/Message.h:53-76 | A message that has only been encoded to has capacity equal to its data length if and only if that length is a power of two. |
| Message.SenderDecodesStayInDataIff | Headers/Message.h:53-76 | So decoding from the sender itself stays within the data if and only if the data length is a power of two. |
| Message.DecodePastTheData | Headers/Message.h:65-76 | A failing run: four bytes are read out of a message holding three. |
| Looper.Looper.Loop | Source/Looper.cpp:69-97 | loop() as written, with any steps of other threads before each of its own and any answers of the wait set: what it does is a run of the protocol, it takes all the turns it is given unless it returns or nothing answers its wait, and it has returned exactly with the flag cleared. With the flag already up it returns within three turns; after a terminate() of another thread it returns within five more, unless it still waits, and with an answer left it then waits only for a token that a caller of terminate() is about to write. |
| Looper.Looper.Reader | Source/LooperSource.cpp:55-62 | Whenever the loop is woken by the trivial source its reader finds a whole token at the head of the pipe, removes exactly it, and the short-read assertion holds. |
| Looper.StepKeepsInvariant | Source/Looper.cpp:69-102 | Every step of every thread keeps the protocol invariant: the pipe is a whole number of tokens, and a loop waiting with the flag set has a pending writer or a token. |
| Looper.RunKeepsInvariant | Source/Looper.cpp:69-102 | The invariant holds throughout every interleaving. |
| Looper.ReachableIsSafe | Source/LooperSource.cpp:55-70 | In every reachable state the pipe holds whole tokens, the short-read assertion cannot fail, no wake-up is lost, and loop() has returned at most as often as terminate() was called. |
| Looper.NeverStuck | Source/Looper.cpp:69-102 | A raised loop can always take a step, or a pending writer can take it out of the wait. |
| Looper.RaisedLoopReturns | Source/Looper.cpp:80-97 | From a raised flag, in any run with at least five steps of the looping thread, loop() returns, whatever the other threads do. |
| Looper.TerminateMakesLoopReturn | Source/Looper.cpp:69-102 | In any run in which terminate() is called while loop() runs, loop() returns within five of its own steps, whatever the other threads and sources do. |
| Looper.HistoryTells | Source/Looper.cpp:69-102 | In every interleaving the steps taken tell the whole state: each call of terminate() is pending until its token is written, each written token lies in the pipe until the reader runs that it has woken the loop for, the flag is up exactly between a call and the next return, and the loop stands where its own last step and the last test of the flag have left it. |
| Channel.Socket.Close | Source/Socket.cpp:136-146 | True exactly for the first call; afterwards the handle is gone and both ends see it. |
| Channel.Socket.WriteMessage | Source/Socket.cpp:252-333 | Temporary and permanent failure and success are told apart; exactly on success the packet joins the queue, whole and last. |
| Channel.Socket.ReadMessages | Source/Socket.cpp:155-250 | Returns a prefix of the queue in order; what is left and which status comes back are determined, including packets read in the same drain as end-of-stream. |
| Channel.Channel.Terminate | Source/Channel.cpp:53-63 | The first call closes, disconnects, discards what was not read and calls the termination callback; any later call changes nothing. |
| Channel.Channel.SendMessage | Source/Channel.cpp:111-126 | True exactly when the packet has joined the queue and the kernel has taken it, and nothing joins otherwise; with the peer gone the channel terminates, on any other failure nothing at all changes. |
| Channel.Channel.ReadMessageOnHandle | Source/Channel.cpp:128-150 | The whole new state of the end: how many packets the drain takes, the callbacks for each in order with whatever they send or terminate, and only then what the status of the drain calls for. |
| Channel.ReceivedSound | Source/Channel.cpp:128-150 | A drain keeps delivered and still queued packets together exactly what the kernel took, also when it meets end-of-stream, an empty packet or an error, and when callbacks terminate the channel in between. |
| Channel.EverythingIsDelivered | Source/Socket.cpp:155-250 | A drain without error delivers everything that was sent, also when the peer has closed in the meantime, and then terminates. |
| Channel.Channel.TryConnect | Source/Channel.cpp:69-78 | Connected afterwards if and only if already connected or the endpoint accepts an open handle; a closed channel never reconnects. |
| Channel.Execute | Source/Channel.cpp:53-150 | Each operation on one end has exactly the effect the machine gives it on that end, and the other end sees exactly that; the two stay linked. |
| Channel.RunPair | Source/Channel.cpp:45-150 | Over every sequence of operations on both ends with any failures, the two objects stand exactly where the machine stands. |
| Channel.DeliveryIsSafe | Source/Channel.cpp:45-150 | Over every such sequence each side has been delivered a prefix of what the other sent successfully, all of the rest is in flight while the receiver is open, and a termination callback has been called exactly once for an end that is closed and never for one that is open. |
| Channel.NeverReconnected | Source/Channel.cpp:53-78 | An end that is closed at any point of a run is closed and unconnected at every later point. |
| Channel.SendArrives | Source/Channel.cpp:111-126 | At any point of any run with both ends open, a send that the kernel takes appends the packet to what was sent and to what waits at the other end, for either end. |
| Channel.SendIsReceived | Source/Channel.cpp:111-150 | Sent and then drained without error, the message is the last one delivered, behind everything sent before. |
| Channel.SendFails | Source/Channel.cpp:111-126 | At any point of any run, a send that the kernel refuses changes neither end, and one that finds the peer closed closes the sender and sends nothing. |
| Channel.DrainIs | Source/Socket.cpp:155-250 | A drain ends at the error of the kernel, at the end of the queue or at an empty packet, whichever is first, and its status says which. |
| Channel.ReactionLaws | Source/Channel.cpp:128-150 | One call of the callback: what it does to the channel, it does, and doing nothing leaves all but the delivery as it was. |
| Channel.CallbackTerminates | Source/Channel.cpp:128-150 | If the callback for any drained message terminates the channel, it is closed afterwards, whatever the later callbacks do. |
| Channel.CallbackReplies | Source/Channel.cpp:128-150 | If the callback answers every drained message, exactly the answers are sent, in the order of the messages, and exactly the drained messages are delivered. |
| Primes.PrimeAbove | Test/GoogleTest/samples/prime_tables.h:69-77 | There is a prime above every number, so the unbounded search ends. |
| Primes.OnTheFlyPrimeTable.IsPrime | Test/GoogleTest/samples/prime_tables.h:58-67 | Trial division up to the square root decides primality, for every integer. |
| Primes.OnTheFlyPrimeTable.GetNextPrime | Test/GoogleTest/samples/prime_tables.h:69-77 | The least prime above p, for p >= 0; -1 below. |
| Primes.PreCalculatedPrimeTable.CalculatePrimesUpTo | Test/GoogleTest/samples/prime_tables.h:102-114 | The sieve in place: afterwards a number is marked if and only if it is prime. |
| Primes.PreCalculatedPrimeTable.MarkMultiples | Test/GoogleTest/samples/prime_tables.h:106-113 | One round strikes out exactly the proper multiples of i, starting late or not. |
| Primes.PreCalculatedPrimeTable.IsPrime | Test/GoogleTest/samples/prime_tables.h:89-91 | True if and only if prime and within the table. |
| Primes.PreCalculatedPrimeTable.GetNextPrime | Test/GoogleTest/samples/prime_tables.h:93-99 | The least prime above p if the table has one, else -1. |
| Primes.HybridPrimeTable.IsPrime | Test/GoogleTest/samples/sample8_unittest.cc:62-67 | Equals primality for every integer, whichever table answers. |
| Primes.HybridPrimeTable.GetNextPrime | Test/GoogleTest/samples/sample8_unittest.cc:69-75 | The least prime above p for p >= 0, whichever table answers; for p == -1 the answer depends on the table, and below it is -1. |
| Primes.IsPrimeByOddDivision | Test/GoogleTest/samples/sample1.cc:47-68 | Odd trial division with the early exit by quotient decides primality, for every integer. |
| RandomOrder.Random.Generate | Test/GoogleTest/src/gtest.cc:297-312 | The generator advances its linear congruence, and the result is below the range. |
| RandomOrder.GetNextRandomSeed | Test/GoogleTest/src/gtest-internal-inl.h:151-157 | The next seed is in 1..99999 again, so its range check never fails. |
| RandomOrder.GetRandomSeedFromFlag | Test/GoogleTest/src/gtest-internal-inl.h:135-147 | Any flag and any clock give a seed in 1..99999. |
| RandomOrder.ShuffleRange | Test/GoogleTest/src/gtest-internal-inl.h:311-328 | The swap loop is the shuffle function of the generator state. |
| RandomOrder.ShuffleRearranges | Test/GoogleTest/src/gtest-internal-inl.h:311-328 | The range is permuted and nothing outside it moves, for every state, list and range. |
| FisherYates.EveryArrangementOnce | Test/GoogleTest/src/gtest-internal-inl.h:311-328 | Fisher-Yates: of distinct elements every rearrangement of the range, and nothing else, is reached, each by exactly one vector of draws d[k] <= k. |
| FisherYates.ShuffledIsArranged | Test/GoogleTest/src/gtest-internal-inl.h:311-328 | The shuffle is the arrangement reached by the draws of the generator, and it takes one draw less than there are elements. |
| FisherYates.DrawIs | Test/GoogleTest/src/gtest.cc:297-312 | The draw made among k + 1 elements is the state of the generator then reached, modulo k + 1. |
| FisherYates.NextStateIs | Test/GoogleTest/src/gtest.cc:297-312 | The generator is the congruence x to 1103515245 x + 12345 on 31 bits, although the source computes in 32. |
| FisherYates.ShuffledLast | Test/GoogleTest/src/gtest-internal-inl.h:322-327 | The last place gets the element that the next state of the generator picks among all of the range. |
| FisherYates.OrderIsArranged | Test/GoogleTest/src/gtest.cc:4888-4900 | The order of a shuffled iteration: death-test cases, other cases and the tests of each case are the arrangements by one uninterrupted run of draws from the seed. |
| FisherYates.UnshuffledIsRegistered | Test/GoogleTest/src/gtest.cc:4571-4635 | Without shuffling every iteration keeps registration order, whatever the seed. |
| FisherYates.SeedAtIs | Test/GoogleTest/src/gtest-internal-inl.h:151-157 | The seeds of successive iterations count up by one, from 99999 back to 1. |
| FisherYates.FirstSeedIs | Test/GoogleTest/src/gtest-internal-inl.h:135-147 | A seed flag in range is the seed; otherwise the seed is the raw 32-bit value, or the clock for a zero flag, up to multiples of 99999. |
| RandomOrder.IterationIsComplete | Test/GoogleTest/src/gtest.cc:4888-4910 | Whatever the seed, the order of an iteration is a permutation of the cases with the death-test cases first, and a permutation of the tests within each case. |
| UnitTest.TestCase.AddTestInfo | Test/GoogleTest/src/gtest.cc:2709-2712 | A test is appended and the test order stays the registration order. |
| UnitTest.TestCase.Run | Test/GoogleTest/src/gtest.cc:2715-2746 | Of a selected case the marked tests are visited, in index order, and no others. |
| UnitTest.UnitTestImpl.GetTestCase | Test/GoogleTest/src/gtest.cc:4460-4493 | A case is found by name or made; a death-test case joins the death-test prefix, any other the end, and the index vector stays in registration order. |
| UnitTest.UnitTestImpl.AddTestInfo | Test/GoogleTest/src/gtest-internal-inl.h:654-674 | Registering a test enters it in its case, made if need be, and changes nothing else that is registered. |
| Registry.RegistryIsRight | Test/GoogleTest/src/gtest.cc:4460-4493 | After any sequence of registrations every case is there once, the death-test cases first, with exactly the tests declared for it in the order of their declarations, and no case is missing. |
| Registry.CasesAreInOrder | Test/GoogleTest/src/gtest.cc:4476-4493 | Among the death-test cases, and among the others, the cases are registered in the order of their first declarations. |
| Registry.DeathTestCaseIff | Test/GoogleTest/src/gtest.cc:4476-4478 | A case counts as a death-test case exactly when its name ends in DeathTest or has DeathTest and a slash in it. |
| TestProgram.RegisterAll | Test/GoogleTest/src/gtest-internal-inl.h:654-674 | The registry object, after any sequence of registrations, holds just that. |
| UnitTest.UnitTestImpl.GetMutableTestCase | Test/GoogleTest/src/gtest-internal-inl.h:593-596 | The case at a position of the shuffled order, null out of range. |
| UnitTest.UnitTestImpl.ShuffleTests | Test/GoogleTest/src/gtest.cc:4888-4900 | Death-test cases are shuffled among themselves, the others among themselves, then the tests of every case, all from one generator. |
| UnitTest.UnitTestImpl.UnshuffleTests | Test/GoogleTest/src/gtest.cc:4903-4910 | Registration order is restored. |
| UnitTest.UnitTestImpl.RepeatTests | Test/GoogleTest/src/gtest.cc:4571-4635 | Any number of iterations: each visits exactly the order that its seed and the registration determine, and registration order is there again afterwards. |
| TestProgram.RunAllTests | Test/GoogleTest/src/gtest.cc:4509-4640 | Sharding decision, filtering and repeat loop together: the program exits or its log is, iteration for iteration, what registrations, flags, environment and seeds determine; inside a death test there is one iteration. |
| TestProgram.RunProgram | Test/GoogleTest/src/gtest.cc:4509-4640 | The same from the declarations of the tests on. |
| Visits.IterationVisitsEverything | Test/GoogleTest/src/gtest.cc:4571-4635 | Each iteration visits every case exactly once, all death-test cases first. |
| Visits.IterationRunsSelectedOnce | Test/GoogleTest/src/gtest.cc:2586-2587 | In each iteration, shuffled or not, a test runs exactly once if it and its case are marked, else not at all. |
| Visits.IterationKeepsOrder | Test/GoogleTest/src/gtest.cc:2730-2746 | The cases, and of each case the tests that run, come in the order of the iteration: in registration order unless it is shuffled. |
| TestProgram.RunsOnceOrNever | Test/GoogleTest/src/gtest.cc:4509-4640 | In every iteration of a program a test runs once if it is runnable and its number belongs to this shard, else never. |
| TestProgram.EachTestRunsOnOneShard | Test/GoogleTest/src/gtest.cc:4509-4640 | After any registrations, over shards 0..n-1 each seeded and shuffled in its own way, every runnable test is run by exactly one shard, there exactly once in every iteration; a test that is not runnable is run by none. |
| TestProgram.EnvironmentNamesShard | Test/GoogleTest/src/gtest.cc:4668-4746 | With the number of shards and the index of this one in the environment a process runs that shard, with a single shard or neither variable set it runs everything, and inside a death test the variables are not looked at. |
| TestProgram.ExitsIff | Test/GoogleTest/src/gtest.cc:4668-4727 | A program exits before it runs anything exactly when, outside a death test, its two variables stand neither for an index below a number of shards nor for none at all. |
| TestProgram.ShardedProgram | Test/GoogleTest/src/gtest.cc:4509-4640 | n processes of the same declarations, the s-th with the environment of shard s and otherwise seeded, shuffled and repeated in its own way: all of them run, and every runnable test occurs once in every iteration of exactly one log and in no other, any other test in none. |
| TestProgram.UnshardedProgram | Test/GoogleTest/src/gtest.cc:4509-4640 | With neither variable set, or inside a death test, every runnable test runs exactly once in every iteration and no other test does. |
| TestProgram.ProgramKeepsOrder | Test/GoogleTest/src/gtest.cc:4571-4635 | The i-th iteration of a program visits the cases, and the tests of each, in the order that the i-th seed determines, or in registration order without the shuffle flag. |
| TestProgram.DeclaredIsRegistered | Test/GoogleTest/src/gtest.cc:4460-4493 | Every declared test is registered, in the case of its name. |
| Visits.IterationIsReproducible | Test/GoogleTest/src/gtest.cc:4555-4635 | A run given the seed printed for some iteration of another run visits in its first iteration what that iteration visited. |
| Sharding.ShouldShard | Test/GoogleTest/src/gtest.cc:4668-4727 | The program exits exactly when, outside a subprocess, a variable is set to no 32-bit number or the two are inconsistent; sharding happens exactly with a valid index among several shards. |
| Sharding.FilterTests | Test/GoogleTest/src/gtest.cc:4742-4793 | Every test is marked exactly if it is runnable and its running number belongs to this shard, a case exactly if one of its tests is, and the count returned is the number of marked tests. |
| Sharding.FilterCase | Test/GoogleTest/src/gtest.cc:4748-4791 | The same for one case, carrying the running number over from the earlier cases. |
| Sharding.ExactlyOneShard | Test/GoogleTest/src/gtest.cc:4731-4733 | Every running number belongs to exactly one shard. |
| Sharding.ShardSize | Test/GoogleTest/src/gtest.cc:4731-4793 | How many of the first n runnable tests a shard selects, exactly. |
| Sharding.ShardsAreBalanced | Test/GoogleTest/src/gtest.cc:4731-4793 | Any two shards differ by at most one test. |
| Sharding.ShardsCoverEverything | Test/GoogleTest/src/gtest.cc:4731-4793 | The shard sizes add up to the number of runnable tests. |
| ShardSizes.NumbersAscend | Test/GoogleTest/src/gtest.cc:4752-4785 | The runnable tests are numbered upwards in registration order, below their total: a test that is not runnable takes no number. |
| ShardSizes.ShardedSize | Test/GoogleTest/src/gtest.cc:4731-4793 | Every iteration of the process of shard s among n runs the n-th part of all runnable tests, rounded up in the first shards and down in the others, however it is shuffled. |
| ShardSizes.UnshardedSize | Test/GoogleTest/src/gtest.cc:4742-4793 | Every iteration of a program that is not sharded runs as many tests as are runnable. |
| Sharding.DisabledIff | Test/GoogleTest/src/gtest.cc:4763-4768 | A test is disabled exactly when the name of its case or its own begins with DISABLED_ or has that behind a slash. |
| Sharding.RunnableLaws | Test/GoogleTest/src/gtest.cc:4776-4778 | Asking for disabled tests too makes runnable exactly what the filter selects; without it the disabled ones are taken out and no others; a full name as filter leaves that one test. |
| Utf8.CodePointToUtf8 | Test/GoogleTest/src/gtest.cc:1722-1750 | The chopping of low bits computes the encoding the lemmas are about; above 0x1FFFFF the code point is spelled out in hexadecimal. |
| Utf8.DecodeInvertsEncoded | Test/GoogleTest/src/gtest.cc:1722-1750 | For 1..0x1FFFFF, whatever follows, a decoder by the bit layout reads the code point back and stops where its encoding ends. |
| Utf8.PrefixFree | Test/GoogleTest/src/gtest.cc:1722-1750 | No encoding is a prefix of the encoding of another code point. |
| Utf8.ScalarValuesAreUtf8 | Test/GoogleTest/src/gtest.cc:1722-1750 | Up to 0x1FFFFF the output is a UTF8-char of section 4 of RFC 3629 if and only if the code point is a Unicode scalar value. |
| Utf8.DecodeInvertsEncodedAll | Test/GoogleTest/src/gtest.cc:1786-1807 | The decoder inverts the encoding of every text of code points 1..0x1FFFFF. |
| Utf8.WideStringToUtf8 | Test/GoogleTest/src/gtest.cc:1786-1807 | The output is the encoding, one after the other, of the code points of the string up to its end or the limit; surrogates without a partner, or cut off from it by the limit, stand for themselves. |
| Utf8.Utf16ReadsBack | Test/GoogleTest/src/gtest.cc:1757-1807 | Any two-byte wide string without NUL, well formed or not, decodes to its code points. |
| Utf8.Utf16RoundTrip | Test/GoogleTest/src/gtest.cc:1757-1773 | Text encoded as in section 2.1 of RFC 2781 denotes that text again. |
| Utf8.ReadsBackIff | Test/GoogleTest/src/gtest.cc:1722-1807 | A text of any code points reads back if and only if all of them are in 1..0x1FFFFF: a zero, or one above, anywhere breaks it. |
| Utf8.SpelledOutIff | Test/GoogleTest/src/gtest.cc:1717-1725 | A code point is spelled out if and only if it is above 0x1FFFFF. |
| Utf8.HexReads | Test/GoogleTest/src/gtest.cc:1929-1933 | The number spelled out is the code point, in upper-case hexadecimal digits without leading zeros. |
| Xml.EscapeXml | Test/GoogleTest/src/gtest.cc:3428-3470 | Read back as an attribute between either kind of quotes (sections 3.3.3 and 4.6 of XML 1.0) the output is the input without invalid characters; as text, the same up to line ends. |
| Xml.AttributeRoundTrip | Test/GoogleTest/src/gtest.cc:3428-3470 | The attribute form is read back to the valid part of the input, for every input and either quote. |
| Xml.TextRoundTrip | Test/GoogleTest/src/gtest.cc:3428-3470 | After the normalisation of section 2.11 the text form is read back to the normalised valid part of the input. |
| Xml.EscapedIffNeeded | Test/GoogleTest/src/gtest.cc:3431-3467 | A character is written as itself exactly when it is valid and not special where it stands, and dropped exactly when it is invalid. |
| Xml.PlainIsKept | Test/GoogleTest/src/gtest.cc:3428-3470 | Text without characters that are special where it stands is written as it is. |
| Xml.LinesIsIdentityIff | Test/GoogleTest/src/gtest.cc:3428-3470 | Text survives the normalisation exactly if it has no carriage return. |
| Xml.ValidPartIsAllIff | Test/GoogleTest/src/gtest.cc:3310-3317 | Nothing is dropped exactly when every character may stand in XML and, where char is signed, is ASCII. |
| Xml.CharsIff | Test/GoogleTest/src/gtest.cc:3310-3317 | The white space the writer treats apart is tab, line feed and carriage return. |
| Xml.RemoveInvalidXmlCharacters | Test/GoogleTest/src/gtest.cc:3474-3483 | Keeps the valid characters in order and no others. |
| Xml.OutputXmlCDataSection | Test/GoogleTest/src/gtest.cc:3540-3557 | Reading the output as CDATA sections and text (section 2.7) gives the data back, wherever and however often the end mark occurs in it, exactly if the data is made of XML characters; with line ends normalised first, the normalised data. |
| Xml.ValidPartIsXml | Test/GoogleTest/src/gtest.cc:3474-3483 | What the report writer passes on, having removed invalid characters, is made of XML characters. |
| Xml.CDataReadsBack | Test/GoogleTest/src/gtest.cc:3540-3557 | The same about the cut sections themselves, by induction on the occurrences of the end mark. |
| Xml.LinesOfSegments | Test/GoogleTest/src/gtest.cc:3540-3557 | Normalising line ends commutes with cutting: it neither makes nor removes an end mark. |
| Numbers.ParseInt32Reads | Test/GoogleTest/src/gtest-port.cc:1103-1139 | A streamed number is read back, exactly within 32 bits. |
| Numbers.SignedNumber | Test/GoogleTest/src/gtest-port.cc:1103-1139 | White space in front and a sign are read over, and the digits give the value. |
| Numbers.JunkBehindDigits | Test/GoogleTest/src/gtest-port.cc:1103-1139 | Anything behind the digits makes the text no number. |
| Numbers.NoDigitsNoNumber | Test/GoogleTest/src/gtest-port.cc:1103-1139 | Without a digit there is no number, except that the empty text is zero. |
| Numbers.ParseNaturalNumber | Test/GoogleTest/src/gtest-internal-inl.h:976-1013 | Accepts exactly digit strings whose value an int holds, or is one of the 2^31 largest of 64 bits, which come out negative. |
| Numbers.DecimalIsAccepted | Test/GoogleTest/src/gtest-internal-inl.h:976-1013 | Of all unsigned numbers in decimal, those an int holds come back unchanged, the 2^31 largest of 64 bits come back negative (the largest as -1), and the others are refused. |
| Numbers.StreamedReads | Test/GoogleTest/src/gtest-internal-inl.h:976-1013 | A streamed int is read back if and only if it is not negative. |
| Numbers.DigitIff | Test/GoogleTest/src/gtest-port.cc:1103-1139 | The ten digits with their values, and the six characters of white space that the number parser of the C library skips. |
| Argv.OneFlagPerArgument | Test/GoogleTest/src/gtest.cc:4964-5049 | No argument sets two different flags. |
| Argv.RecognisedIff | Test/GoogleTest/src/gtest.cc:5187-5213 | The chain of parsers sets a flag exactly when that flag's own parser accepts the argument, wherever it stands in the chain. |
| Argv.WrittenFlagIsRead | Test/GoogleTest/src/gtest.cc:4964-5049 | Every flag written out with a value is read back: any text, any 32-bit number, both truth values. |
| Argv.RunFlagsAsTyped | Test/GoogleTest/src/gtest.cc:5187-5213 | The flags that decide which tests run, in which order and how often, as they are typed on the command line. |
| Argv.BoolValueIs | Test/GoogleTest/src/gtest.cc:4998-5011 | A Bool flag is false exactly for values that begin with 0, f or F, and true without a value. |
| Argv.ValuesTaken | Test/GoogleTest/src/gtest.cc:4964-5049 | A string flag takes any value, an Int32 flag exactly what its parser accepts, and neither goes without a value. |
| Argv.HelpWordsAsk | Test/GoogleTest/src/gtest.cc:5227-5232 | Each of the four help words sets no flag and asks for help. |
| Argv.UnknownFlagAsksForHelp | Test/GoogleTest/src/gtest.cc:5054-5061 | What is spelled like a flag, with any of the three dashes and either separator, and sets none asks for help, unless it is internal. |
| Argv.NullIsPassedOver | Test/GoogleTest/src/gtest.cc:5176-5186 | A null argument sets no flag and does not ask for help. |
| Argv.ShiftLeft | Test/GoogleTest/src/gtest.cc:5214-5221 | The inner loop takes out one element and moves the rest and the terminator down; nothing behind changes. |
| Argv.ParseGoogleTestFlagsOnly | Test/GoogleTest/src/gtest.cc:5176-5234 | argv[0] and exactly the unrecognised arguments are left, argc is their number, null stands from argv[argc] on, and flags and help request are what the arguments in order make of them. |
| Argv.UnrecognisedIsSelection | Test/GoogleTest/src/gtest.cc:5176-5234 | What is left stands at increasing positions of the original, which are the positions of all unrecognised arguments. |
| Argv.ParsedTwice | Test/GoogleTest/src/gtest.cc:5176-5234 | Parsing what is left changes neither the arguments nor the flags. |
| Argv.LastSettingWins | Test/GoogleTest/src/gtest.cc:5176-5234 | A flag has the value that the last argument naming it gives it. |
| DeathTestFlag.SplitString | Test/GoogleTest/src/gtest-death-test.cc:1210-1227 | The fields between delimiters, the empty ones included. |
| CText.SplitOfJoin | Test/GoogleTest/src/gtest-death-test.cc:1210-1227 | Splitting undoes joining fields that do not hold the delimiter. |
| CText.JoinOfSplit | Test/GoogleTest/src/gtest-death-test.cc:1210-1227 | Joining undoes splitting, and no field holds the delimiter. |
| DeathTestFlag.ChildArguments | Test/GoogleTest/src/gtest-death-test.cc:1115-1123 | Both added arguments are recognised by the child's parser, as the filter and as the internal flag with the value meant. |
| DeathTestFlag.ParseInternalRunDeathTestFlag | Test/GoogleTest/src/gtest-death-test.cc:1298-1340 | Absent for the empty value, else the four fields or an abort. |
| DeathTestFlag.RoundTripIff | Test/GoogleTest/src/gtest-death-test.cc:1115-1340 | The child reads back file, line, index and descriptor if and only if the file name has no vertical bar and no number is negative; otherwise it aborts. |
| DeathTestFlag.ParsedIff | Test/GoogleTest/src/gtest-death-test.cc:1298-1340 | Only the empty value is no flag; a death test is named exactly by four fields without bars of which the last three are numbers, and everything else aborts. |
| DeathTestFlag.ChildRunsTheDeathTest | Test/GoogleTest/src/gtest-death-test.cc:1103-1340 | The whole way over the command line: the two arguments leave argv, the filter selects the one test, and the flag names the death test. |
| Queue.Queue.Enqueue | Test/GoogleTest/samples/sample3-inl.h:116-127 | The new node joins the end of the acyclic chain, the element the end of the sequence, and last_ and size_ follow. |
| Queue.Queue.Dequeue | Test/GoogleTest/samples/sample3-inl.h:131-147 | The oldest element comes out and its node is deleted; null and no change on the empty queue. |
| Queue.Queue.Clear | Test/GoogleTest/samples/sample3-inl.h:83-99 | Every node is deleted exactly once while the loop only reads live ones; no node ever made by the queue is left alive. |
| Queue.Queue.Map | Test/GoogleTest/samples/sample3-inl.h:153-160 | A new queue of the images in order, sharing no node; the source is not modified. |
| Queue.RunHistory | Test/GoogleTest/samples/sample3-inl.h:77-147 | Any history of calls on the linked nodes answers and ends as on a sequence. |
| Queue.FirstInFirstOut | Test/GoogleTest/samples/sample3-inl.h:116-147 | Without Clear, what came out followed by what is still in line is what went in, in order. |
| Queue.ClearStartsAfresh | Test/GoogleTest/samples/sample3-inl.h:83-99 | After Clear the queue behaves as a new one, whatever happened before. |

## Left out

- Floating-point rounding of the edit costs: they are integers here, 100000 and 100001 for the source's 1 and 1.00001.
- The text of a printed hunk: hunks stay structured as start lines, header ranges and tagged lines.
- Text bounds: the subject of a regular expression is shorter than `SIZE_MAX`, and C strings hold no NUL.
- Primes.PreCalculatedPrimeTable.GetNextPrime: requires p >= -1, because below that the source reads in front of its array.
- Channel callbacks that are set or replaced after the channel is in use.
- Weak memory and the data race on the plain flag of the looper: every assignment, test, read and write is one atomic step.
- `terminate()` before the trivial source exists, and `terminate()` from the looping thread itself with a full pipe.
- Kernel behaviour below the packet queue, the token pipe and "connect or close on -1 fails"; epoll, kqueue, timers, shared memory, `fork` and `exec`.
- Channel.Socket.ReadMessages: requires at most one descriptor per packet, because the writer packs several into one control record while the reader asserts one per record.
- The broken-pipe signal, a callback that enters the loop again, and the unchecked allocation in the copying constructor of `Message`.
- Message lengths above 2^63, which no allocation satisfies; the amortised bound is stated up to 2^32.
- `Message` attachments beyond what a packet carries through the channel.
- Server, SharedMemory, WaitSet, the platform files, Lock, RingBuffer and Layer: wrappers with no hard invariant.
- Test bodies, results, event listeners, exceptions and console output: a run is the sequence of tests visited.
- TestProgram.RunAllTests: a negative repeat count, which means for ever, is any finite number of iterations here, and an iteration never fails; the help and list flags, which end the program before it runs tests, are not modelled.
- TestProgram.RegisterAll: at most 2^31 tests, the range of the shuffling generator.
- The const `GetTestCase(int)` accessor, which indexes by registration number.
- Overflow of `int` in the prime samples: integers are unbounded there.
- The Windows variants of the parsers, and `ParseInt32` where `long` has 32 bits.
- Argv.ParseGoogleTestFlagsOnly: printing the help text and the warnings of the number parser.
- Xml.Read: markup other than CDATA sections, decimal references, and references above #x7F, none of which the writer produces.
- The report files around the escaped text, date formatting, and the failure and value printers.
- The 32-bit wide strings with code points above 0x1FFFFF in the reading-back lemmas: `Utf8.WideStringToUtf8` covers them, but what it writes for them is prose.
