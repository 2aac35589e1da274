# Verified models of libosal and the googletest it ships

libosal is a thin layer over operating system calls. It holds a few stateful cores of its own (a binary
semaphore, the queue macros, a log ring in shared memory, a timing trace), and its tree carries googletest
1.14.0, with more algorithmic ones. This project models both kinds in Dafny and proves what they are for.
`dafny verify dfyconfig.toml` checks everything.

| file | models | central result |
|---|---|---|
| BipartiteMatching.dfy | the matching behind `UnorderedElementsAre` | one search per left node is enough for a maximum matching; the matcher accepts exactly what can be paired |
| MatchMatrix.dfy | the connectivity matrix, filled from the matchers, and as a counter | the answer in terms of the matchers; every graph comes up exactly once |
| TailQueue.dfy, SingleTailQueue.dfy, CircleQueue.dfy, Members.dfy | the TAILQ, STAILQ (SIMPLEQ) and CIRCLEQ macros | every operation refines its sequence operation and keeps all links consistent |
| SimpleRegex.dfy, RegexMatcher.dfy | validator, backtracking matcher, class `RE` | the matcher decides the declarative language; when exactly `FullMatch` means the whole string |
| LiteralPrinter.dfy | printing strings as C++ literals | when exactly the C++ lexer reads the string back |
| Utf8.dfy | the UTF-8 recogniser | it accepts exactly section 4 of RFC 3629, which is uniquely decodable |
| DecimalPrinter.dfy | printing 128-bit integers | the text denotes the value; no word overflows |
| BinarySemaphore.dfy | the POSIX binary semaphore as steps of any number of threads | linearizable to an atomic bit; when exactly no wakeup is lost |
| Expectations.dfy, Worklist.dfy, Digraph.dfy | expectation prerequisites and the calls that retire them | when exactly the traversals end, and what they find; an invariant of every run |
| Shuffle.dfy, Generator.dfy | `ShuffleRange` and its generator | draws and permutations correspond one to one; the generator has full period |
| Base64.dfy, Bytewise.dfy | `Base64Unescape` | it undoes every spelling of an encoding |
| LogRing.dfy | the message ring of `osal_printf` | it refines a queue that drops its oldest message |
| Trace.dfy | the double-buffered trace and its statistics | the last block is complete; what average and jitters mean |
| Basics.dfy | shared definitions | |

## How the model is built

Objects that the source updates in place are classes here, and loops are loops: each method is proved
against a function or a predicate, and the lemmas say what those mean. Where a proof needs history (all
messages ever written, all times ever traced, the members of a queue in order) a ghost field carries it.
Pointers that name a pointer variable (`tqe_prev`, `tqh_last`) are values of a datatype `Slot`: the first field
of a head or the next field of an element. The cast with which TAILQ_LAST and TAILQ_PREV read an element's
entry as a head is the function `LastFieldOf`.

The semaphore is a transition system. A step is one statement of one thread, or a thread leaving the condition
variable without a signal, spuriously or because its time is up. A signal unblocks at least one blocked thread
and possibly more (IEEE Std 1003.1-2017, `pthread_cond_signal`); a woken thread competes for the mutex again.
A timed wait whose time is up at that moment may consume the signal and still report the timeout (same standard,
`pthread_cond_timedwait`); the state records whether only such waits got the last signal. A timeout that comes
before the signal but is not yet noticed is the same step.

Unsigned arithmetic is modelled with its width where it can matter: 64-bit sums and differences wrap in the
trace, ring indices are 32 bits wide while the number of messages is 64 bits wide, and the words of the 128-bit
printer are a type in which leaving the range would be an error.

## What turned out to be different from the documentation

- `RE::FullMatch` is documented to match the entire string. For a pattern that ends in an escaped `$` the code
  takes that `$` for the anchor and appends none, so `\$` fully matches `$x`. `FullMatchExact` gives the exact
  condition, `FullMatchTooWeak` the example.
- A NUL character is printed as `\0`. An octal digit after it becomes part of the escape when the text is read
  as C++. `PrintLexExact` gives the exact condition, `NulBeforeOctalLost` the example.
- A wakeup of the semaphore can be lost. `osal_binary_semaphore_timedwait` does not test the value again after
  a timeout. If it has consumed a signal meant for any waiter, another waiter stays blocked although the value is 1,
  and later posts find the value at 1 and do not signal. `LostWakeup` is such a run; `LostStaysLost` and
  `LostUntilWoken` say what repairs it (no post does). `NeverLostExact` gives the exact condition on the calls:
  it cannot happen without timed waits, or without posts. For each run, `NoLostWakeup` says that nothing is lost
  unless the last signal was consumed in this way; ordinary timeouts do no harm.
- `AllPrerequisitesAreSatisfied` and `FindUnsatisfiedPrerequisites` keep no record of what they have visited, so they
  need not end when prerequisites form a cycle (`RetireAllPreRequisites` ends on every graph).
  `AllPrerequisitesEndExact` and `FindUnsatisfiedEndExact` give the exact conditions: the first can loop only on a
  cycle of satisfied expectations, the second only if they have not been called either. Nothing stops a sequence from
  being given an expectation that it already holds further back, which closes a cycle:
  `Sequence.AddExpectation` states exactly when, and `RepeatedExpectationCloses` with `RepeatedPairNeverEnds` is the
  failing example (a, b and a again, neither of which needs to be called). Expectations as `EXPECT_CALL` creates them
  never close a cycle.
- `osal_binary_semaphore_trywait` returns OSAL_ERR_BUSY where its header comment promises OSAL_ERR_TIMEOUT. The
  model follows the code.
- The average jitter of the interval analysis divides the cnt - 1 squares by cnt. The model follows the code.

## Model

| member | source | states |
|---|---|---|
| `BipartiteMatching.MaxBipartiteMatchState.Compute` | googletest-1.14.0/googlemock/src/gmock-matchers.cc:132-163 | For every graph the returned pairs are a matching of maximum cardinality, although each left node is searched only once; the links end up mutually referent and the search is never started from a used node |
| `BipartiteMatching.MaxBipartiteMatchState.TryAugment` | googletest-1.14.0/googlemock/src/gmock-matchers.cc:184-208 | A failed search changes no link and leaves everything it saw as dead ends (matched, with partners whose edges all lead to seen nodes); a successful one restores mutual reference, turns only the start from unused to used, keeps every used left node used, and touches no node of any closed set given beforehand; the search ends because unseen right nodes run out |
| `BipartiteMatching.MaxBipartiteMatchState.constructor` | googletest-1.14.0/googlemock/src/gmock-matchers.cc:127-129 | All links start unused |
| `BipartiteMatching.AugmentAtFreeNode` | googletest-1.14.0/googlemock/src/gmock-matchers.cc:199-202 | Linking the start of a search to a free right node satisfies the whole contract of a successful search |
| `BipartiteMatching.AugmentThrough` | googletest-1.14.0/googlemock/src/gmock-matchers.cc:199-202 | If the partner of a right node has found another node, although the links are then not mutual, relinking the right node to the start of the search completes a successful search |
| `BipartiteMatching.ClosedPartner` | googletest-1.14.0/googlemock/src/gmock-matchers.cc:137-147 | The partner of a node of a closed, fully matched set has no edge out of that set |
| `BipartiteMatching.DeadEndsExtended` | googletest-1.14.0/googlemock/src/gmock-matchers.cc:185-207 | A failed search through one more edge keeps the account of dead ends |
| `BipartiteMatching.CoverBoundsMatchings` | googletest-1.14.0/googlemock/src/gmock-matchers.cc:137-147 | A closed set that takes in all edges of the unmatched left nodes proves that no matching of the graph has more pairs |
| `BipartiteMatching.PairsFromElements` | googletest-1.14.0/googlemock/src/gmock-matchers.cc:156-162 | The result holds exactly the used entries of left_ |
| `BipartiteMatching.PairsFromDistinct` | googletest-1.14.0/googlemock/src/gmock-matchers.cc:156-162 | No pair is listed twice, so the size of the vector is the size of the matching |
| `BipartiteMatching.FindMaxBipartiteMatching` | googletest-1.14.0/googlemock/src/gmock-matchers.cc:228-230 | A maximum matching of any graph, without repetitions |
| `BipartiteMatching.MaximumDecides` | googletest-1.14.0/googlemock/src/gmock-matchers.cc:437-456 | A maximum matching is as large as one side exactly when that whole side can be assigned injectively along edges |
| `BipartiteMatching.FillFlags` | googletest-1.14.0/googlemock/src/gmock-matchers.cc:391-400 | The flags mark exactly the elements and the matchers that have an edge |
| `BipartiteMatching.VerifyMatchMatrix` | googletest-1.14.0/googlemock/src/gmock-matchers.cc:370-435 | The quick test is true exactly for two empty sides, or when the sizes agree where equality is required and no required matcher or element is isolated |
| `BipartiteMatching.FindPairing` | googletest-1.14.0/googlemock/src/gmock-matchers.cc:437-476 | The pairing is found exactly when the required injections exist (elements into matchers, matchers into elements, or both) |
| `BipartiteMatching.MatchAndExplain` | googletest-1.14.0/googlemock/include/gmock/gmock-matchers.h:3642-3653 | The matcher accepts exactly the containers whose elements can be paired as required |
| `BipartiteMatching.QuickTestSound` | googletest-1.14.0/googlemock/src/gmock-matchers.cc:370-435 | The quick test never rejects what the pairing would accept |
| `Basics.DistinctPairwise` | googletest-1.14.0/googlemock/src/gmock-matchers.cc:437-464 | A sequence of distinct elements is one in which any two positions hold different elements: what injective means for the pairings |
| `MatchMatrices.MatchMatrix.constructor` | googletest-1.14.0/googlemock/include/gmock/gmock-matchers.h:3516-3519 | No pair has an edge at first |
| `MatchMatrices.MatchMatrix.SetEdge` | googletest-1.14.0/googlemock/include/gmock/gmock-matchers.h:3526-3528 | Afterwards the pair has an edge exactly as asked, and every other pair is as before |
| `MatchMatrices.SpaceIndexInjective` | googletest-1.14.0/googlemock/include/gmock/gmock-matchers.h:3540-3542 | Every pair has a place of its own in the stored matrix |
| `MatchMatrices.SpaceIndexRowByRow` | googletest-1.14.0/googlemock/include/gmock/gmock-matchers.h:3540-3542 | The places follow each other as nested loops over elements and matchers visit the pairs |
| `MatchMatrices.AnalyzeElements` | googletest-1.14.0/googlemock/include/gmock/gmock-matchers.h:3656-3682 | The matrix has an edge exactly where the matcher accepts the element |
| `MatchMatrices.CollectResults` | googletest-1.14.0/googlemock/include/gmock/gmock-matchers.h:3660-3671 | The results are collected element by element |
| `MatchMatrices.MatchElements` | googletest-1.14.0/googlemock/include/gmock/gmock-matchers.h:3642-3682 | From what each matcher says of each element to the answer: every matcher gets an element of its own that it accepts (superset), every element a matcher of its own (subset), or both with equal counts (exact match), exactly when the answer is yes |
| `MatchMatrices.SatisfiesMeans` | googletest-1.14.0/googlemock/src/gmock-matchers.cc:437-476 | What is decided on the matrix is that assignment in terms of the matchers |
| `MatchMatrices.MatchMatrix.NextGraph` | googletest-1.14.0/googlemock/src/gmock-matchers.cc:247-259 | One call adds 1 to the matrix read as a binary number, and reports false exactly when that wrapped to the empty graph |
| `MatchMatrices.Carry` | googletest-1.14.0/googlemock/src/gmock-matchers.cc:250-256 | Clearing a set bit moves the carry on |
| `MatchMatrices.StopCarry` | googletest-1.14.0/googlemock/src/gmock-matchers.cc:250-253 | Setting the first clear bit completes the addition |
| `MatchMatrices.IncrementAddsOne` | googletest-1.14.0/googlemock/src/gmock-matchers.cc:247-259 | Increment is addition of one modulo 2 to the number of entries |
| `MatchMatrices.IterateCounts` | googletest-1.14.0/googlemock/src/gmock-matchers.cc:247-259 | k calls from the empty graph give the graph with number k |
| `MatchMatrices.EveryGraphOnce` | googletest-1.14.0/googlemock/src/gmock-matchers.cc:247-259 | Starting from the empty graph every graph comes up at exactly one position of the cycle |
| `TailQueues.TailQueue.constructor` | include/libosal/queue.h:387-390 | A new head is an empty queue |
| `TailQueues.TailQueue.Init` | include/libosal/queue.h:387-390 | Whatever the head held, it is empty afterwards |
| `TailQueues.TailQueue.InsertHead` | include/libosal/queue.h:392-400 | Refines insertion at position 0 and keeps the shape |
| `TailQueues.TailQueue.InsertTail` | include/libosal/queue.h:402-407 | Refines insertion at the end, through the slot in tqh_last |
| `TailQueues.TailQueue.InsertAfter` | include/libosal/queue.h:409-417 | Refines insertion behind a given member |
| `TailQueues.TailQueue.InsertBefore` | include/libosal/queue.h:419-424 | Refines insertion in front of a given member, without a head: the slot that points at the member is overwritten, be it a head field or a link |
| `TailQueues.TailQueue.Remove` | include/libosal/queue.h:426-433 | Refines removal of a member; tqh_last is repaired when it was the last |
| `TailQueues.TailQueue.Concat` | include/libosal/queue.h:445-452 | Appends the second queue to the first and empties the second, also when either is empty |
| `TailQueues.TailQueue.Foreach` | include/libosal/queue.h:435-438 | The forward traversal visits the members in order and ends |
| `TailQueues.TailQueue.ForeachReverse` | include/libosal/queue.h:440-443 | The backward traversal, which reads element entries as if they were heads, visits exactly the reverse |
| `TailQueues.TailQueue.Last` | include/libosal/queue.h:461-462 | TAILQ_LAST is the last member, or NULL |
| `TailQueues.TailQueue.Prev` | include/libosal/queue.h:463-464 | TAILQ_PREV is the member before, or NULL at the front |
| `TailQueues.Store` | include/libosal/queue.h:405 | An assignment through a slot changes that one pointer and nothing beside it |
| `TailQueues.ShapeInserted` | include/libosal/queue.h:392-424 | The links after an insertion at any position describe the longer sequence: each back link names the slot that points at the element, the tail slot the last next field |
| `TailQueues.ShapeRemoved` | include/libosal/queue.h:426-433 | The same for a removal at any position |
| `TailQueues.ShapeConcat` | include/libosal/queue.h:445-452 | The same for a concatenation |
| `Members.ReversedTwice` | include/libosal/queue.h:440-443 | Reversing what the backward traversal visits gives the sequence back |
| `Members.RemoveUndoesInsert` | include/libosal/queue.h:392-433 | Removing the member that an insertion has just put at any position gives back the sequence |
| `SingleTailQueues.SingleTailQueue.Init` | include/libosal/queue.h:228-231 | Whatever the head held, it is empty afterwards |
| `SingleTailQueues.SingleTailQueue.InsertHead` | include/libosal/queue.h:233-237 | Refines insertion at position 0; the tail slot moves when the queue was empty |
| `SingleTailQueues.SingleTailQueue.InsertTail` | include/libosal/queue.h:239-243 | Refines insertion at the end, through the slot in stqh_last |
| `SingleTailQueues.SingleTailQueue.InsertAfter` | include/libosal/queue.h:245-249 | Refines insertion behind a given member; the tail slot moves when that was the last |
| `SingleTailQueues.SingleTailQueue.RemoveHead` | include/libosal/queue.h:251-254 | Refines removal of the first member; the tail slot returns to the head when it was the only one |
| `SingleTailQueues.SingleTailQueue.Remove` | include/libosal/queue.h:256-267 | Refines removal of any member; the search from the front ends at its predecessor |
| `SingleTailQueues.SingleTailQueue.Unlink` | include/libosal/queue.h:263-265 | The removal behind a known predecessor repairs stqh_last when the last member goes |
| `SingleTailQueues.SingleTailQueue.Concat` | include/libosal/queue.h:274-280 | Appends the second queue and empties it |
| `SingleTailQueues.SingleTailQueue.Foreach` | include/libosal/queue.h:269-272 | The traversal visits the members in order and ends |
| `SingleTailQueues.SearchStops` | include/libosal/queue.h:261-262 | The search of STAILQ_REMOVE stops exactly one position before the member, never at NULL |
| `SingleTailQueues.ShapeInserted` | include/libosal/queue.h:233-249 | The links after an insertion at any position describe the longer sequence |
| `SingleTailQueues.ShapeRemoved` | include/libosal/queue.h:251-267 | The same for a removal |
| `SingleTailQueues.ShapeConcat` | include/libosal/queue.h:274-280 | The same for a concatenation |
| `CircleQueues.CircleQueue.constructor` | include/libosal/queue.h:488-491 | A new head is an empty ring: both ends point at the head itself |
| `CircleQueues.CircleQueue.InsertAfter` | include/libosal/queue.h:493-501 | Refines insertion behind a given member |
| `CircleQueues.CircleQueue.InsertBefore` | include/libosal/queue.h:503-511 | Refines insertion in front of a given member |
| `CircleQueues.CircleQueue.InsertHead` | include/libosal/queue.h:513-521 | Refines insertion at position 0 |
| `CircleQueues.CircleQueue.InsertTail` | include/libosal/queue.h:523-531 | Refines insertion at the end |
| `CircleQueues.CircleQueue.Remove` | include/libosal/queue.h:533-544 | Refines removal of a member, at either end or between |
| `CircleQueues.CircleQueue.Foreach` | include/libosal/queue.h:546-549 | The forward traversal visits the members in order and ends at the head |
| `CircleQueues.CircleQueue.ForeachReverse` | include/libosal/queue.h:551-554 | The backward traversal visits exactly the reverse |
| `CircleQueues.CircleQueue.NextAndPrevAreInverse` | include/libosal/queue.h:488-544 | In every valid ring next and prev undo each other, around the head as well as between members |
| `CircleQueues.CircleQueue.LoopsGoAround` | include/libosal/queue.h:565-572 | LOOP_NEXT and LOOP_PREV go around the ends and undo each other |
| `CircleQueues.ShapeInserted` | include/libosal/queue.h:493-531 | The links after an insertion at any position describe the longer ring |
| `CircleQueues.ShapeRemoved` | include/libosal/queue.h:533-544 | The same for a removal |
| `SimpleRegex.CharacterSets` | googletest-1.14.0/googletest/src/gtest-port.cc:737-751 | The character classes are the sets that the source spells out |
| `SimpleRegex.AtomClasses` | googletest-1.14.0/googletest/src/gtest-port.cc:755-785 | What each atom matches: complementary classes, single characters, and the dot for everything but a line end |
| `SimpleRegex.EscapesInGrammar` | googletest-1.14.0/googletest/src/gtest-port.cc:749-751 | A backslash may be followed exactly by the characters that the source lists: punctuation and the class letters |
| `SimpleRegex.SinglesInGrammar` | googletest-1.14.0/googletest/src/gtest-port.cc:824-842 | The patterns of one character are all but a backslash, a repeat and what is unsupported |
| `SimpleRegex.RepeatsInGrammar` | googletest-1.14.0/googletest/src/gtest-port.cc:836-842 | A repeat may follow an atom once, and nothing else |
| `SimpleRegex.RepeatTexts` | googletest-1.14.0/googletest/src/gtest-port.cc:855-859 | Which repeat each of the three characters stands for |
| `SimpleRegex.ParseShow` | googletest-1.14.0/googletest/src/gtest-port.cc:796-847 | Reading a written pattern gives the pattern back: the grammar is unambiguous |
| `SimpleRegex.ShowParse` | googletest-1.14.0/googletest/src/gtest-port.cc:796-847 | Whatever can be read is the text of a well-formed pattern |
| `SimpleRegex.ParseDecidesGrammar` | googletest-1.14.0/googletest/src/gtest-port.cc:796-847 | The reader accepts exactly the grammar: an optional ^, atoms each with at most one repeat, an optional $ |
| `SimpleRegex.ScanEscape` | googletest-1.14.0/googletest/src/gtest-port.cc:807-820 | One turn of the validator on an escape sequence keeps its verdict tied to the rest of the text |
| `SimpleRegex.ScanOther` | googletest-1.14.0/googletest/src/gtest-port.cc:821-843 | The same for any other character, with its four reasons to reject |
| `SimpleRegex.ValidateRegex` | googletest-1.14.0/googletest/src/gtest-port.cc:796-847 | The single pass accepts exactly the strings of the grammar, and rejects a null pointer |
| `RegexMatching.MatchRepetitionAndRegexAtHead` | googletest-1.14.0/googletest/src/gtest-port.cc:856-875 | True exactly when some allowed number of repetitions is followed by a match of the rest; it ends and never reads past the terminating NUL |
| `RegexMatching.MatchRegexAtHead` | googletest-1.14.0/googletest/src/gtest-port.cc:880-904 | True exactly when a prefix of the string (all of it under $) is in the language of the pattern; the recursion ends because the pattern gets shorter |
| `RegexMatching.MatchRegexAnywhere` | googletest-1.14.0/googletest/src/gtest-port.cc:914-924 | True exactly when a substring (a prefix under ^, a suffix under $) is in the language; null pointers never match |
| `RegexMatching.HeadSplits` | googletest-1.14.0/googletest/src/gtest-port.cc:887-903 | A prefix matches exactly when it splits into a match of the first item and a match of the rest |
| `RegexMatching.AnywhereFromHeads` | googletest-1.14.0/googletest/src/gtest-port.cc:917-923 | A substring matches exactly when a prefix of some suffix does |
| `RegexMatching.ItemLanguages` | googletest-1.14.0/googletest/src/gtest-port.cc:849-875 | An atom matches one character; x? that or nothing; x* nothing, or x and x* again; x+ is x and then x* |
| `RegexMatching.LanguageConcat` | googletest-1.14.0/googletest/src/gtest-port.cc:887-903 | Items after items match a word of the first followed by a word of the second |
| `RegexMatching.RE.constructor` | googletest-1.14.0/googletest/src/gtest-port.cc:942-969 | The object is valid exactly for the strings of the grammar, and keeps the text |
| `RegexMatching.RE.BuildFullPattern` | googletest-1.14.0/googletest/src/gtest-port.cc:956-968 | The full pattern is the text with ^ and $ added where its first and last characters are not those |
| `RegexMatching.RE.FullMatch` | googletest-1.14.0/googletest/src/gtest-port.cc:931-933 | For a valid pattern and a string that is not null, what the anchored text matches; otherwise false |
| `RegexMatching.RE.PartialMatch` | googletest-1.14.0/googletest/src/gtest-port.cc:937-939 | True exactly when the pattern is valid, the string is not null and a substring is in the language |
| `RegexMatching.FullPatternParses` | googletest-1.14.0/googletest/src/gtest-port.cc:956-968 | The anchored text is a valid pattern with the same items, anchored at the start, and at the end unless its last $ was escaped |
| `RegexMatching.FullMatchExact` | googletest-1.14.0/googletest/src/gtest-port.cc:930-969 | FullMatch decides membership of the whole string, for every string, if and only if the pattern does not end in an escaped $ |
| `RegexMatching.FullMatchTooWeak` | googletest-1.14.0/googletest/src/gtest-port.cc:966-968 | The pattern \$ fully matches "$x", which is not in its language |
| `RegexMatching.EscapedDollarEndsWords` | googletest-1.14.0/googletest/src/gtest-port.cc:966-968 | Every word of a pattern that ends in an escaped $ ends in $ |
| `LiteralPrinter.PrintAsCharLiteralTo` | googletest-1.14.0/googletest/src/gtest-printers.cc:150-196 | Appends the literal of the character and reports its format |
| `LiteralPrinter.PrintAsStringLiteralTo` | googletest-1.14.0/googletest/src/gtest-printers.cc:200-211 | The same inside a string literal, where the quotes swap their roles |
| `LiteralPrinter.CharLiteralsExact` | googletest-1.14.0/googletest/src/gtest-printers.cc:150-196 | Printable characters other than a quote and a backslash stand for themselves, the control characters with a letter for that letter, all others for their hex digits in upper case |
| `LiteralPrinter.FormatsExact` | googletest-1.14.0/googletest/src/gtest-printers.cc:140-211 | The reported format is the form that was printed |
| `LiteralPrinter.DigitsExact` | googletest-1.14.0/googletest/src/gtest-printers.cc:346-352 | Which characters are digits in escapes, and their values |
| `LiteralPrinter.GapNeeded` | googletest-1.14.0/googletest/src/gtest-printers.cc:346-352 | A literal break stands exactly where the next character would be taken into the hex escape before it |
| `LiteralPrinter.PrintNext` | googletest-1.14.0/googletest/src/gtest-printers.cc:346-355 | One character, after a literal break exactly when a hex escape and a hex digit would run together |
| `LiteralPrinter.PrintCharsAsStringTo` | googletest-1.14.0/googletest/src/gtest-printers.cc:340-363 | Appends the quoted text and reports whether any character needed a hex escape |
| `LiteralPrinter.LexHexEscape` | googletest-1.14.0/googletest/src/gtest-printers.cc:189-190 | A printed hex escape reads back as its character whenever no hex digit follows |
| `LiteralPrinter.LexLiteral` | googletest-1.14.0/googletest/src/gtest-printers.cc:150-211 | Each printed character reads back as itself, in any text that does not extend its escape |
| `LiteralPrinter.LexGap` | googletest-1.14.0/googletest/src/gtest-printers.cc:348-353 | A literal break leaves no trace in what is read |
| `LiteralPrinter.LexNulOctal` | googletest-1.14.0/googletest/src/gtest-printers.cc:154-156 | A printed NUL swallows the one or two octal digits that follow it |
| `LiteralPrinter.PrintLexExact` | googletest-1.14.0/googletest/src/gtest-printers.cc:340-363 | Reading the printed text by the rules of C++ gives back the string if and only if no NUL stands directly before an octal digit |
| `LiteralPrinter.NulBeforeOctalLost` | googletest-1.14.0/googletest/src/gtest-printers.cc:154-156 | A NUL followed by the digit 1 is not read back |
| `Utf8.IsValidUTF8` | googletest-1.14.0/googletest/src/gtest-printers.cc:483-514 | Accepts exactly the concatenations of well-formed sequences of section 4 of RFC 3629, and reads no index at or beyond the length |
| `Utf8.EncodeDecode` | googletest-1.14.0/googletest/src/gtest-printers.cc:489-508 | Every well-formed sequence is the encoding of the scalar it decodes to: no overlong form and no surrogate is accepted |
| `Utf8.DecodeEncode` | googletest-1.14.0/googletest/src/gtest-printers.cc:489-508 | Every scalar value is decoded from its own encoding |
| `Utf8.PrefixFree` | googletest-1.14.0/googletest/src/gtest-printers.cc:486-512 | Two well-formed sequences at the head of one string are the same |
| `Utf8.SplitUnique` | googletest-1.14.0/googletest/src/gtest-printers.cc:486-512 | A string splits into well-formed sequences in one way only |
| `Utf8.WellFormedIsEncoded` | googletest-1.14.0/googletest/src/gtest-printers.cc:483-514 | Accepted strings are exactly the encodings of sequences of scalar values |
| `Utf8.EncodedOnce` | googletest-1.14.0/googletest/src/gtest-printers.cc:483-514 | Two different sequences of scalar values never have the same encoding |
| `Utf8.HeadNeeded` | googletest-1.14.0/googletest/src/gtest-printers.cc:489-511 | The tests of the branches are necessary: a string that fails all of them at its head is not well-formed |
| `DecimalPrinter.DivideByTen` | googletest-1.14.0/googletest/src/gtest-printers.cc:308-320 | One turn divides the two-word number by 10 exactly, with no overflow in any 64-bit intermediate |
| `DecimalPrinter.FormatDigits` | googletest-1.14.0/googletest/src/gtest-printers.cc:297-322 | The loop leaves the decimal form of the value, at most 39 digits, without writing outside the 40 bytes |
| `DecimalPrinter.NextDigit` | googletest-1.14.0/googletest/src/gtest-printers.cc:319-320 | Putting the remainder in front keeps the account of what is printed and what is left to divide |
| `DecimalPrinter.DecimalUnique` | googletest-1.14.0/googletest/src/gtest-printers.cc:291-323 | A number has one decimal form without leading zeros |
| `DecimalPrinter.DigitsSuffice` | googletest-1.14.0/googletest/src/gtest-printers.cc:297-298 | 2^128 has no more than 39 digits |
| `DecimalPrinter.PrintUnsigned` | googletest-1.14.0/googletest/src/gtest-printers.cc:291-323 | Appends the decimal form of every 128-bit value, zero included |
| `DecimalPrinter.PrintSigned` | googletest-1.14.0/googletest/src/gtest-printers.cc:324-331 | Appends a sign and decimal digits; the sign times what the digits denote is the value, for the minimum too |
| `BinarySemaphore.StepInv` | src/posix/binary_semaphore.c:82-179 | Every statement of every thread, every spurious wakeup and every timeout, also one that consumes a signal, keeps the whole invariant |
| `BinarySemaphore.ReachableInv` | src/posix/binary_semaphore.c:82-179 | The invariant holds after every run of any number of threads |
| `BinarySemaphore.ValueIsABit` | src/posix/binary_semaphore.c:82-179 | In every reachable state the value is 0 or 1, and the posts that raised it are as many as the successful waits plus the value |
| `BinarySemaphore.RefinesAtomicSemaphore` | src/posix/binary_semaphore.c:82-179 | Linearizability: the effects of a run form a history of an atomic binary semaphore that ends in the present value; the effects of each thread are, in order, those of its calls, each of the kind that the operation may have and with the result that the call returns |
| `BinarySemaphore.OneEffect` | src/posix/binary_semaphore.c:82-179 | From its start to its return a call has exactly one effect, one of its own kind that agrees with what it returns |
| `BinarySemaphore.TimeoutConsumesNothing` | src/posix/binary_semaphore.c:158-171 | From its start to its return a wait that times out takes nothing: its only effect leaves the value alone, and the call was a timed wait |
| `BinarySemaphore.OnlyWaitsBlock` | src/posix/binary_semaphore.c:107-165 | Only the two waits ever block: neither a post nor a trywait does |
| `BinarySemaphore.TryWaitExact` | src/posix/binary_semaphore.c:123-139 | From its test on a trywait holds the mutex until it returns, and it returns busy exactly when the value was 0 at the test, otherwise it takes the value |
| `BinarySemaphore.OthersStayOut` | src/posix/binary_semaphore.c:82-179 | While a thread is inside, no other changes the value or the log |
| `BinarySemaphore.HolderGoesOn` | src/posix/binary_semaphore.c:82-179 | The thread inside can always go on and lets the mutex go after at most four statements of its own |
| `BinarySemaphore.BlockedCanLeave` | src/posix/binary_semaphore.c:107-165 | A blocked timed wait can time out and then leaves the value alone; any blocked wait can wake for no reason and then looks at the value |
| `BinarySemaphore.ReplayCounts` | src/posix/binary_semaphore.c:82-179 | A legal history of the atomic semaphore conserves the bit |
| `BinarySemaphore.NoLostWakeup` | src/posix/binary_semaphore.c:87-90 | If the value is 1, the mutex is free and some thread is blocked, then a thread woken before takes the value in three steps of its own, unless the signal went to waits whose time was up and to no other |
| `BinarySemaphore.NeverLostExact` | src/posix/binary_semaphore.c:87-90 | For runs with calls of given kinds: no reachable state has the value at 1, a blocked thread and nobody who will notice, if and only if timed waits or posts are not among them |
| `BinarySemaphore.LostWakeup` | src/posix/binary_semaphore.c:159-169 | A signal that goes to a timed wait as its time is up is lost: the timed wait returns without testing the value again, and another waiter stays blocked with the value at 1, the mutex free and nobody else in a call |
| `BinarySemaphore.LostStaysLost` | src/posix/binary_semaphore.c:87-90 | In such a state no post repairs it: a step of a thread ends it exactly when it starts a call other than a post |
| `BinarySemaphore.LostUntilWoken` | src/posix/binary_semaphore.c:107-109 | A thread that wakes by itself ends it exactly when the wakeup is spurious or the thread was the only one blocked |
| `BinarySemaphore.LostWasSwallowed` | src/posix/binary_semaphore.c:159-169 | In every reachable state of that kind the signal went to waits whose time was up and to no other: an ordinary timeout loses nothing |
| `BinarySemaphore.SignalNotices` | src/posix/binary_semaphore.c:89 | A signal that leaves a thread blocked has woken one that will look at the value, unless it was swallowed |
| `BinarySemaphore.ThreadExclusive` | src/posix/binary_semaphore.c:82-179 | Only the holder of the mutex is between lock and unlock |
| `BinarySemaphore.ThreadInformed` | src/posix/binary_semaphore.c:82-179 | What a thread has read of the value still holds when it acts on it |
| `BinarySemaphore.ThreadNoticed` | src/posix/binary_semaphore.c:82-179 | A step of a thread loses no wakeup unless it is a signal that only waits whose time is up consume |
| `BinarySemaphore.ThreadApplies` | src/posix/binary_semaphore.c:82-179 | A step of a thread changes the value exactly as its effect says |
| `BinarySemaphore.ThreadLinear` | src/posix/binary_semaphore.c:82-179 | A step of a thread extends the history legally |
| `BinarySemaphore.ThreadAccount` | src/posix/binary_semaphore.c:82-179 | Every step of a thread has no effect and decides no call, or has one effect, which decides its call and is of the kind of that call |
| `BinarySemaphore.ThreadExplained` | src/posix/binary_semaphore.c:82-179 | A step of a thread keeps effects and calls in correspondence |
| `BinarySemaphore.WakeInv` | src/posix/binary_semaphore.c:107-109 | A spurious wakeup or a timeout keeps the invariant |
| `Digraph.EdgeKeepsAcyclic` | googletest-1.14.0/googlemock/src/gmock-spec-builders.cc:760-763 | A new edge keeps a graph acyclic if and only if its target is not its source and does not reach it |
| `Worklists.EveryWalkEndsExact` | googletest-1.14.0/googlemock/src/gmock-spec-builders.cc:139-152 | A walk with a last-in, first-out worklist and no visited set ends in every order if and only if no cycle can be reached |
| `Worklists.TurnIsLighter` | googletest-1.14.0/googlemock/src/gmock-spec-builders.cc:140-151 | Where no cycle can be reached, replacing an entry by its prerequisites makes the worklist lighter |
| `Worklists.WalkGoesOn` | googletest-1.14.0/googlemock/src/gmock-spec-builders.cc:140-151 | Where a cycle can be reached, some order takes any number of turns |
| `Worklists.ListsInOrders` | googletest-1.14.0/googlemock/src/gmock-spec-builders.cc:144-150 | The orders of the walk are all listings of a set of prerequisites |
| `Expectations.AllPrerequisitesAreSatisfied` | googletest-1.14.0/googlemock/src/gmock-spec-builders.cc:136-153 | The traversal without a visited set ends wherever it can reach no cycle of expectations whose prerequisites are all satisfied, and is true exactly when the call count of every direct and indirect prerequisite is within its bounds |
| `Expectations.AllPrerequisitesEndExact` | googletest-1.14.0/googlemock/src/gmock-spec-builders.cc:136-153 | It ends in every order of the prerequisites if and only if it can reach no such cycle |
| `Expectations.PushPrerequisites` | googletest-1.14.0/googlemock/src/gmock-spec-builders.cc:144-150 | One turn puts on all prerequisites in some order, or finds that one is not satisfied |
| `Expectations.FindUnsatisfiedPrerequisites` | googletest-1.14.0/googlemock/src/gmock-spec-builders.cc:156-183 | Adds exactly the unsatisfied prerequisites of the start and of what can be reached through satisfied ones that were never called; ends wherever it can reach no cycle of those |
| `Expectations.FindUnsatisfiedEndExact` | googletest-1.14.0/googlemock/src/gmock-spec-builders.cc:156-183 | It ends in every order of the prerequisites if and only if it can reach no such cycle |
| `Expectations.ExpandUnsatisfied` | googletest-1.14.0/googlemock/src/gmock-spec-builders.cc:164-181 | One turn finds the unsatisfied prerequisites and puts on the satisfied ones that were never called, in some order |
| `Expectations.AcyclicEnds` | googletest-1.14.0/googlemock/src/gmock-spec-builders.cc:136-183 | On a graph without cycles both traversals end |
| `Expectations.ExposedExact` | googletest-1.14.0/googlemock/src/gmock-spec-builders.cc:156-183 | In every state of a run that set is empty exactly when all prerequisites are satisfied, and holds only unsatisfied prerequisites |
| `Expectations.UnexposedSatisfied` | googletest-1.14.0/googlemock/src/gmock-spec-builders.cc:169-175 | If nothing is exposed, then whatever a path of prerequisites leads to is satisfied, past called expectations too |
| `Expectations.RetireAllPreRequisites` | googletest-1.14.0/googlemock/src/gmock-spec-builders.cc:109-132 | If the retired set is closed under prerequisites, then every direct and indirect prerequisite is retired and nothing else, and the set stays closed; it ends on every graph |
| `Expectations.Sequence.AddExpectation` | googletest-1.14.0/googlemock/src/gmock-spec-builders.cc:758-766 | Adds the one edge to the previous expectation; an acyclic graph stays acyclic if and only if the previous expectation does not already depend on the new one |
| `Expectations.FreshKeepsAcyclic` | googletest-1.14.0/googlemock/src/gmock-spec-builders.cc:758-766 | An expectation that nobody depends on never closes a cycle |
| `Expectations.RepeatedExpectationCloses` | googletest-1.14.0/googlemock/src/gmock-spec-builders.cc:758-766 | Giving a sequence a, b and a again makes each a prerequisite of the other |
| `Expectations.RepeatedPairEnds` | googletest-1.14.0/googlemock/src/gmock-spec-builders.cc:136-183 | On that cycle the first traversal ends if and only if not both are satisfied, the second if and only if not both are satisfied and uncalled |
| `Expectations.RepeatedPairNeverEnds` | googletest-1.14.0/googlemock/src/gmock-spec-builders.cc:136-183 | If neither of the two needs to be called and neither has been, some order of each traversal never ends |
| `Expectations.AddNewExpectation` | googletest-1.14.0/googlemock/include/gmock/gmock-spec-builders.h:1570-1589 | Creates an expectation at any time of a run and puts it behind the last one of the implicit sequence, if there is one: the invariant holds with it, and the only new edge is that one |
| `Expectations.NewcomerKeepsRun` | googletest-1.14.0/googlemock/include/gmock/gmock-spec-builders.h:1574-1580 | A new expectation without prerequisites joins the others: the invariant of the run holds with it |
| `Expectations.JoinSequence` | googletest-1.14.0/googlemock/include/gmock/gmock-spec-builders.h:1583-1586 | An expectation that nobody depends on, and that has been neither called nor retired, may join a sequence at any time of a run; if it is the last member already, nothing changes |
| `Expectations.ShouldHandle` | googletest-1.14.0/googlemock/include/gmock/gmock-spec-builders.h:1124-1134 | For matching arguments, an expectation handles a call exactly when it is not retired and the call count of every direct and indirect prerequisite is within its bounds |
| `Expectations.MissingCallBlocks` | googletest-1.14.0/googlemock/src/gmock-spec-builders.cc:136-153 | As long as an expectation lacks a call that it needs, nothing behind it in its sequence takes a call |
| `Expectations.CallsComeInOrder` | googletest-1.14.0/googlemock/include/gmock/gmock-spec-builders.h:1218-1253 | Once something behind it in its sequence has taken a call, an expectation has had its calls and is retired |
| `Expectations.LaterReachesEarlier` | googletest-1.14.0/googlemock/src/gmock-spec-builders.cc:758-766 | In a sequence every expectation depends on all those before it |
| `Expectations.TakeCall` | googletest-1.14.0/googlemock/include/gmock/gmock-spec-builders.h:1218-1253 | A handled call counts once, retires all prerequisites unless it is in excess, retires the expectation itself exactly on call number max if it asked for that, and keeps the invariant of the run |
| `Expectations.SettledAfterCall` | googletest-1.14.0/googlemock/include/gmock/gmock-spec-builders.h:1225-1244 | A called expectation has its prerequisites satisfied and retired for good |
| `Expectations.RetireOne` | googletest-1.14.0/googlemock/include/gmock/gmock-spec-builders.h:1242-1244 | Retiring an expectation whose prerequisites are all retired keeps the retired set closed |
| `Expectations.FreshRun` | googletest-1.14.0/googlemock/include/gmock/gmock-spec-builders.h:1570-1589 | Acyclic expectations before the first call satisfy the invariant of the run |
| `Generators.Random.Generate` | googletest-1.14.0/googletest/src/gtest.cc:400-414 | The new state follows the linear congruence, and the number drawn is that state modulo the range |
| `Generators.EveryStateArises` | googletest-1.14.0/googletest/src/gtest.cc:400-403 | Full period: from every state every state below 2^31 comes up within 2^31 steps |
| `Generators.NoStateTwice` | googletest-1.14.0/googletest/src/gtest.cc:400-403 | And none comes up twice within them |
| `Generators.PeriodExact` | googletest-1.14.0/googletest/src/gtest.cc:400-403 | The generator is back at a state after 2^31 steps and not before |
| `Generators.OddLeap` | googletest-1.14.0/googletest/src/gtest.cc:400-403 | 2^k steps of the congruence add an odd multiple of 2^k |
| `Shuffles.ShuffleRange` | googletest-1.14.0/googletest/src/gtest-internal-inl.h:303-324 | The loop yields the shuffle of [begin, end) by the draws that the state of the generator determines, leaves the rest in place, and advances the generator accordingly |
| `Shuffles.DrawsAreStates` | googletest-1.14.0/googletest/src/gtest-internal-inl.h:316-320 | Draw number i comes from the i-th state of the generator, reduced to the elements that are left |
| `Shuffles.ShuffledPermutes` | googletest-1.14.0/googletest/src/gtest-internal-inl.h:314-323 | Every shuffle is a permutation |
| `Shuffles.EveryArrangementArises` | googletest-1.14.0/googletest/src/gtest-internal-inl.h:314-323 | Every permutation arises from some sequence of draws |
| `Shuffles.ArrangementArisesOnce` | googletest-1.14.0/googletest/src/gtest-internal-inl.h:314-323 | On distinct elements, from no two |
| `Shuffles.RangeShuffledPermutes` | googletest-1.14.0/googletest/src/gtest-internal-inl.h:303-324 | Outside the range nothing moves, inside nothing is lost or invented |
| `Shuffles.OneMore` | googletest-1.14.0/googletest/src/gtest-internal-inl.h:316-323 | One turn of the loop is one draw of the shuffle that is still to be completed |
| `Base64.AlphabetText` | googletest-1.14.0/googlemock/src/gmock-internal-utils.cc:224-225 | The alphabet of the model is the constant of the source |
| `Base64.TableExact` | googletest-1.14.0/googlemock/src/gmock-internal-utils.cc:202-226 | The table inverts both alphabets, character by character, and gives 65 for every other character |
| `Base64.AcceptableExact` | googletest-1.14.0/googlemock/src/gmock-internal-utils.cc:234-242 | Accepted are exactly the texts of white space, padding and characters of the two alphabets |
| `Base64.SpacesExact` | googletest-1.14.0/googlemock/src/gmock-internal-utils.cc:235-237 | Passed over are exactly the six white space characters and the padding |
| `Base64.UrlAlphabetText` | googletest-1.14.0/googlemock/src/gmock-internal-utils.cc:202-204 | The URL-safe alphabet differs from the standard one in its last two characters |
| `Base64.EncodingIsNumber` | googletest-1.14.0/googlemock/src/gmock-internal-utils.cc:228-254 | A group of sextets and a group of bytes are the same number, high bits first, filled up with zero bits at the end |
| `Base64.Base64Unescape` | googletest-1.14.0/googlemock/src/gmock-internal-utils.cc:228-254 | Succeeds exactly on accepted texts, with the bytes that their sextets complete; fails with an empty output otherwise |
| `Base64.AddSextet` | googletest-1.14.0/googlemock/src/gmock-internal-utils.cc:243-251 | One character of the loop: the bits held back in dst and bit_pos are those of the sextets read so far |
| `Base64.EmitIsOr` | googletest-1.14.0/googlemock/src/gmock-internal-utils.cc:247-250 | The bitwise or of the shifted parts is the byte that the two sextets spell |
| `Base64.BytesOfEncoding` | googletest-1.14.0/googlemock/src/gmock-internal-utils.cc:228-254 | The sextets of every byte string decode to it; the zero bits at the end are dropped |
| `Base64.DecodeUndoesEncode` | googletest-1.14.0/googlemock/src/gmock-internal-utils.cc:228-254 | Every spelling of the encoding of a byte string, in either alphabet or a mixture, with or without padding, with white space anywhere, decodes to that string |
| `Base64.PaddingIsSkipped` | googletest-1.14.0/googlemock/src/gmock-internal-utils.cc:235-237 | Padding is one such spelling |
| `Base64.EncodingIsSignificant` | googletest-1.14.0/googlemock/src/gmock-internal-utils.cc:235-237 | The bare encoding is another: none of its characters is skipped |
| `Bytewise.OrIsBitwise` | googletest-1.14.0/googlemock/src/gmock-internal-utils.cc:243-249 | The or that the decoder uses is the operator on 8-bit words |
| `Bytewise.OrIsSum` | googletest-1.14.0/googlemock/src/gmock-internal-utils.cc:247-249 | Where the operands have no binary digit in common, the or is the sum |
| `LogRing.Ring.constructor` | src/io.c:127-137 | A new ring is empty |
| `LogRing.Ring.Print` | src/io.c:171-181 | Appends the message, dropping the oldest pending one exactly when the ring held one less than its slots; posts the semaphore |
| `LogRing.Ring.GetMessage` | src/io.c:70-89 | Delivers the oldest pending message exactly when there is one; what was written is what was delivered, overwritten or is pending, in order |
| `LogRing.NextIsPosition` | src/io.c:172 | The 32-bit successor modulo the number of messages steps around the slots that can be in use, for any number of messages |
| `LogRing.SlotsExact` | src/io.c:172 | Up to 2^32 messages every slot can be in use |
| `LogRing.WriteHolds` | src/io.c:171-180 | Writing a slot refines the drop-oldest queue of capacity slots - 1; the collision test is exactly fullness |
| `LogRing.ReadHolds` | src/io.c:75-86 | Reading takes the oldest message; equal indices mean empty |
| `Traces.Trace.constructor` | src/trace.c:56-92 | A new trace of any size has no history |
| `Traces.Trace.Time` | src/trace.c:161-173 | The history grows by the time; the buffers swap and the semaphore is posted exactly when the block is full |
| `Traces.Trace.StoreTime` | src/trace.c:164-166 | The store leaves the buffers describing the longer history |
| `Traces.Trace.SwapBuffers` | src/trace.c:167-169 | The exchange of a full buffer changes nothing in the history |
| `Traces.Trace.InactiveHoldsLastBlock` | src/trace.c:244 | The buffer that the analyses read is the last complete block of the history |
| `Traces.Trace.GetLastTime` | src/trace.c:181-195 | The last time of the history, across buffer swaps, or 0 before the first |
| `Traces.InactiveIsLastBlock` | src/trace.c:161-173 | The number of blocks and the position are quotient and remainder of the number of times, and the inactive buffer is exactly the last complete block |
| `Traces.Swapped` | src/trace.c:167-169 | The call that fills a block makes it the inactive buffer and the last block of the history |
| `Traces.Differences` | src/trace.c:246-257 | The first loop computes all intervals, their sum modulo 2^64, minimum and maximum |
| `Traces.Jitter` | src/trace.c:261-269 | The second loop computes the greatest deviation and the root of the mean square |
| `Traces.Trace.AnalyzeMinMax` | src/trace.c:232-270 | All five results for the intervals of the last complete block of the history, which itself is unchanged |
| `Traces.Trace.AnalyzeRelMinMax` | src/trace.c:297-334 | All five results for the values of the last complete block of the history |
| `Traces.MinMaxCorrect` | src/trace.c:250-256 | The running minimum and maximum are attained and bound every value |
| `Traces.AverageBetween` | src/trace.c:259 | Without overflow the average lies between minimum and maximum |
| `Traces.MaxJitterExact` | src/trace.c:261-264 | The maximum jitter is the distance of the average from the farther of minimum and maximum |
| `Traces.AverageJitterAtMostMax` | src/trace.c:266-269 | Without overflow of the squares the average jitter is at most the maximum jitter |
| `Traces.AverageJitterExact` | src/trace.c:266-269 | Without overflow the average jitter r is the integer root of the mean square: cnt r^2 <= S < cnt (r + 1)^2, with S the sum of the squared distances |
| `Traces.SquareSumExact` | src/trace.c:261-267 | The loop adds up the squared distances from the average |
| `Traces.DistanceOfEqual` | src/trace.c:261-267 | Values that are all at distance d have the sum of n d^2 |
| `Traces.Analysis` | src/trace.c:297-334 | For values below 2^63 whose sum fits: the average is the mean rounded down and lies between minimum and maximum, the maximum jitter is its distance from the farther one, and the average jitter the root of the mean square, at most the maximum jitter |
| `Traces.IntervalsTelescope` | src/trace.c:246-248 | The intervals of nondecreasing times add up to last minus first |
| `Traces.IntervalAnalysis` | src/trace.c:232-270 | For nondecreasing times that span less than 2^63 all of that holds of the intervals, and the average is (last - first) / (cnt - 1) |

## Left out

- The wrappers of operating system calls (mutexes, condition variables, message queues, shared memory, spin locks, tasks, timers) on every platform: they map error codes of calls outside the repository.
- `osal_binary_semaphore_timedwait` without a timeout, which looks at the value without a lock, and pthread calls that fail.
- The semaphore is modelled as steps over a state value, not as a method, because the property is about all interleavings.
- Fairness and liveness of the semaphore beyond the three steps of `NoLostWakeup`: the standard leaves open which thread gets the mutex.
- LIST and SLIST: the same links without a tail slot, so they would add only easier cases of the TAILQ and STAILQ proofs. Initialisers and field accessors likewise.
- Elements that are members of two queues through two entry fields: an element here has one entry.
- Failure messages, listeners and explanations of matchers and of the regular expressions: only the result is modelled. Checks that abort (`GTEST_CHECK_`) are preconditions.
- `MatchMatrix.Randomize` and debug strings. User matchers are a function of element and matcher: `AnalyzeElements` asks each once.
- Wide characters in the literal printer and the heuristics that decide whether text is printed at all.
- Character encodings: a character of the regular expressions is a Dafny character, a C string holds no NUL and is shorter than SIZE_MAX. Bytes beyond ASCII are not classified by any class of the source either.
- Base64.Base64Unescape: text beyond ASCII is excluded, because a negative character indexes outside the table in the source.
- Expectations.ExpectationBase: a cardinality is an interval of allowed call counts, as all cardinalities of the repository are; the source also accepts user-defined ones.
- The order in which a set of prerequisites is walked: the traversals are proved for every order. Argument matching, actions and the lock of the mock registry are not modelled.
- An expectation in several sequences is covered (each sequence adds its edge); `After` clauses, which add edges in the same way, have no member of their own.
- True concurrency in the log ring: the source takes no lock there, so whole calls are one step. Formatting, truncation to the slot size and the plain output functions are not modelled; a message is an opaque value.
- LogRing.Ring.Print: the count of the semaphore is unbounded here; a real one stops at its maximum, and posting then fails, a result that the source ignores.
- Joining a shared memory ring that another process has initialised.
- Traces.Trace.constructor: failed allocations are not modelled.
- Traces.Trace.Time: a trace of no samples is excluded, because the source would write outside its buffers; the same holds for `Traces.Trace.GetLastTime`.
- Traces.Trace.AnalyzeMinMax: a single sample is excluded (the source divides by zero), and so are deviations whose square does not fit a signed 64-bit number (undefined in the source). The floating-point root is an exact integer root, and both optional results are always computed. Concurrent refilling of the buffer during the analysis is not modelled.
- Traces.Trace.AnalyzeRelMinMax: the same limits on squares and root, and no trace without samples (the source divides by their number).
- Generators.Random.Generate: the statistical quality of the numbers, beyond their full period.
- Death tests, flags, test discovery, reporting and the rest of googletest, the logger and the samples.
