# Verified models of the string-search, threading and parsing cores

A grep and its gnulib support code depend on a handful of algorithms that are short to write and hard to
trust: the Two-Way matcher, Boyer-Moore tables, a worker pool, two address parsers, the `printf` format
parser, SIMD counting loops, lock-light string interning, and emulated signal masks. This project models each
of them in Dafny and proves what their callers rely on.

| Dafny file | models |
|---|---|
| `Words.dfy`, `CriticalFactorization.dfy` | words, periods, local repetitions, the two dictionary orders; `critical_factorization` and the critical factorization theorem |
| `TwoWay.dfy`, `CStrcasestr.dfy` | `two_way_short_needle`, `two_way_long_needle`, `AVAILABLE`; `c_strcasestr` and `c_strncasecmp` |
| `Kwset.dfy` | the Boyer-Moore tables and `bm_delta2_search` |
| `ThreadPool.dfy` | the worker pool as a step system over all interleavings |
| `Chars.dfy`, `InetPton.dfy`, `InetPton6.dfy` | `inet_pton4`, `inet_pton6` |
| `PrintfFormat.dfy`, `PrintfGrammar.dfy`, `PrintfParse.dfy` | the order in which `printf_parse` reads a format; the grammar of formats and what they denote; the parser with its growing directive and argument tables |
| `LaneMasks.dfy`, `Simd.dfy`, `Search.dfy`, `LineSearch.dfy` | lane masks, the memchr variants, the two counting engines, the fixed-string matcher and the line loop |
| `SigProcMask.dfy` | `sigprocmask`, `rpl_signal`, `sigpending`, `blocked_handler` against an abstract machine |
| `StrUniq.dfy` | `struniq` as a step system over all interleavings |

Conventions. A byte is an integer from 0 to 255, and a byte string is a sequence of them. `CANON_ELEMENT` is a
function parameter. `SIZE_MAX` as an index before the start is -1. Pointers into a buffer are offsets; heap
addresses are positive integers and 0 is NULL. Code that updates variables is written as methods and classes
and proved against predicates and functions; the two concurrent components are step relations, one step per
access to shared state, with an invariant kept by every step and theorems about every reachable state.

## Where the code differs from its documentation

- `str-two-way.h` says that both maximal suffixes together take `2 * NEEDLE_LEN` comparisons (lines 102-106,
  227-228). Each pass takes fewer than that; both together take `2 * NEEDLE_LEN - 2` and one more for every letter
  that is scanned again. So the bound holds of a needle exactly if at most two letters are (`BoundHoldsExactly`),
  and of all needles of a length exactly for lengths up to six (`BoundHoldsExactlyUpToSix`). `ExampleExceeds` gives a
  seven-letter needle with 15 comparisons, and every needle that begins with one that exceeds the bound exceeds it
  (`ExceedingIsInherited`).
- `str-two-way.h` promises `3 * HAYSTACK_LEN - NEEDLE_LEN` comparisons for haystacks whose length is only learnt
  (lines 232-233, 325-327). The comparisons of bytes alone stay within `2 * HAYSTACK_LEN - NEEDLE_LEN`. With the
  bytes examined for the terminator, either search meets the documented bound in all haystacks exactly when at
  least one byte is known at the start; otherwise it can take one more, for every needle without a NUL,
  in the haystack that is the needle with one byte exchanged (`UnknownLengthExceeds`; "b" in "a" is one input,
  `UnknownLengthExample`). `TwoWayShortNeedle` says in exactly which
  haystacks: those as long as the needle that differ from it in the byte compared last only, so never in a longer
  one. `c_strcasestr`, its prefix test included, always meets the documented bound.
- `inet_pton.c` says that `::` in a full address is silently ignored (line 165). The code refuses it (lines
  251-252), for every such text (`GapInFullAddressIsRefused`; `FullAddressWithGap` is one).
- The counting tails of `search.c` compare a plain `char` with an `unsigned char` (lines 105 and 127). With a signed
  `char` they never match a byte above 127. `Counted` says exactly what is counted then, and
  `CountIsRightExactlyForAsciiEnds` that the count is right on every text exactly for needles whose first and
  last bytes are ASCII.
- With a positive `max_count` the line loop of `search.c` counts one line past the limit before it stops (lines
  44-45), exactly when more lines are selected than the limit (`SearchLines`; `LimitOfOneCountsTwo` is one input).
- The option to ignore case sends fixed patterns through the line loop (search.c, line 83) to
  `fixed_string_insensitive_match`, which despite its name compares bytes. What it finds is what the option promises,
  in every text, exactly for patterns without letters (`CaseIsIgnoredExactlyWithoutLetters`; "A" in "a" is one input,
  `CaseIsNotIgnored`).
- The last loop of `kwset_engine_search` expects a zero table entry for the last pattern byte; the table has none
  (lines 33-34), so for patterns of 2 to 255 bytes that loop finds nothing, wherever in the text it is entered. `SearchTail` proves it, and
  `ShortestMissedMatch` gives the answer -1 for the pattern "ab" in the text "ab".
- Linked work does not always mean that a worker is awake: between linking a node and signalling, all workers may
  still be waiting (`WorkWhileAllWait`). `NoLostWakeup` shows that this is the only such window.

## Model

| member | source | states |
|---|---|---|
| Words.LocalRepetitionIsStraddlingWord | grep-3.11/gnulib-tests/str-two-way.h:89-93 | the letter-by-letter notion of local repetition used in the proofs is the documented one: a word that ends the left half and begins the right half, as far as each reaches |
| Words.GlobalPeriod | grep-3.11/gnulib-tests/str-two-way.h:85-87 | the global period is the smallest shift at which a non-empty word agrees with itself; it exists and is at most the length |
| Words.PrecedesBothIsPrefix | grep-3.11/gnulib-tests/str-two-way.h:102-106 | a word that precedes another in the order and in the reversed order is a proper prefix of it: why two orders suffice |
| CriticalFactorization.RepetitionLongerThanLeftHalf | grep-3.11/gnulib-tests/str-two-way.h:95-100 | at a maximal suffix every local repetition is longer than the left half |
| CriticalFactorization.MiddleRepetitionIsPeriod | grep-3.11/gnulib-tests/str-two-way.h:102-106 | cut at the shorter of the two maximal suffixes, a repetition that fits in the right half is a period of the whole word |
| CriticalFactorization.CriticalFactorizationTheorem | grep-3.11/gnulib-tests/str-two-way.h:95-106 | the shorter of the two maximal suffixes is a critical factorization, local period equal to global period, and its left half is shorter than the global period |
| CriticalFactorization.ScanSmaller | grep-3.11/gnulib-tests/str-two-way.h:143-149 | on a smaller letter every start up to it loses to the candidate, and the whole scanned part is a period that keeps the scan invariant |
| CriticalFactorization.ScanEqual | grep-3.11/gnulib-tests/str-two-way.h:150-160 | on an equal letter the candidate's period reaches one letter further, within a repetition or into the next |
| CriticalFactorization.ScanLarger | grep-3.11/gnulib-tests/str-two-way.h:161-166 | on a larger letter the new candidate beats every start before it, so nothing between is missed |
| CriticalFactorization.ScanDone | grep-3.11/gnulib-tests/str-two-way.h:126-133 | when the scan ends the candidate is the greatest suffix and the tracked period its smallest |
| CriticalFactorization.MaximalSuffix | grep-3.11/gnulib-tests/str-two-way.h:135-202 | one pass, in either order: greatest suffix, its smallest period, and at most n - 1 comparisons more than letters before the suffix, fewer than twice the needle's length |
| CriticalFactorization.CriticalFactorization | grep-3.11/gnulib-tests/str-two-way.h:107-222 | the cut returned is critical and starts the shorter of the two greatest suffixes, its left half shorter than the global period for three letters or more, the period returned is the smallest of the right half, and the comparisons are counted exactly and at most 2n - 2 plus the starts of both suffixes |
| CriticalFactorization.ShortNeedle | grep-3.11/gnulib-tests/str-two-way.h:118-124 | for one or two letters cutting before the last is critical with period 1 |
| CriticalFactorization.ComparisonsCountRescans | grep-3.11/gnulib-tests/str-two-way.h:135-167 | a pass compares every letter but the first once, and once more for every letter it scans again |
| CriticalFactorization.BoundHoldsExactly | grep-3.11/gnulib-tests/str-two-way.h:102-106 | both passes meet the documented bound exactly for needles of which they scan at most two letters again |
| CriticalFactorization.RescansNeedRoom | grep-3.11/gnulib-tests/str-two-way.h:161-166 | a candidate with at most 3, 5, 6 letters left causes no, at most one, at most two rescans |
| CriticalFactorization.SixLettersRescanned | grep-3.11/gnulib-tests/str-two-way.h:135-167 | the only needles of six letters of which one pass scans two letters again are of two shapes |
| CriticalFactorization.OtherPassRescansNothing | grep-3.11/gnulib-tests/str-two-way.h:170-202 | of those the other pass scans nothing again |
| CriticalFactorization.BoundHoldsExactlyUpToSix | grep-3.11/gnulib-tests/str-two-way.h:102-106 | the documented bound holds of all needles of a length if and only if the length is at most six |
| CriticalFactorization.RescansOfPrefix | grep-3.11/gnulib-tests/str-two-way.h:135-202 | a longer needle scans again at least the letters that its beginning does |
| CriticalFactorization.ExceedingIsInherited | grep-3.11/gnulib-tests/str-two-way.h:102-106 | whatever begins with a needle that exceeds the bound exceeds it |
| CriticalFactorization.ExampleExceeds | grep-3.11/gnulib-tests/str-two-way.h:102-106 | a needle of seven letters with 15 comparisons |
| TwoWay.ShortPeriodIsRightPeriod | grep-3.11/gnulib-tests/str-two-way.h:250-254 | a global period no longer than the right half is the smallest period of the right half |
| TwoWay.PeriodTest | grep-3.11/gnulib-tests/str-two-way.h:250-250 | the comparison of the left half with the text a period later decides exactly whether the reported period is the global one; otherwise the global period exceeds both halves |
| TwoWay.RepetitionIsMultiple | grep-3.11/gnulib-tests/str-two-way.h:95-97 | a repetition at a critical cut that fits in the right half is a whole number of global periods long |
| TwoWay.RightMismatch | grep-3.11/gnulib-tests/str-two-way.h:279-282 | after a mismatch in the right half the shift past it skips no occurrence |
| TwoWay.LeftMismatch | grep-3.11/gnulib-tests/str-two-way.h:273-276 | after the right half matched and the left did not, any shift up to the global period skips no occurrence |
| TwoWay.MemoryAfterShift | grep-3.11/gnulib-tests/str-two-way.h:273-276 | what memory claims holds: after a shift by the period the first needle_len - period letters of the new window match |
| TwoWay.BadByteShift | grep-3.11/gnulib-tests/str-two-way.h:364-379 | the bad-byte shift skips no occurrence |
| TwoWay.BadByteShiftWithMemory | grep-3.11/gnulib-tests/str-two-way.h:369-375 | with remembered periods and a last byte out of place no occurrence starts before needle_len - period letters on, so the longer shift is safe |
| TwoWay.LongDistanceIsAbsent | grep-3.11/gnulib-tests/str-two-way.h:343-346 | a table entry of at least the period means the byte is absent, which makes the test against period exact |
| TwoWay.LastByteShift | grep-3.11/gnulib-tests/str-two-way.h:364-379 | either choice of the shift is positive, keeps the search invariant, and pays for the look-up |
| TwoWay.BuildShiftTable | grep-3.11/gnulib-tests/str-two-way.h:343-350 | each of the 256 entries is the distance from the last occurrence of its byte to the end, the length for an absent byte |
| TwoWay.Available | grep-3.11/gnulib-tests/c-strcasestr.c:30-32 | true exactly when the window lies within the haystack; the known length grows to the end of the window and never exceeds the true one; every byte but the terminator is examined for it only once over all calls |
| TwoWay.TextLength | grep-3.11/gnulib-tests/str-two-way.h:224-226 | the true length of the haystack: the given one, or the index of the first NUL |
| TwoWay.PeriodicWindow | grep-3.11/gnulib-tests/str-two-way.h:259-283 | one window of the branch with memory either is the first occurrence or advances without skipping one, with memory again true and the comparisons within the budget, strictly so unless it is the only window |
| TwoWay.AperiodicWindow | grep-3.11/gnulib-tests/str-two-way.h:293-311 | one window of the branch without memory either is the first occurrence or advances without skipping one |
| TwoWay.CompareWindow | grep-3.11/gnulib-tests/str-two-way.h:259-283 | the outcome of comparing a window: the first mismatch of the right half, the last one of the left half above memory, or an occurrence, at its exact cost |
| TwoWay.ScanRight | grep-3.11/gnulib-tests/str-two-way.h:259-263 | the first mismatch of the right half, after one comparison for each letter up to it |
| TwoWay.ScanLeft | grep-3.11/gnulib-tests/str-two-way.h:266-270 | the last mismatch of the left half above memory, after one comparison for each letter down to it |
| TwoWay.LongWindow | grep-3.11/gnulib-tests/str-two-way.h:364-404 | one window of the variant with the table: the first occurrence, or an advance that skips none, the look-up of its last byte counted as a comparison |
| TwoWay.TwoWayShortNeedle | grep-3.11/gnulib-tests/str-two-way.h:234-314 | for every haystack and non-empty needle: the smallest position where the needle occurs under the canonical bytes, none exactly when there is none; at most 2n - m comparisons in searching, each counted where it is made; with the bytes examined for a terminator, counted exactly, at most 3n - m if and only if some byte is known at the start or the haystack is not one that differs from the needle in the byte compared last only |
| TwoWay.TwoWayLongNeedle | grep-3.11/gnulib-tests/str-two-way.h:328-446 | the same result and at most 2n - m comparisons for the variant with the bad-byte table, look-ups in the table included; at most 3n - m with the bytes examined for a terminator unless no byte is known, the needle is absent and all 2n - m comparisons are made, as in a haystack that differs from the needle in the byte compared last only |
| TwoWay.UnknownLengthExceeds | grep-3.11/gnulib-tests/str-two-way.h:230-233 | when no byte is known, either search exceeds 3n - m for every needle without a NUL, in the haystack made by exchanging the byte compared last for any other |
| TwoWay.UnknownLengthExample | grep-3.11/gnulib-tests/str-two-way.h:230-233 | "b" in "a" costs three where the bound is two |
| CStrcasestr.CStrncasecmp | grep-3.11/lib/c-strncasecmp.c:26-56 | zero exactly when the strings, cut after n bytes or before a NUL, agree up to case, else the difference at the first place where they do not, a terminator included |
| CStrcasestr.EqualUpToCase | grep-3.11/lib/c-ctype.h:336-346 | two bytes are equal under the matcher exactly if they are equal or the two cases of one ASCII letter, and what they are compared as is never an upper-case letter |
| CStrcasestr.FirstOccurrenceInRest | grep-3.11/gnulib-tests/c-strcasestr.c:56-68 | a search started one byte on gives the first occurrence in the whole when the needle is not at the start |
| CStrcasestr.CStrcasestr | grep-3.11/gnulib-tests/c-strcasestr.c:40-74 | for any two NUL-terminated strings the first case-insensitive occurrence, the start for an empty needle, although the haystack's length is only learnt as the search advances; at most 3n - m bytes compared or examined, n if the haystack is the shorter |
| Kwset.ChainStep | src/kwset_engine.c:42-50 | following the failure value from a border gives the next shorter border: the chain enumerates all borders |
| Kwset.FailureExtends | src/kwset_engine.c:45-49 | where the inner loop stops, one more letter gives the longest border of the longer prefix |
| Kwset.FailureFunction | src/kwset_engine.c:41-50 | fail[n] is the longest proper border of the prefix of length n, -1 for the empty one |
| Kwset.FullSuffixShift | src/kwset_engine.c:56-65 | the least shift that puts an earlier full copy of the suffix under itself, or the certainty that there is none |
| Kwset.BorderShift | src/kwset_engine.c:67-72 | without a full copy, the walk along the failure chain yields the least shift that agrees with the suffix where it still covers it |
| Kwset.KwsetEngine.BuildDelta1 | src/kwset_engine.c:31-35 | every entry is the distance from the last earlier occurrence of its byte to the end of the pattern, truncated to a byte |
| Kwset.KwsetEngine.BuildDelta2 | src/kwset_engine.c:38-75 | every entry is the least positive shift at which the pattern agrees with the matched suffix on the overlap |
| Kwset.KwsetEngine.constructor | src/kwset_engine.c:78-86 | an engine whose tables are those of its pattern, for any non-empty pattern |
| Kwset.Delta1IsPositive | src/kwset_engine.c:31-35 | for patterns of at most 255 bytes no entry is zero |
| Kwset.Delta1IsSafe | src/kwset_engine.c:117-120 | shifting by the entry of a byte that is not the last pattern byte skips no occurrence, for patterns of any length |
| Kwset.SuffixShiftIsSafe | src/kwset_engine.c:114-116 | shifting by the good-suffix entry after a mismatch skips no occurrence |
| Kwset.SuffixStillMatches | src/kwset_engine.c:102-107 | after that shift the letters that skip leaves out do match |
| Kwset.KwsetEngine.BmDelta2Search | src/kwset_engine.c:94-125 | success only at the leftmost occurrence that ends at or after the entry and no later than ep; on failure no occurrence ends before the position returned, and the search gave up only past ep or at a window with another last byte |
| Kwset.KwsetEngine.SearchTail | src/kwset_engine.c:176-185 | wherever in the text the last loop is entered, it answers -1 whatever the text holds |
| Kwset.KwsetEngine.SearchShortText | src/kwset_engine.c:128-185 | on texts of at most twelve pattern lengths the engine answers -1, which is right exactly when the pattern does not occur |
| Kwset.ShortestMissedMatch | src/kwset_engine.c:128-185 | the pattern "ab" occurs at 0 in the text "ab", and the answer is -1 |
| ThreadPool.StepKeepsInv | src/threadpool.c:25-47 | every step of every thread, spurious wakeups included, keeps mutual exclusion, the list, ownership of nodes, FIFO order, exactly-once, wakeup and shutdown invariants |
| ThreadPool.WorkerPopKeepsInv | src/threadpool.c:36-40 | taking the first node keeps the invariant: the oldest item not yet dequeued leaves the list and is in the hands of this worker alone |
| ThreadPool.WorkerFixTailKeepsInv | src/threadpool.c:39-39 | clearing work_tail when the list is empty restores that it is the last node |
| ThreadPool.ClientLinkKeepsInv | src/threadpool.c:114-115 | linking behind work_tail, or as work_head, extends the list at its end by the submitted item |
| ThreadPool.ClientSignalKeepsInv | src/threadpool.c:117-117 | waking at least one waiter, if there is one, leaves an active worker |
| ThreadPool.FifoExactlyOnce | src/threadpool.c:105-121 | in every reachable state the submitted items are those dequeued followed by those linked from work_head; work_tail is the last node when the mutex is free; calls are of items as submitted, no item is called twice, and none dequeued is lost |
| ThreadPool.CallsAreAsAsked | src/threadpool.c:105-121 | over any run with its actions, the submitted items are the arguments of the calls of submit, in the order in which they extended the list, and every call of fn by a worker is of one of them as given |
| ThreadPool.EveryCallOfSubmitIsServed | src/threadpool.c:79-97 | when the joins of destroy have returned, the arguments of every call of submit that extended the list have been called exactly once |
| ThreadPool.PointersAreLive | src/threadpool.c:36-46 | in every reachable state a worker past its tests has a node to take, and every pointer followed is to a live node |
| ThreadPool.NoLostWakeup | src/threadpool.c:26-29 | in every reachable state with linked work some worker is neither waiting nor exited, unless a submitter holding the mutex is about to signal |
| ThreadPool.NoNodeIsLeaked | src/threadpool.c:43-46 | in every reachable state each live node is linked, with a worker, or with a submitter, and none is left when destroy is done |
| ThreadPool.WorkProceeds | src/threadpool.c:25-47 | as long as work is linked or in a worker's hands, some thread can go on without another submit, without destroy and without a spurious wakeup |
| ThreadPool.WorkerCanStep | src/threadpool.c:25-47 | wherever a worker is, its next step is possible, but for a mutex that another thread holds |
| ThreadPool.ClientCanStep | src/threadpool.c:105-121 | so is the next step of a submitter, with any item and any fresh node |
| ThreadPool.OwnerCanStep | src/threadpool.c:79-97 | so is the next step of destroy, but for the join of a worker that has not exited |
| ThreadPool.WorkWhileAllWait | src/threadpool.c:113-118 | that exception is real: a reachable state with linked work and all workers waiting |
| ThreadPool.DestroyReturnsAfterAllWork | src/threadpool.c:79-97 | when the joins of destroy have returned the list is empty and every submitted item has been called exactly once |
| ThreadPool.ClosingStepsDecrease | src/threadpool.c:82-89 | after the broadcast every step, spurious wakeups included, leaves strictly less to do |
| ThreadPool.ClosingIsNotStuck | src/threadpool.c:82-89 | after the broadcast and until destroy is done some thread can always proceed: nobody is left blocked |
| ThreadPool.ClosingRunsEnd | src/threadpool.c:79-103 | every run after the broadcast is bounded and can only stop with destroy done |
| InetPton.InetPton4 | grep-3.11/gnulib-tests/inet_pton.c:113-154 | four bytes are written exactly when the text is accepted, the rest of the destination is kept, and a refused text changes nothing |
| InetPton.ScanQuadSound | grep-3.11/gnulib-tests/inet_pton.c:121-149 | whatever the loop accepts from any intermediate state is the printed form of the bytes it yields |
| InetPton.DigitByTable | grep-3.11/gnulib-tests/inet_pton.c:124-126 | the digits have their places in "0123456789" as their values |
| InetPton.DottedExample | grep-3.11/gnulib-tests/inet_pton.c:100-111 | the quad of 192, 168, 0 and 1 is "192.168.0.1" |
| InetPton.ScanDecimal | grep-3.11/gnulib-tests/inet_pton.c:124-139 | the decimal text of every byte reads back as that byte |
| InetPton.QuadExactly | grep-3.11/gnulib-tests/inet_pton.c:100-111 | a text is accepted with four given bytes if and only if it is their dotted quad without leading zeros |
| InetPton6.HexValueByTable | grep-3.11/gnulib-tests/inet_pton.c:190-198 | exactly the characters whose lower case is in "0123456789abcdef" are digits, and a digit of either case has its place there as its value |
| InetPton6.ExpandGap | grep-3.11/gnulib-tests/inet_pton.c:242-259 | the shift by hand moves what follows the gap to the end and fills the gap with zeros |
| InetPton6.Close | grep-3.11/gnulib-tests/inet_pton.c:242-263 | a gap in a full address or a short address without gap is refused with dst untouched, else dst gets the sixteen bytes |
| InetPton6.InetPton6 | grep-3.11/gnulib-tests/inet_pton.c:171-264 | success exactly when the text parses; dst then holds the parsed bytes, and is untouched otherwise |
| InetPton6.ScanSound | grep-3.11/gnulib-tests/inet_pton.c:190-241 | from any state of the loop, what is accepted completes a well-formed address whose bytes are the result |
| InetPton6.ParseText | grep-3.11/gnulib-tests/inet_pton.c:158-170 | every well-formed address text is accepted and yields the bytes it denotes |
| InetPton6.ParseExactly | grep-3.11/gnulib-tests/inet_pton.c:158-264 | a text yields sixteen given bytes if and only if it is a well-formed address text that denotes them |
| InetPton6.ParseSound | grep-3.11/gnulib-tests/inet_pton.c:171-264 | whatever is accepted is the text of a well-formed address whose bytes are the result |
| InetPton6.GapInFullAddressIsRefused | grep-3.11/gnulib-tests/inet_pton.c:242-252 | "::" anywhere in an address that is full without it makes the text refused |
| InetPton6.FullAddressWithGap | grep-3.11/gnulib-tests/inet_pton.c:165-165 | eight groups with "::" before the last are refused |
| InetPton6.PrintBytes | grep-3.11/gnulib-tests/inet_pton.c:162-162 | every printed form, with or without one zero run shortened and a dotted-quad tail, is well formed and denotes the bytes printed |
| InetPton6.PrintParse | grep-3.11/gnulib-tests/inet_pton.c:171-264 | round trip: however sixteen bytes are printed, they are read back |
| InetPton6.ParseIgnoresCase | grep-3.11/gnulib-tests/inet_pton.c:190-198 | a text and its lower-case form are accepted alike and yield the same bytes |
| InetPton6.PrintParseAnyCase | grep-3.11/gnulib-tests/inet_pton.c:171-264 | round trip in any case, letter by letter: a text whose lower case is a printed form is read back |
| PrintfParse.Xsum | grep-3.11/gnulib-tests/xsize.h:63-69 | comparing the wrapped sum with its first operand detects every overflow: the result is the exact sum capped at SIZE_MAX |
| PrintfParse.Xtimes | grep-3.11/gnulib-tests/xsize.h:94-99 | the exact product capped at SIZE_MAX |
| PrintfParse.PositionAt | grep-3.11/gnulib-tests/printf-parse.c:144-166 | the saturating computation recognizes exactly digits and a dollar sign, and refuses 0 and numbers that reach SIZE_MAX however long |
| PrintfGrammar.DirectiveIsRead | grep-3.11/gnulib-tests/printf-parse.c:128-655 | a directive of the grammar is read, and its number, flags, width, precision, size and conversion are recorded where they stand, each argument with the number written or the running count |
| PrintfGrammar.ReadIsDirective | grep-3.11/gnulib-tests/printf-parse.c:128-655 | what is read as a directive is one of the grammar, whose text is exactly the part of the format read |
| PrintfGrammar.DirectiveExactly | grep-3.11/gnulib-tests/printf-parse.c:128-655 | a record, value type and running count are read at a percent sign if and only if a directive of the grammar that denotes them stands there |
| PrintfGrammar.DirectiveIsUnique | grep-3.11/gnulib-tests/printf-parse.c:128-655 | the grammar is unambiguous: one place holds at most one directive, with one record and type |
| PrintfGrammar.TypesAgree | grep-3.11/gnulib-tests/printf-parse.c:562-655 | for every size and character the reading gives the type that the table of conversions gives: d and i signed, b, B, o, u, x and X unsigned, and so on, wide under l and ll, with C and S recorded as c and s |
| PrintfGrammar.FlagsAgree | grep-3.11/gnulib-tests/printf-parse.c:168-210 | the flags are exactly those of the table |
| PrintfGrammar.SizeIsRead | grep-3.11/gnulib-tests/printf-parse.c:328-560 | each size specifier of the table is read as the width it names |
| PrintfGrammar.ReadIsSize | grep-3.11/gnulib-tests/printf-parse.c:328-560 | what is read as a size specifier is one of the table, with the width it names |
| PrintfGrammar.FormatExactly | grep-3.11/gnulib-tests/printf-parse.c:125-690 | directives and value types are read from a format if and only if the format is text without percent signs interspersed with directives of the grammar that denote them |
| PrintfGrammar.DirectivesCover | grep-3.11/gnulib-tests/printf-parse.c:125-690 | the directives are in order and disjoint, each recorded as the grammar has it, and every percent sign lies in one of them |
| PrintfParse.StarsAreInts | grep-3.11/gnulib-tests/printf-parse.c:212-325 | exactly the arguments that stars stand for are fetched as ints |
| PrintfParse.Parser.MakeRoom | grep-3.11/gnulib-tests/printf-parse.c:94-116 | after regrowth, to twice the size or as far as needed, the index fits and the entries are kept; it fails only if a block twice that index cannot be had |
| PrintfParse.Parser.FillGap | grep-3.11/gnulib-tests/printf-parse.c:117-118 | entries up to the index exist, the new ones without a type |
| PrintfParse.Parser.RegisterArg | grep-3.11/gnulib-tests/printf-parse.c:91-123 | afterwards every use so far finds its own type; the use is refused only if it conflicts with an earlier one |
| PrintfParse.Parser.ParseDirective | grep-3.11/gnulib-tests/printf-parse.c:128-655 | one directive, its argument uses and the longest width and precision so far, or refused for being malformed or in conflict |
| PrintfParse.Parser.AddDirective | grep-3.11/gnulib-tests/printf-parse.c:657-680 | the directive is appended, the others are kept across regrowth to twice the size, and there is room for one more |
| PrintfParse.ConflictingUse | grep-3.11/gnulib-tests/printf-parse.c:119-122 | an entry with another type means two uses in the format that no argument list can serve |
| PrintfParse.ArgumentsAreCompatible | grep-3.11/gnulib-tests/printf-parse.c:119-122 | a table that serves its uses proves them compatible: the converse of a refusal |
| PrintfParse.LateConflict | grep-3.11/gnulib-tests/printf-parse.c:119-122 | a malformed or conflicting directive found late spoils the whole format, whatever follows |
| PrintfParse.Parser.Parse | grep-3.11/gnulib-tests/printf-parse.c:73-708 | success only for acceptable formats, and refusal only of others; on success the tables hold exactly the directives that the format denotes and serve exactly their uses, gaps without type, the last entry used, the maxima attained; out of memory only if memory may not suffice for the format's length and argument numbers |
| PrintfParse.AcceptableIsRead | grep-3.11/gnulib-tests/printf-parse.c:73-708 | a format is acceptable, well formed by the grammar with compatible uses, exactly when the reading succeeds without a conflict |
| LaneMasks.PopCountMask | src/search.c:98-104 | popcount of a movemask is the number of matching lanes |
| LaneMasks.AndMask | src/search.c:113-117 | and-ing two movemasks is the movemask of both conditions |
| LaneMasks.CtzMask | src/simd.c:52-55 | a mask is zero exactly when no lane matched, and otherwise ctz is the first lane that did |
| LaneMasks.ClearLowest | src/search.c:122-122 | x & (x - 1) clears the lowest matching lane and no other |
| Simd.ScalarMemchr | src/simd.c:13-19 | the first position of the byte, none exactly when it is absent |
| Simd.Sse2Memchr | src/simd.c:22-40 | the same, for 16-lane blocks and a scalar tail |
| Simd.Avx2Memchr | src/simd.c:44-71 | the same, for 32-lane, then 16-lane blocks and a scalar tail |
| Simd.Avx512Memchr | src/simd.c:75-101 | the same, for 64-lane, then 32-lane blocks and a scalar tail |
| Simd.FirstByteIsUnique | src/simd.c:104-114 | two variants never disagree, whichever is selected |
| Simd.FindNewline | src/simd.c:116-120 | the distance to the first newline, or the length without one |
| Search.CountCandidates | src/search.c:118-123 | the clear-lowest-bit loop visits each candidate once: it counts exactly the occurrences that start in the block |
| Search.CountSingle | src/search.c:95-105 | occurrences of a one-byte needle, all of them for an ASCII byte, else those covered by whole blocks |
| Search.CountMulti | src/search.c:106-130 | overlapping occurrences of a longer needle, all of them for ASCII end bytes, else those covered by whole blocks |
| Search.CountMatches | src/search.c:94-130 | what the counting path of search_data counts, for every text and needle |
| Search.AsciiIsNonNegative | src/search.c:105-128 | the bytes for which the tails compare as intended are those that are not negative as plain chars |
| Search.CountIsRightExactlyForAsciiEnds | src/search.c:105-128 | the count is the number of occurrences on every text if and only if the needle's end bytes are ASCII |
| Search.BmhSearch | src/bmh_simd.c:14-47 | the number of overlapping occurrences of any pattern, 0 for the empty one |
| Search.CountBothWays | src/search.c:94-130 | for ASCII end bytes the SIMD counter and bmh_search agree on every input |
| LineSearch.FixedStringMatch | src/regex_engine.c:36-62 | the leftmost occurrence of a non-empty pattern, none for the empty one or when there is none |
| LineSearch.CaseIsIgnoredExactlyWithoutLetters | src/search.c:83-84 | the leftmost occurrence is the leftmost one up to case, in every text, if and only if the pattern has no letters |
| LineSearch.CaseIsNotIgnored | src/regex_engine.c:36-62 | "A" is not found in "a", although it occurs there up to case |
| LineSearch.LinesAreLines | src/search.c:35-56 | every line is a maximal newline-free piece and carries one more than the newlines before it as its number |
| LineSearch.LinesTile | src/search.c:54-55 | the lines tile the data: each position belongs to one line or is the newline between two |
| LineSearch.LinesCount | src/search.c:35-56 | there are as many lines as newlines, and one more for an unterminated last line |
| LineSearch.SelectedPartition | src/search.c:40-42 | each line is selected either plainly or inverted, never both |
| LineSearch.MatchedAndInvertedAreAll | src/search.c:35-56 | matched lines plus inverted-match lines are all lines of the data |
| LineSearch.LimitOfOneCountsTwo | src/search.c:44-45 | two lines that hold the pattern count as two under a limit of one |
| LineSearch.SearchLines | src/search.c:28-77 | without a limit every selected line is counted and reported once, in order, with its number and the leftmost match in it; with a positive limit the count stays within it exactly when no more lines are selected, ends one above it otherwise, and as many lines as the limit are reported |
| SigProcMask.Emulation.constructor | grep-3.11/gnulib-tests/sigprocmask.c:184-219 | initially nothing is blocked or pending, and the machine has the installed handlers |
| SigProcMask.Emulation.RunBlockedHandler | grep-3.11/gnulib-tests/sigprocmask.c:191-202 | the private handler is installed again and the signal marked pending, nothing else changes |
| SigProcMask.Emulation.Raise | grep-3.11/gnulib-tests/sigprocmask.c:190-202 | an arrival at the emulation is an arrival at the machine: when blocked it becomes pending and nothing else, otherwise it is delivered to the handler installed, which is then uninstalled; other signals are left alone |
| SigProcMask.Emulation.Sigpending | grep-3.11/gnulib-tests/sigprocmask.c:204-215 | the machine's pending set |
| SigProcMask.Emulation.BlockLoop | grep-3.11/gnulib-tests/sigprocmask.c:251-262 | the newly blocked signals are those that can be caught; handlers, pending signals and deliveries are as before |
| SigProcMask.Emulation.UnblockLoop | grep-3.11/gnulib-tests/sigprocmask.c:264-282 | the abort is unreachable, the real handlers are back, and exactly the pending signals among those unblocked are noted |
| SigProcMask.Emulation.Sigprocmask | grep-3.11/gnulib-tests/sigprocmask.c:221-290 | block adds the signals of the set that can be caught and delivers nothing, unblock takes those of the set away, setting the mask leaves those of the set that were blocked or can be caught; what stays pending and what is delivered follows signal by signal; an unknown operation fails and changes nothing; the old set is reported; never aborts; refines the machine |
| SigProcMask.Emulation.ChangeAndRestore | grep-3.11/gnulib-tests/sigprocmask.c:221-290 | whatever is done to the mask, setting the reported old set restores it |
| SigProcMask.ChangedMask | grep-3.11/gnulib-tests/sigprocmask.c:233-249 | the machine's mask, pending set and deliveries after each operation, signal by signal |
| SigProcMask.Emulation.RplSignal | grep-3.11/gnulib-tests/sigprocmask.c:294-330 | the application sees and sets the machine's handler, whether the signal is blocked or not |
| SigProcMask.Emulation.QueryAfter | grep-3.11/gnulib-tests/sigprocmask.c:297-320 | a handler set while its signal is blocked is the one the application is told, after any calls and arrivals that leave it blocked |
| SigProcMask.ChangeMaskDelivers | grep-3.11/gnulib-tests/sigprocmask.c:264-287 | on unblocking each pending signal is delivered once, in ascending order, to its handler, and nothing else is |
| SigProcMask.BlockedRun | grep-3.11/gnulib-tests/sigprocmask.c:184-202 | over any run of calls and arrivals that leaves a signal blocked it is never delivered, it is pending exactly if it was or arrived, and it keeps its handler unless another is set |
| SigProcMask.ArrivalsWhileBlockedCollapse | grep-3.11/gnulib-tests/sigprocmask.c:284-286 | however often it arrives while blocked, unblocking delivers it exactly once, and not at all if it never arrived |
| SigProcMask.Emulation.HandleAll | grep-3.11/gnulib-tests/sigprocmask.c:184-330 | any run of calls and arrivals takes the emulation where it takes the machine |
| SigProcMask.Emulation.UnblockAfter | grep-3.11/gnulib-tests/sigprocmask.c:264-287 | the emulation delivers a signal exactly once on unblocking, however often it arrived while blocked over any run, and not at all if it never arrived |
| StrUniq.ComputeHash | grep-3.11/gnulib-tests/localename.c:2644-2654 | the rotate-and-add loop computes the hash by which buckets are defined, within a 64-bit word |
| StrUniq.RotateLeft9 | grep-3.11/gnulib-tests/localename.c:2650-2651 | the rotation is a multiplication by 512 modulo 2^64 - 1 |
| StrUniq.HashExamples | grep-3.11/gnulib-tests/localename.c:2644-2654 | the hashes of "ab", with its bucket, and of a char above 127, which is added as a negative number |
| StrUniq.StepKeepsInv | grep-3.11/gnulib-tests/localename.c:2676-2717 | every step of every thread keeps: buckets without duplicates, one lock holder, prepared nodes outside the table, and what each scan has learnt |
| StrUniq.RescanNextKeepsInv | grep-3.11/gnulib-tests/localename.c:2701-2707 | under the lock, passing a node extends what is known to be absent |
| StrUniq.PublishTable | grep-3.11/gnulib-tests/localename.c:2710-2711 | publishing after the locked scan keeps every bucket a list without two equal strings |
| StrUniq.StepExtends | grep-3.11/gnulib-tests/localename.c:2708-2711 | no step removes a node from a bucket or changes its contents |
| StrUniq.RunExtends | grep-3.11/gnulib-tests/localename.c:2674-2675 | nodes stay, with their contents, over any run |
| StrUniq.ScansFollowLiveNodes | grep-3.11/gnulib-tests/localename.c:2684-2686 | the pointer of an unlocked or locked scan is NULL or to a live node, whatever other threads do |
| StrUniq.NoDuplicates | grep-3.11/gnulib-tests/localename.c:2656-2668 | in every reachable state each bucket is a list of strings of its slot, no two equal |
| StrUniq.InterningIsCanonical | grep-3.11/gnulib-tests/localename.c:2674-2717 | any two finished calls returned the same node if and only if their strings are equal, and the node holds the string from then on |
| StrUniq.EqualArgumentsShareNode | grep-3.11/gnulib-tests/localename.c:2677-2717 | over any run with its moves, two returned calls gave the same node if and only if their arguments were equal, and a call's node holds its argument |
| StrUniq.NoNodeIsLeaked | grep-3.11/gnulib-tests/localename.c:2701-2711 | over any run each live node is in the table or prepared by a thread: a node prepared in vain is freed |
| StrUniq.ThreadCanStep | grep-3.11/gnulib-tests/localename.c:2677-2717 | wherever a thread is, its next step is possible, but for a lock that another thread holds |

## Left out

- kwset_engine_search: its unrolled loop for texts longer than twelve pattern lengths, the memchr path inside it, and patterns of no or one byte; the loop rests on a zero table entry that `build_delta1` does not make.
- Kwset.KwsetEngine.BmDelta2Search: stated for patterns of at least 2 bytes and for an entry window whose last byte is the pattern's; its callers establish that for patterns of at most 255 bytes, for longer ones a table entry truncated to zero can bring them here with another last byte.
- Kwset.KwsetEngine.SearchTail: stated for patterns of 2 to 255 bytes, since an entry of a longer one can be truncated to zero, and for an entry within the text: a failed verifier call can leave the position past the end, where the source then reads out of bounds (kwset_engine.c:177). The call of the verifier in that loop is not modelled, because it is proved unreachable.
- TwoWay.TwoWayShortNeedle: the bounds are on the search; the comparisons of the factorization are bounded on their own, and those of the test for a periodic needle are not counted.
- TwoWay.TwoWayLongNeedle: as for the short needle; which haystacks longer than the needle cost all 2n - m comparisons is not characterized. CMP_FUNC is equality of canonical words, which `CStrncasecmp` justifies for the only instance modelled.
- CriticalFactorization.CriticalFactorization: the comparisons are not bounded by two lengths, as the source's comment has it, because that does not hold; see above for exactly when it does.
- LONG_NEEDLE_THRESHOLD only selects between two searches with the same result and appears as such in `CStrcasestr`.
- fgrep_threadpool_create: the failure paths, and pools without workers; fgrep_threadpool_wait: it only observes that the list is empty, items may still be running.
- ThreadPool.DestroyReturnsAfterAllWork: destroy starts when no submit is in progress and none follows; work functions do not submit, and every call of a work function returns.
- ThreadPool.NoLostWakeup: states at the points where another thread may act; nodes are named by the step system and the allocation of a node in submit succeeds.
- InetPton.InetPton4: the case for other address families and `inet_pton`'s dispatch on them; errno.
- PrintfParse.Parser.Parse: the configuration for char formats on 64-bit glibc; the unistdio, Mac OS and Windows extensions and formats restricted to ASCII are not modelled; a block can be had when its size does not exceed a fixed amount; freeing the tables on an error is not modelled; running out of memory has a necessary condition only.
- LineSearch.SearchLines: real regular expressions, locks around output, colours, statistics and the summary lines printed from the count.
- The line-printing branch of `search_data` (search.c:131-197), mapped files, standard input, directory walking and option parsing.
- Search.CountMulti: the mask is an unsigned number; the source's `int` with only its top bit set overflows on `combined - 1`, which is modelled as wrapping around, as compilers have it.
- Simd.Memchr: the instruction set is a parameter, chosen at compilation in the source.
- SigProcMask.Emulation.Sigprocmask: a signal set is a set of numbers, so the bit widths of sigset_t, the alias of SIGABRT and the emulated SIGPIPE are not modelled; arrivals happen between calls, not between their statements, and application handlers do not call back.
- SigProcMask.Emulation.RplSignal: installing the private handler itself, which no application can name.
- StrUniq.InterningIsCanonical: the case of a single-threaded process, which skips the lock, and a failing allocation, which returns a static string; memory accesses are sequentially consistent.
- StrUniq.ComputeHash: the shifts and the or of a rotation are written as arithmetic.
- Windows wrappers, sockets, locale tables and generated headers.
