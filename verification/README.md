# Tcl: the regex engine and three smaller cores

A Dafny model of four parts of the Tcl library, with proofs of what they are for.

**The regular expression engine.** A parsed expression is a nondeterministic automaton whose arcs consume a colour
(a class of characters), do nothing (EMPTY), or test a neighbouring colour (`^`, `$`, AHEAD, BEHIND, LACON). A word is
the colour before the text, the colours of the text and the colour after it. The modules follow the engine from the
automaton to the match:

- `NfaGraph`: states and the set of arcs; `ArcLists`, `ArcChains`, `ArcMoves`, `SortedArcs`: the arcs as they are stored,
  on doubly linked chains, and how they are moved, copied and merged there; `WordReading`, `ArcWalks`,
  `ReadingBackward`: what it means to read a word.
- `Quantifiers`, `Repetition`, `SubNfas`, `Atoms`: bounded repetition and copies of sub-automata, by label sequences.
- `Cleanup`, `FixEmpties`, `ConstraintLoops`, `PullStep`, `PullBack`, `PullWeight`, `ConstraintRemoval`: the stages of the
  optimizer, each of which ends and keeps the accepted words; `Optimizer` puts them in sequence and goes on to the match;
  `Anchors` says what `^` and `$` mean at the ends of an expression.
- `ColorRuns`, `CompactNfa`, `SearchConversion`, `SearchNfa`: the compact form, subset simulation, the search automaton.
- `LazyDfa`, `StateSetCache`, `CacheTracking`, `SmallNfas`: the cache of state sets with eviction, its in-arc chains, and
  how match positions survive as stamps.
- `LabelReading`, `NodeNfas`, `Trees`: the automaton of each node of the tree of subexpressions, and why they agree.
- `Search`: the leftmost match. `Subexpr`, `Divisions`, `IterationSearch`, `MissedDivisions`, `Preference`, `Groups`,
  `Dissect`, `Execution`: where the submatches are.
- `ColorTree`, `ColorTable`, `ColorPartition`, `ColorMap`, `ColorRanges`, `ColorArcs`, `Brackets`: the shared
  copy-on-write tree of colours, subcolours, and the arcs that are repaired when colours are split.

**The assembler.** `StackUse` and `StackCheck`: stack depths over all paths of the flow graph. `JumpRelaxation` and
`CodeMotion`: which short jumps grow, and the code in place afterwards.

**The allocator.** `AllocLists`, `AllocMemory`, `BucketAlloc`: power-of-two buckets carved out of chunks, and big blocks
on a ring.

**The binary encodings.** `Bytes`, `Base64`, `Uuencode`: encoders and decoders, and that one undoes the other.
`Base64Text`, `UuText`: the alphabets, the bits in a group, and which texts are read strictly.

Code that updates objects in place is modelled by classes (`Nfa`, `Dfa`, `Matcher`, `ColorMap`, `ArcStore`, `BasicBlock`,
`AssemblyEnv`, `CompileEnv`, `Allocator`, `Output`) whose methods are proved against functions of the old state; loops are
loops, and buffers are arrays. `Left out` says where a value takes the place of a linked structure.

## Findings

What the code does not keep to, with the exact condition in each case.

- `tclit/generic/tclAssembly.c:2855`: the target of a jump has moved in every pass so far, but to the place of the jump
  itself only the motion of the current pass is added. So a short jump down the code (its target comes first) may be left
  short although jumps in between have grown in an earlier pass. `JumpRelaxation.JumpBackMissed` is such a program, with a
  distance of -131. `ShortJumpsDown` says exactly when such a jump is in reach, `RoomDown` gives a condition that can be
  checked beforehand, and `CodeMotion.CompileEnv.FinishJumps` carries both to the emitted bytes.
- `tclit/generic/regexec.c:1098-1101` and `1252-1255`: with a minimum of two or more, an empty piece is taken only where
  the pieces still owed are at least the characters left, so an iteration over `empty, abc` in two pieces is not
  considered. `MissedDivisions.TwiceMissed` is a subject and a tree; `PartsExactAbove` says exactly when a division is
  considered, `NothingMissed` that none is missed if the child accepts nothing empty, and `IterationSearch.PartsExact` that
  none is missed with a minimum of at most one.
- `tclit/generic/tclBinary.c:2774-2776`: the check of `-wrapchar` does not move past the newline, so everything after the
  first newline is let through, against the documentation (`tclit/doc/binary.n:131-136`). `Uuencode.DocumentedIs` says
  exactly which strings are let through rightly, `LineEndLost` gives one that is not and data that does not come back.
- `tclit/generic/tclBinary.c:2833-2837` and `2942-2949`: the encoder does not fill up the last group of a line, and a
  strict decoder refuses a line that ends within a group. `Uuencode.StrictRoundTrip`: strict decoding of the encoder's
  own output succeeds exactly if the number of bytes is a multiple of three.

## Model

| member | source | states |
|---|---|---|
| Optimizer.OptimizeAndFind | tclit/generic/regcomp.c:443-447 | from the parsed NFA to the match: after all optimizer stages, compaction, makesearch and the search, the result is the text the *parsed* NFA reads, between the marks that REG_NOTBOL and REG_NOTEOL select, that starts first and, among those, ends last (first if shorter), and NOMATCH exactly if it reads none; an NFA that has to begin with `^` 1 matches only at 0 and never under REG_NOTBOL, one that has to end with `$` 1 only at the end of the text and never under REG_NOTEOL; if it is not done, an NFA for the same words has more states than the limit or a loop of constraints, which no ranking fits |
| Optimizer.Optimize | tclit/generic/regc_nfa.c:1416-1450 | cleanup, fixempties, fixconstraintloops, pullback, pushfwd, cleanup in sequence: the accepted words are those of the parsed NFA, only PLAIN and LACON arcs are left, of old kinds or end-marker colours, none into pre, out of post or from pre to post, states are numbered without gaps and each lies between pre and post; not done exactly for a loop of constraints or more states than the limit |
| Optimizer.AnalysisMeans | tclit/generic/regc_nfa.c:2787-2804 | without lookahead constraints, REG_UIMPOSSIBLE is found exactly if the parsed NFA accepts no word, and REG_UEMPTYMATCH exactly if it accepts a word of only the two context colours |
| Optimizer.Analyze | tclit/generic/regc_nfa.c:2787-2804 | which of the two arc patterns the double loop reports |
| Optimizer.NoShortWord | tclit/generic/regc_nfa.c:86-91 | an arc from pre to post in the result would be a word shorter than the two context colours, which the parsed NFA cannot accept |
| Anchors.StartMeans | tclit/generic/regcomp.c:828-834 | an NFA whose start has only `^` co arcs reads a word exactly if the word begins with the colour bos[co] and the NFA without that test reads it |
| Anchors.EndMeans | tclit/generic/regcomp.c:835-841 | likewise for `$` co before the end and eos[co] |
| Anchors.CaretReads | tclit/generic/regc_nfa.c:1505-1518 | `^a` in its frame: it reads the word bos[1] a eos[1], and none that begins with bos[0] or with a character |
| Optimizer.StartOfText | tclit/generic/rege_dfa.c:74-86 | in a text, such an NFA matches from b to e exactly if b is 0, co is 0 under REG_NOTBOL and 1 without, and the NFA without the test matches |
| Optimizer.EndOfText | tclit/generic/rege_dfa.c:130-145 | and for the end, REG_NOTEOL |
| Cleanup.CleanUp | tclit/generic/regc_nfa.c:2698-2732 | dropping and renumbering keep the accepted words; every state left is reachable from pre and reaches post |
| Cleanup.Mark | tclit/generic/regc_nfa.c:2740-2780 | the recursive marking marks only states that s leads to through states marked okay, and leaves no such state behind a marked one (forward over outarcs, backward over inarcs) |
| Cleanup.DropUnmarked | tclit/generic/regc_nfa.c:2710-2716 | after the two markings exactly the states between pre and post, and the flagged ones, survive |
| Cleanup.UsefulSame | tclit/generic/regc_nfa.c:2710-2716 | walks from pre to post use useful arcs only |
| Cleanup.Renumber | tclit/generic/regc_nfa.c:2727-2731 | numbers are the positions in the state chain: without gaps and one to one |
| Cleanup.RenamedAccepts | tclit/generic/regc_nfa.c:2727-2731 | acceptance does not depend on the numbers of the states |
| FixEmpties.FixEmptyArcs | tclit/generic/regc_nfa.c:1875-2101 | no EMPTY arc is left, the arcs out of pre and into post are as the later stages need them, and exactly the same walks (for every indifferent walker: words and label sequences) lead from pre to post |
| FixEmpties.SameLabels | tclit/generic/regc_nfa.c:1875-2101 | in particular exactly the same sequences of non-EMPTY labels lead from pre to post |
| FixEmpties.SameWords | tclit/generic/regc_nfa.c:1875-2101 | and exactly the same words are accepted |
| FixEmpties.AliasSame | tclit/generic/regc_nfa.c:1891-1911 | a state whose only outarc is EMPTY can be merged into its successor |
| FixEmpties.FoldSame | tclit/generic/regc_nfa.c:1913-1937 | a state whose only inarc is EMPTY can be merged into its predecessor |
| FixEmpties.ReplacedSame | tclit/generic/regc_nfa.c:1939-2072 | pushing original non-EMPTY inarcs forward along EMPTY chains and then deleting the EMPTY arcs keeps all walks |
| FixEmpties.EmptyReachable | tclit/generic/regc_nfa.c:2108-2124 | the recursive search adds only states from which EMPTY arcs lead to s, and all their predecessors |
| FixEmpties.FoundExactly | tclit/generic/regc_nfa.c:2108-2124 | started from nothing it finds exactly the states from which a chain of EMPTY arcs leads to s |
| FixEmpties.PushTo | tclit/generic/regc_nfa.c:2017-2060 | every arc pushed to s is one original arc, and none is forgotten; arcs made on the way are not pushed again |
| ConstraintLoops.FixConstraintLoops | tclit/generic/regc_nfa.c:2169-2263 | dropping constraint self-loops and useless states keeps the words; -1 means the constraints can be ranked, so no cycle of constraints is left, and otherwise no ranking exists |
| ConstraintLoops.DropSelfLoops | tclit/generic/regc_nfa.c:2179-2204 | no constraint leads from a state to itself any more, and hasconstraints is false only if none is left; the words are kept |
| ConstraintLoops.FindConstraintLoop | tclit/generic/regc_nfa.c:2271-2309 | the marks of the recursion: what is done is ranked below what is on the path, and a hit is a real loop |
| ConstraintLoops.Scan | tclit/generic/regc_nfa.c:2211-2223 | the scan reports a loop exactly if there is one |
| ConstraintLoops.LoopUnranked | tclit/generic/regc_nfa.c:2271-2309 | a reported loop excludes every ranking |
| PullStep.CombineMeans | tclit/generic/regc_nfa.c:1818-1868 | for every reading, what combine() answers is what the two arcs in a row do: nothing, the arc alone, or both in either order |
| PullStep.PullKeeps | tclit/generic/regc_nfa.c:1541-1629 | one pull keeps the language: the old arcs around the constraint and the new ones, with shared intermediate states, read the same words |
| PullStep.CloneKeeps | tclit/generic/regc_nfa.c:1561-1580 | cloning the source of a constraint keeps the language |
| PullBack.Pull | tclit/generic/regc_nfa.c:1541-1629 | the whole of pull(), forward or backward: language kept, kinds kept, intermediates stay fit for reuse, constraints stay ranked; false exactly for a flagged source; every pull makes a number smaller that depends on the ranks, as long as the limit on states holds |
| ReadingBackward.SameBackward | tclit/generic/regc_nfa.c:1720-1808 | push is pull on the mirrored NFA: equal languages backward are equal languages forward |
| ReadingBackward.BothWays | tclit/generic/regc_nfa.c:1643-1713 | an NFA reads a word exactly if the mirrored NFA, with `^` and `$`, AHEAD and BEHIND exchanged, reads it backward |
| ConstraintRemoval.Pullback | tclit/generic/regc_nfa.c:1456-1534 | language kept; done exactly if the states stay within the limit, and then no back constraint is left, ^ out of pre having become PLAIN arcs of the end-marker colours |
| ConstraintRemoval.Pushfwd | tclit/generic/regc_nfa.c:1636-1713 | language kept; done exactly if the states stay within the limit, and then only PLAIN and LACON arcs are left |
| ConstraintRemoval.RemoveConstraints | tclit/generic/regc_nfa.c:1456-1713 | both in sequence: the rounds end, the language is kept, and unless there are more states than the limit what is left the executor can run |
| ConstraintRemoval.ConvertMarkers | tclit/generic/regc_nfa.c:1505-1518 | each `^` 0 out of pre becomes a PLAIN arc of bos[0], each `^` 1 one of bos[1], and backward each `$` 0 and `$` 1 into post one of eos[0] and eos[1]; nothing else changes, and the language is kept |
| ConstraintRemoval.PullUntilDone | tclit/generic/regc_nfa.c:1473-1503 | the rounds of pulling end: done exactly if the states stay within the limit, and then every back constraint left is out of pre |
| PullWeight.PulledToil | tclit/generic/regc_nfa.c:1582-1629 | why the rounds end: a pull replaces a constraint by constraints of lower rank, so a weight exponential in the ranks becomes smaller |
| PullWeight.ClonedToil | tclit/generic/regc_nfa.c:1561-1580 | and so it does if the source is cloned first, whose copied constraints have lower rank too |
| WordReading.PlainAccepts | tclit/generic/regc_nfa.c:1401-1414 | with only plain arcs left, reading a word with constraints is accepting it in the sense of the executor |
| NfaGraph.Nfa.DropState | tclit/generic/regc_nfa.c:199-212 | removes the state and all its arcs, and nothing else |
| ArcChains.ArcStore.CreateArc | tclit/generic/regc_nfa.c:317-362 | the new arc is at the beginning of both its chains; all doubly linked chains and counts stay exact, and no two arcs are equal |
| ArcChains.ArcStore.FreeArc | tclit/generic/regc_nfa.c:425-494 | exactly that arc is gone, and exactly its two chains are shorter by it, from wherever in them it was |
| ArcChains.ArcStore.ChangeArcTarget | tclit/generic/regc_nfa.c:505-538 | the arc changes from one in-chain to the beginning of another; out-chains are not touched |
| ArcMoves.NewArc | tclit/generic/regc_nfa.c:280-308 | the arc is there afterwards, once, and every other arc is as before |
| ArcMoves.FindArc | tclit/generic/regc_nfa.c:291-303 | walking the shorter of the two chains finds an equal arc exactly if there is one |
| ArcMoves.SortChain | tclit/generic/regc_nfa.c:598-638 | the chain of the state is in strict order afterwards, with the same arcs, forward and backward links set anew, all other chains untouched |
| ArcMoves.MoveArcs | tclit/generic/regc_nfa.c:771-851 | the arcs afterwards are those not into the old state (outarcs, 1031-1108: not out of it) and, for each that was, the one into the new state instead; whichever way is chosen, the chains and counts stay right |
| ArcMoves.CopyArcs | tclit/generic/regc_nfa.c:858-927 | the arcs afterwards are all there were and, for each into the old state (outarcs, 1115-1184: out of it), one into the new state |
| ArcMoves.MoveSorted | tclit/generic/regc_nfa.c:786-848 | the merge of the two sorted chains while it takes arcs out of the one and puts them at the beginning of the other |
| ArcMoves.MoveOneByOne | tclit/generic/regc_nfa.c:779-785 | one arc at a time with the check for an equal one: the same set of arcs |
| ArcMoves.CopySorted | tclit/generic/regc_nfa.c:872-926 | the merge that makes an arc only where no equal one is |
| ArcMoves.MergeIns | tclit/generic/regc_nfa.c:936-1024 | an array of arcs, with repeats, merged into the inarcs of s adds exactly those that are missing |
| SortedArcs.DropRepeats | tclit/generic/regc_nfa.c:967-986 | the in-place pass over the sorted array keeps one arc of each run of equal ones, in strict order |
| SortedArcs.NoCounterpart | tclit/generic/regc_nfa.c:807-848 | an arc that comes before what is left of the other list has no counterpart in it at all |
| ArcLists.UnlinkChain | tclit/generic/regc_nfa.c:450-483 | taking an arc out of a doubly linked chain, at its beginning, end or middle, leaves the chain of the others |
| SortedArcs.CompareTrans | tclit/generic/regc_nfa.c:641-668 | the order the arcs are sorted by is transitive |
| Quantifiers.Repeat | tclit/generic/regcomp.c:1354-1432 | what is strung from lp to rp afterwards leads through exactly the label sequences of m to n repetitions of what was there (n possibly without limit); an error exactly if m > n |
| SubNfas.LoopLeads | tclit/generic/regcomp.c:1402-1411 | a loop leads through any number of passes |
| SubNfas.SeriesLeads | tclit/generic/regcomp.c:1392-1427 | two sub-NFAs in a row lead through what one and then the other leads through |
| SubNfas.OptionLeads | tclit/generic/regcomp.c:1374-1381 | an EMPTY arc alongside makes a sub-NFA optional |
| SubNfas.CopyLeads | tclit/generic/regc_nfa.c:1307-1345 | a copy with other states leads through the same |
| Quantifiers.SeriesRepeats | tclit/generic/regcomp.c:1412-1427 | m-1 to n-1 repetitions and one more are m to n repetitions |
| Repetition.DupNfa | tclit/generic/regc_nfa.c:1282-1300 | the copy is strung between from and to, shares only those states with what was there, and leads through exactly what the original leads through |
| Repetition.DupTraverse | tclit/generic/regc_nfa.c:1307-1345 | the recursion copies every state that start leads to, with all its outarcs, once |
| Repetition.DelSub | tclit/generic/regc_nfa.c:1215-1271 | nothing leaves lp any more, and nothing outside the sub-NFA is touched |
| SearchConversion.MakeSearch | tclit/generic/regcomp.c:561-648 | unless already anchored, pre gets loops; exactly the states entered from pre and from elsewhere are split, so that the two copies tell progress from no progress |
| SearchNfa.SearchEnds | tclit/generic/regcomp.c:561-648 | at every position the search NFA is in post exactly if some start makes the main NFA be in post |
| SearchNfa.ColdBound | tclit/generic/regcomp.c:602-648 | while a match that has begun is under way the search run is not in a no-progress set |
| SearchNfa.AcceptsIsAccepted | tclit/generic/rege_dfa.c:47-166 | subset simulation of the compact NFA accepts a stretch exactly if a walk through the NFA spells its padded word |
| ColorRuns.Compact | tclit/generic/regc_nfa.c:2811-2898 | the compact NFA has exactly the arcs of the NFA, LACON arcs as colours beyond the real ones |
| ColorRuns.RunIsWalks | tclit/generic/rege_dfa.c:492-615 | the sets of states stand for walks |
| LazyDfa.Dfa.Longest | tclit/generic/rege_dfa.c:47-166 | the greatest end no later than stop that the NFA accepts, or NULL exactly if there is none, and hitstop exactly, over every run of the evicting cache |
| LazyDfa.Dfa.Shortest | tclit/generic/rege_dfa.c:174-291 | the least end between min and max, and a cold start that is the last no-progress position of the run |
| LazyDfa.Dfa.LastCold | tclit/generic/rege_dfa.c:298-315 | the latest no-progress stamp, evicted entries included |
| LazyDfa.Dfa.Miss | tclit/generic/rege_dfa.c:492-615 | the entry for the NFA step of css on co (LACON closure included), or NULL exactly if the step is empty; cache, chains and stamps stay right |
| LazyDfa.Dfa.GetVacantSS | tclit/generic/rege_dfa.c:656-729 | an entry without in- or out-arcs; an evicted entry is forgotten everywhere and its stamp kept in lastpost or lastnopr |
| LazyDfa.Dfa.PickNextSS | tclit/generic/rege_dfa.c:736-807 | an unused entry while there is one, else an old enough unlocked one |
| LazyDfa.Dfa.ClearInArcs | tclit/generic/rege_dfa.c:670-682 | afterwards no entry leads to r, and every other out-arc is as before |
| LazyDfa.Dfa.ClearOutArcs | tclit/generic/rege_dfa.c:684-708 | afterwards r is on no chain, and all other entries keep their arcs |
| LazyDfa.Dfa.Initialize | tclit/generic/rege_dfa.c:448-484 | entry 0 is the starting set, and no stamp of an earlier run counts any more |
| CacheTracking.VictimExists | tclit/generic/rege_dfa.c:736-807 | with room enough an unlocked, old enough entry always exists: the search for a victim never fails |
| CacheTracking.NoRoomForAll | tclit/generic/rege_dfa.c:736-807 | a cache in which no entry can be evicted has fewer than seven entries (pigeonhole on the last positions) |
| CacheTracking.StampRecorded | tclit/generic/rege_dfa.c:96-136 | stamping the entry just entered keeps: every match position of the run is the stamp of a cached entry or not after the last evicted one |
| CacheTracking.LatestMatch | tclit/generic/rege_dfa.c:138-166 | the latest match stamp is the last match position of the run |
| CacheTracking.LatestCold | tclit/generic/rege_dfa.c:298-315 | the latest no-progress stamp is the last no-progress position of the run |
| SmallNfas.RoomForAny | tclit/generic/rege_dfa.c:323-393 | NFAs of two or three states, whose caches are smaller than seven, cannot fill them, so every DFA has room enough |
| StateSetCache.LinkArc | tclit/generic/rege_dfa.c:606-613 | adding an out-arc at the head of an in-chain keeps all chains exact |
| StateSetCache.UnlinkArc | tclit/generic/rege_dfa.c:684-708 | so does taking one out from anywhere in a chain |
| StateSetCache.CutChain | tclit/generic/rege_dfa.c:670-682 | so does cutting a whole chain |
| CompactNfa.ClosureUnique | tclit/generic/rege_dfa.c:541-561 | the LACON closure does not depend on the order in which it is found |
| CompactNfa.StuckForever | tclit/generic/rege_dfa.c:96-125 | once a run is stuck it stays stuck, so the loop may stop |
| Search.SimpleFind | tclit/generic/regexec.c:323-421 | OKAY exactly if some stretch is accepted, and then the leftmost, and of those the longest (shortest if shorter), although begin runs only from cold to close |
| Search.Find | tclit/generic/regexec.c:323-421 | the same from the optimized NFA: compaction, makesearch and both DFAs included |
| Search.SearchFinds | tclit/generic/regexec.c:340-359 | the search NFA ends a match at e exactly if some match ends there |
| Search.ColdIsSafe | tclit/generic/regexec.c:364-370 | no match starts before the cold position |
| Dissect.Matcher.Cdissect | tclit/generic/regexec.c:631-692 | success means the submatches are those of the first division that does not fail, in the order of preference, and a capturing group holds exactly the stretch it was dissected on; failure means every division fails; only groups of the subtree change |
| Dissect.Matcher.Ccondissect | tclit/generic/regexec.c:699-782 | for a concatenation: midpoints from the longest down, each child verified |
| Dissect.Matcher.Crevcondissect | tclit/generic/regexec.c:789-873 | midpoints from the shortest up |
| Dissect.Matcher.Caltdissect | tclit/generic/regexec.c:961-991 | for an alternation: the first alternative that accepts and verifies |
| Dissect.Matcher.Cbrdissect | tclit/generic/regexec.c:880-954 | a back reference matches exactly if the group is set and the stretch is a number of copies, between min and max, of the characters the group matched |
| Dissect.EchoesIs | tclit/generic/regexec.c:880-954 | a number of copies of the group, counted, is the stretch equal to the group at every multiple of its length |
| Dissect.Matcher.Citerdissect | tclit/generic/regexec.c:998-1169 | for an iteration: terminates; success gives the first division into admissible pieces that all verify, failure means every such division has a piece that fails |
| Dissect.Matcher.Creviterdissect | tclit/generic/regexec.c:1176-1347 | the same with the shortest pieces first |
| Divisions.RankBack | tclit/generic/regexec.c:1144-1162 | backtracking to an earlier piece with a lower limit lowers a number to the base of the endpoints: why the loop ends |
| Divisions.LaterTotal | tclit/generic/regexec.c:1144-1162 | two different divisions of one stretch are always ordered, so none is passed over |
| IterationSearch.NothingLeft | tclit/generic/regexec.c:1144-1168 | when the search is given up, every admissible division has a piece that fails |
| IterationSearch.FoundAll | tclit/generic/regexec.c:1108-1140 | what is found first is the division preferred |
| IterationSearch.PartsExact | tclit/generic/regexec.c:1023-1045 | with min at most one a division is considered exactly if there is any repetition |
| IterationSearch.EmptyTarget | tclit/generic/regexec.c:1023-1045 | an empty stretch is divided exactly if one piece is enough |
| MissedDivisions.PartsExactAbove | tclit/generic/regexec.c:1098-1101 | with min of two or more a division is considered exactly if there is one without empty pieces that has enough pieces, or that has a place for an empty piece after which every piece is one character |
| MissedDivisions.NothingMissed | tclit/generic/regexec.c:1098-1101 | if the child accepts nothing empty no division is missed, whatever the minimum |
| MissedDivisions.TwiceMissed | tclit/generic/regexec.c:1098-1101 | a subject and a tree for which a division exists and none is considered |
| MissedDivisions.PaddedParts | tclit/generic/regexec.c:1149-1157 | a division that is too short is considered with empty pieces added, where they fit |
| Subexpr.NeverFails | tclit/generic/regexec.c:631-692 | without back references a stretch that the node NFAs accept can always be dissected (so REG_ASSERT failures cannot occur) |
| Preference.FindsPreferred | tclit/generic/regexec.c:631-692 | what is found is the preferred outcome, defined without failures |
| Preference.PreferredUnique | tclit/generic/regexec.c:631-692 | and there is only one, so the submatches are determined |
| Execution.FindAndDissect | tclit/generic/regexec.c:172-298 | from the search to all submatches: the leftmost match, the preferred submatches of the tree, and for every group n the stretch on which its node is dissected when each choice is the preferred one, or nothing exactly if it is not reached |
| Groups.GroupsAre | tclit/generic/regexec.c:598-692 | after a preferred dissection every group that occurs once holds (x, y) exactly if its node is dissected on x to y by the best splits, the first accepting alternatives and the last pieces of iterations, and is unset exactly if its node is not reached |
| Groups.InMiddle | tclit/generic/regexec.c:598-617 | for `a(b+)c`: the group is the stretch between the best split and the best split of the rest |
| Groups.CapsAre | tclit/generic/regexec.c:598-692 | the groups that dissection may set are those that occur in the tree |
| Atoms.IterateAtom | tclit/generic/regcomp.c:1249-1264 | moving what follows, copying the atom and repeating the copy: s to s2 stands for m to n repetitions of the atom, which stays where it is; an error exactly if m > n |
| Atoms.PrefixAtom | tclit/generic/regcomp.c:1227-1248 | x{m-1,n-1}x stands for x{m,n}: prefix and atom in turn, sharing one state |
| NodeNfas.FrameAccepts | tclit/generic/regc_nfa.c:55-98 | with the frame of a new NFA around it, a sub-NFA accepts a stretch of the text in its context exactly if its label sequences lead through the stretch |
| NodeNfas.NodeCnfa | tclit/generic/regcomp.c:1924-1956 | optimized and compacted, the NFA of a node accepts, in every text, exactly the stretches that the part it was copied from leads through, and the DFA can run it; not done only over the limit on states or for a loop of constraints |
| Trees.TreeConsistent | tclit/generic/regcomp.c:1902-1917 | if every node has the NFA of its part and the parts are laid out as the parser does, no node accepts what its children cannot make up: the premise of dissection |
| Trees.CopyCompiled | tclit/generic/regcomp.c:1939-1947 | a copy that leads through the same serves in place of the part |
| Trees.SeriesInTurn | tclit/generic/regcomp.c:1237-1246 | the parts made for a prefix and its atom are laid out in turn |
| Trees.FindInTree | tclit/generic/regexec.c:172-298 | search and dissection of such a tree without back references: a match exactly if the whole part leads through some stretch, then the leftmost one with the preferred submatches, and every group with the stretch of its node |
| ColorMap.ColorMap.constructor | tclit/generic/regc_color.c:55-99 | all characters are white and every block is a fill block |
| ColorMap.ColorMap.GetColor | tclit/generic/regguts.h:202-209 | the lookup through the tree gives the colour painted |
| ColorMap.ColorMap.SetColor | tclit/generic/regc_color.c:167-219 | with blocks copied on the way if they are shared, exactly one character changes colour |
| ColorMap.ColorMap.NewColor | tclit/generic/regc_color.c:242-305 | a colour that was not in use, from the free chain or a grown table; none exactly if all numbers are taken |
| ColorMap.ColorMap.FreeColor | tclit/generic/regc_color.c:312-364 | exactly that colour is out of use, the table is trimmed, no chain or tree pointer to it is left, no character changes |
| ColorMap.ColorMap.TrimMax | tclit/generic/regc_color.c:333-359 | the highest colour in use becomes max, and the free chain loses what is above |
| ColorMap.ColorMap.PseudoColor | tclit/generic/regc_color.c:371-383 | a colour no character has |
| ColorMap.ColorMap.SubColor | tclit/generic/regc_color.c:390-411 | the character moves to the open subcolour of its colour, counts stay exact, nothing else changes |
| ColorMap.ColorMap.NewSub | tclit/generic/regc_color.c:418-440 | the colour itself if the character is alone in it, else its open subcolour, opened now if need be |
| ColorTree.OneWay | tclit/generic/regc_color.c:190-213 | a block that is not shared is reached in one way only, so it may be written |
| ColorTree.SolidSlot | tclit/generic/regc_color.c:565-573 | putting a solid block in a slot recolours exactly the block of characters |
| ColorTree.FreedSolid | tclit/generic/regc_color.c:328-331 | freeing the block of a colour no character has leaves no pointer to it |
| ColorTree.CopyColorsColors | tclit/generic/regc_color.c:198-212 | copying a shared block changes no colour |
| ColorTable.OpenedSub | tclit/generic/regc_color.c:429-436 | opening a subcolour keeps parents and subcolours paired |
| ColorPartition.RecoloredCount | tclit/generic/regc_color.c:586-591 | recolouring a run moves its length from one count to the other |
| ColorPartition.TookSound | tclit/generic/regc_color.c:581-592 | taking a run keeps the partition: same old colour, same subcolour; counts exact; nothing taken twice |
| ColorPartition.ChosenAlone | tclit/generic/regc_color.c:425-428 | a colour whose count is one has one character, so it need not be split |
| ColorRanges.SubRange | tclit/generic/regc_color.c:448-488 | exactly the characters from from to to are taken, and exactly the colours they end up with have arcs |
| ColorRanges.SubBlock | tclit/generic/regc_color.c:495-593 | a block of characters at once: fill block, solid block or mixed block |
| ColorRanges.SolidBlock | tclit/generic/regc_color.c:541-574 | the whole block becomes the solid block of the subcolour |
| ColorRanges.MixedBlock | tclit/generic/regc_color.c:576-592 | a mixed block run by run |
| ColorRanges.OneChr | tclit/generic/regcomp.c:1640-1656 | one character |
| ColorArcs.OkColors | tclit/generic/regc_color.c:600-654 | every arc fits afterwards, by equality of colours, the characters it fitted before with open subcolours, and no subcolour is open |
| ColorArcs.PromotedSubs | tclit/generic/regc_color.c:612-652 | promoting one subcolour keeps the others paired |
| ColorArcs.RecolorArcs | tclit/generic/regc_color.c:626-637 | an empty parent hands its arcs to the subcolour |
| ColorArcs.ParallelArcs | tclit/generic/regc_color.c:643-651 | a parent that keeps characters gets parallel arcs for the subcolour |
| Brackets.Bracket | tclit/generic/regcomp.c:1440-1452 | a character has an arc from lp to rp exactly if it is listed, whatever was split; all other arcs stand for what they stood for |
| Brackets.CBracket | tclit/generic/regcomp.c:1462-1490 | a character has an arc exactly if it is not listed |
| Brackets.DoVec | tclit/generic/regcomp.c:1664-1687 | all characters and ranges of a list |
| Brackets.MembersAre | tclit/generic/regcomp.c:1664-1687 | a character is listed exactly if it is one of the characters or within one of the ranges |
| Brackets.ColorComplement | tclit/generic/regc_color.c:734-754 | arcs for exactly the colours that no plain arc out of the given state has |
| StackUse.SafeIffBounds | tclit/generic/tclAssembly.c:584-602 | lowest, highest and final depth of a block say exactly from which depths it runs within limits |
| StackUse.BasicBlock.AdjustStackDepth | tclit/generic/tclAssembly.c:584-602 | the three numbers after one more instruction are those of the longer list |
| StackUse.BasicBlock.UpdateStackReqs | tclit/generic/tclAssembly.c:630-659 | one operation more: it consumes what the table says or, for INT_MIN, the count given (one more for dictgetdef), and produces what the table says or, if that is negative, so much that the depth changes by -1 minus it |
| StackCheck.AssemblyEnv.CheckStack | tclit/generic/tclAssembly.c:3324-3365 | succeeds exactly if over all paths no block underflows or pops below its catch and every block has one entry depth; then the depths recorded are handed on to every successor, maxDepth bounds every path and is reached; on failure every depth recorded so far is brought by some path |
| StackCheck.AssemblyEnv.CheckBasicBlock | tclit/generic/tclAssembly.c:3391-3526 | a refusal means some path is unbalanced; acceptance means all newly visited blocks are done |
| StackCheck.AssemblyEnv.CheckSuccessors | tclit/generic/tclAssembly.c:3487-3526 | fall-through, jump target and jump table targets |
| StackCheck.AssemblyEnv.CheckExit | tclit/generic/tclAssembly.c:3550-3612 | accepted exactly if every path that reaches the end leaves no or one operand there, and an empty string is pushed exactly if one leaves none |
| StackCheck.PathChecked | tclit/generic/tclAssembly.c:3391-3526 | from blocks done to paths |
| StackCheck.DonePasses | tclit/generic/tclAssembly.c:3487-3526 | a block that is done has handed its exit depth to fall-through, jump target and every entry of its jump table |
| JumpRelaxation.RelaxPlaces | tclit/generic/tclAssembly.c:2799-2884 | every block has moved by three bytes for each jump before it that grew, and no short jump left fails the last test |
| JumpRelaxation.FewerShorts | tclit/generic/tclAssembly.c:2799-2884 | a pass that moves code leaves fewer short jumps: why the loop ends |
| JumpRelaxation.LeftAlone | tclit/generic/tclAssembly.c:2847-2864 | no jump grows and no code moves exactly if the distance of every short jump, from its opcode, is from -128 to 127 |
| JumpRelaxation.ShortJumps | tclit/generic/tclAssembly.c:2847-2864 | a short jump left over up the code fits a signed byte; down the code it may miss by what has grown |
| JumpRelaxation.ShortJumpsDown | tclit/generic/tclAssembly.c:2847-2864 | a short jump left over down the code fits a signed byte exactly if its distance plus what has grown in between is at most 128 |
| JumpRelaxation.RoomDown | tclit/generic/tclAssembly.c:2847-2864 | and it does if, before the call, the distance plus three bytes for each short jump in between is at most 128 |
| JumpRelaxation.OnePassFits | tclit/generic/tclAssembly.c:2847-2864 | if only one pass moves code every short jump left fits |
| JumpRelaxation.JumpBackMissed | tclit/generic/tclAssembly.c:2855 | a program whose short jump back by 131 bytes is left short |
| CodeMotion.CompileEnv.CalculateJumpRelocations | tclit/generic/tclAssembly.c:2799-2884 | the loop computes the relaxation and changes exactly the opcodes of grown jumps, each to the jump on the same condition with a long operand; fails exactly for an undefined label |
| CodeMotion.CompileEnv.MoveCodeForJumps | tclit/generic/tclAssembly.c:2981-3016 | every block is moved to its place with its bytes, none overwritten before it is moved |
| CodeMotion.CompileEnv.FillInJumpOffsets | tclit/generic/tclAssembly.c:3030-3063 | every jump operand reads back as the distance to its label; no other byte changes |
| CodeMotion.CompileEnv.FinishJumps | tclit/generic/tclAssembly.c:2799-3063 | all three: fails exactly for a label that is not defined; otherwise the bytes are kept, every jump opcode is the jump on the same condition that it was, with an operand of one byte if it is still short and four if not, long jumps and short jumps up go to their labels, short jumps down exactly if in reach with what has grown |
| CodeMotion.OpcodeKept | tclit/generic/tclAssembly.c:2857-2861 | opcodes by the table of jump instructions (`tclit/generic/tclCompile.h:598-604`): after the move the jump tests what it tested and its operand has the size that its flag says |
| CodeMotion.RoundTrip4 | tclit/generic/tclAssembly.c:3054-3057 | four stored bytes read back as the signed number |
| CodeMotion.RoundTrip1 | tclit/generic/tclAssembly.c:3051-3053 | one stored byte reads back exactly if the number is in range |
| BucketAlloc.Allocator.Alloc | tclit/generic/tclAlloc.c:266-379 | memory for numBytes that was not in use, big or from the smallest bucket whose blocks hold it: the first free block of that bucket if it has one, without asking the system; NULL exactly if the size overflows or the system was asked and gave nothing; nothing changes for any other user |
| BucketAlloc.FirstIsServed | tclit/generic/tclAlloc.c:338-352 | where the smallest bucket that fits has a free block, the first one is what is returned |
| BucketAlloc.Allocator.MoreCore | tclit/generic/tclAlloc.c:400-441 | the system is asked once; exactly if it gives memory the empty list is filled with all the blocks of a new chunk not held before, otherwise everything is as before |
| BucketAlloc.Allocator.Free | tclit/generic/tclAlloc.c:460-506 | exactly that block is no longer in use: a carved one is first in the list of its bucket, a big one is given back to the system; lists, ring and contents stay right |
| BucketAlloc.Allocator.Realloc | tclit/generic/tclAlloc.c:525-635 | the common prefix is kept, other users' bytes are untouched, the new place was not in use; a carved block stays where it is exactly if it is large enough and at most twice too large; NULL, with nothing changed, exactly where the system was asked and gave nothing or the size overflows |
| BucketAlloc.Allocator.ReallocBig | tclit/generic/tclAlloc.c:554-597 | a big block, moved by the system or, if it then fits, to a bucket; NULL exactly if the system gives nothing |
| BucketAlloc.Allocator.MoveSmall | tclit/generic/tclAlloc.c:598-622 | a carved block that is too small or much too large: served as a new one is, its prefix copied, the old one freed |
| AllocMemory.UsersApart | tclit/generic/tclAlloc.c:266-379 | bytes of different users never overlap |
| AllocMemory.HeadersApart | tclit/generic/tclAlloc.c:266-379 | headers of carved blocks are never among a user's bytes |
| AllocMemory.ChunkedOk | tclit/generic/tclAlloc.c:400-441 | carving a chunk keeps the memory in order |
| AllocLists.BlocksFit | tclit/generic/tclAlloc.c:414-419 | blocks of a bucket divide the chunk evenly |
| AllocMemory.LimitsAre | tclit/generic/tclAlloc.c:103-111 | the sizes of blocks double from bucket to bucket, and with headers of 8 or 16 bytes there are 12 or 11 buckets, for requests below 16384 or 8192 |
| AllocLists.RingInsert | tclit/generic/tclAlloc.c:297-300 | linking a big block in after the head keeps the ring |
| AllocLists.RingRemove | tclit/generic/tclAlloc.c:489-491 | linking a big block out keeps the ring |
| AllocLists.RingReplace | tclit/generic/tclAlloc.c:570-578 | a moved big block takes its old place in the ring |
| Base64.Encode | tclit/generic/tclBinary.c:2640-2693 | the characters of section 4 of RFC 4648 in lines of maxlen with the wrap string between them |
| Base64.Output.Put | tclit/generic/tclBinary.c:2573-2587 | every character and line end fits, and the buffer is full only after the last: the limit is never hit early |
| Base64.LinesSize | tclit/generic/tclBinary.c:2651-2659 | the size computed beforehand is exact |
| Base64.Decode | tclit/generic/tclBinary.c:3043-3178 | the bytes of the groups of four, junk passed over, or refused if strict (`Base64Text` says which texts are) |
| Base64.DecodeSize | tclit/generic/tclBinary.c:3082-3085 | the bytes fit the size computed beforehand, and no more are cut than were decoded |
| Base64.RoundTrip | tclit/generic/tclBinary.c:2573-3178 | decoding undoes encoding for all data, every line length and every wrap string without characters that count |
| Base64.StrictRoundTrip | tclit/generic/tclBinary.c:3086-3178 | in one line, strictly too |
| Base64.NeverBad | tclit/generic/tclBinary.c:3110-3160 | without -strict nothing is refused |
| Base64Text.DigitIs | tclit/generic/tclBinary.c:118-128 | the characters are those of table 1 of RFC 4648, + and / for 62 and 63 |
| Base64Text.ValueIs | tclit/generic/tclBinary.c:3137-3146 | exactly these characters count, each for its place in the table |
| Base64Text.GroupBits | tclit/generic/tclBinary.c:2673-2688 | the four characters of three bytes are their 24 bits, six at a time, and = stands for missing bytes |
| Base64Text.Vectors | tclit/generic/tclBinary.c:2640-2693 | the first three test vectors of section 10 of RFC 4648 |
| Base64Text.StrictAccepts | tclit/generic/tclBinary.c:3086-3178 | strict decoding accepts exactly groups of four characters that count, of which the last may be short by one or two, with or without padding |
| Base64Text.StrictSame | tclit/generic/tclBinary.c:3086-3178 | and what it accepts it decodes as lenient decoding does |
| Base64Text.Unpadded | tclit/generic/tclBinary.c:3104-3119 | padding may be left off, wholly or in part |
| Base64Text.OneLeft | tclit/generic/tclBinary.c:3104-3119 | a single character left over is refused if strict and dropped if not |
| Base64Text.JunkIgnored | tclit/generic/tclBinary.c:3128-3161 | lenient decoding sees only the characters that count and the padding |
| Uuencode.Encode | tclit/generic/tclBinary.c:2716-2847 | lines of length byte, six-bit characters and wrap; refused exactly for a line length outside 5..85 or a wrap string the check refuses |
| Uuencode.EncodeLine | tclit/generic/tclBinary.c:2820-2840 | one line, six bits at a time from a 32-bit accumulator, and it fits |
| Uuencode.CheckWrap | tclit/generic/tclBinary.c:2758-2791 | accepts exactly blanks followed by nothing or by a newline and anything |
| Uuencode.DocumentedIs | tclit/generic/tclBinary.c:2758-2791 | it accepts only what is documented exactly when no newline comes before the last character |
| Uuencode.LineEndLost | tclit/generic/tclBinary.c:2758-2791 | a wrap string that is let through and three bytes that do not come back |
| Uuencode.Decode | tclit/generic/tclBinary.c:2865-3002 | lengths, groups and line ends as the decoder takes them, leftovers at the end of the text included, strict or not (`UuText` says what strict reading lets through) |
| Uuencode.RoundTrip | tclit/generic/tclBinary.c:2806-3002 | decoding undoes encoding for all data, every line length and every documented wrap string |
| Uuencode.StrictRoundTrip | tclit/generic/tclBinary.c:2938-2954 | with the default wrap, strict decoding of the encoder's own output succeeds exactly if the number of bytes is a multiple of three |
| UuText.DigitIs | tclit/generic/tclBinary.c:106-116 | the 64 characters, with ` and not the blank for 0 |
| UuText.UuIs | tclit/generic/tclBinary.c:2865-3002 | the decoder takes these characters for their places in the table, and the blank for 0 too |
| UuText.LineBits | tclit/generic/tclBinary.c:2820-2840 | a line is the character of its length and then the bits of its bytes, six at a time, the last group cut short |
| UuText.CatIs | tclit/generic/tclBinary.c:2820-2840 | the line of `Cat` is `#0V%T` |
| UuText.FourAre | tclit/generic/tclBinary.c:2941-2956 | the four characters of a lenient group are the next four that stand for a value; where the text ends before, a character passed over at the very end stands in for the next one, and zeros for the others |
| UuText.StrictClean | tclit/generic/tclBinary.c:2938-2954 | what strict decoding accepts has only characters that mean something and white space, and is decoded as leniently |

## Left out

Regular expressions:

- Lexing, parsing of everything but bracket expressions, locale tables, case folding and multi-character elements.
- The optimizer's stages work on the set of arcs, and `ArcMoves` proves for the chains that the same set results. The
  chains of arcs of one colour, and two equal arcs that recolouring might make, are left out; in `ArcChains` the numbers of
  freed arcs are not used again. The intermediate states of pull and push are a map instead of a list, and pull and push,
  like the in- and out-variants of the sorted branches, are one method with a direction.
- Breaking a loop of constraints (breakconstraintloop, clonesuccessorstates) and the restart after it: a loop that is
  found is reported instead.
- ConstraintRemoval.RemoveConstraints: a limit on the number of states stands for the source's limit on the space of a
  compilation (REG_ETOOBIG, `tclit/generic/regc_nfa.c:140-142`), which counts batches of arcs too and is looked at before
  a state is made; here it is looked at after each pull.
- Optimizer.OptimizeAndFind: is for expressions without lookahead constraints, and answers `looped` where the source would
  break a loop of constraints.
- Lookahead constraints are an oracle on positions; the sub-automata that answer, and their recursion, are not modelled.
- Sets of states are sets, not bit vectors, and the hash that speeds up comparing them is left out.
- Memory: allocation failure, cancellation, growing of state-set areas, small DFAs on the stack and DFAs of nodes that are
  kept from one use to the next (each use makes one).
- complicatedFind (which alternates searching and dissecting when there are back references), REG_EXPECT and partial
  matches, and the choice between SimpleFind and it. Dissection with back references is proved sound, not complete.
- Subexpr.NeverFails: has the premise that the automata of the nodes agree, and so has Preference.FindsPreferred.
- Trees.TreeConsistent: derives that premise from the layout of the parts. `Atoms` proves the layout for quantified atoms;
  for groups, concatenations and alternations it is taken from the parser, which is not modelled.
- NodeNfas.NodeCnfa: is for parts without lookahead constraints, and begins after dupnfa has put the copy into the frame;
  `Repetition.DupNfa` copies within one automaton.
- Dissect.Matcher.Caltdissect: groups of an alternative that failed may stay set, as in the source; without back
  references no alternative that accepts fails.
- IterationSearch.PartsExact: is for a minimum of at most one; `MissedDivisions` gives the exact condition above.
- Colours: numbers of tree blocks stand for their addresses, so freeing is forgetting a number; after running out of
  colours the source goes on through the range and the model stops; newline-sensitive matching and rainbow arcs, the whole
  map's destruction and the debug checks are left out.
- ColorRanges.SubRange: promises only a valid map when colours have run out.

Assembler:

- Parsing of assembly source, error texts and line numbers, filling in of jump tables, exception ranges, embedded
  scripts, and the depth that the exit push itself needs.
- StackCheck.AssemblyEnv.CheckStack: rests on the premise that a catch context of a block is entered where the source's
  ProcessCatches, which is not part of this model, says it is.
- CodeMotion.CompileEnv.FinishJumps: is for code whose length stays below two gibibytes. Opcodes are counted from the
  enumeration (`tclit/generic/tclCompile.h:558-637`), whose comments give other numbers from `Opcodes 42 to 64` on.

Allocator:

- Mutexes, guard words, statistics, finalization and the overflow of size_t: sizes are unbounded numbers.
- The system's allocator is any that gives memory not in use; whether it gives any is an oracle, asked with the number of
  earlier requests and the size. That a carved block is either in its bucket's list or in use is part of `Valid`.

Encodings:

- Parsing of options and values, texts of errors and the positions they name; data and wrap strings are byte sequences.
- The overflow of the result's size, and `-wrapchar` strings that are not bytes.
- Uuencode.Decoded: is for line ends of blanks and newlines; for others that are let through see the findings.
- `binary format` and `binary scan`, and the other parts of the library.
