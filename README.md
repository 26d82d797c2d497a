# Perpetuum: a verified model of the token engine and its table generator

Perpetuum compiles a Petri net into C tables and runs it with a small engine:

- every place keeps a token counter (`available`);
- every transition keeps a `countdown` of its unmet preconditions and a
  `notbefore` time before which it must not fire.

Tokens arriving in a place lower the countdowns of the transitions that place
feeds, and a transition whose countdown reaches zero is fired. The code
generator writes the static tables the engine runs on:

- the place and transition reference lists;
- the initial marking;
- the initial countdowns.

This project models both halves and the invariant that joins them. For every
transition, the countdown equals its number of normal input places that hold
no token plus its number of inhibitor sources that hold one. So the countdown
is zero exactly when the transition is enabled.

- `petrinet.dfy` (module `PetriNet`) holds the shared pieces:
  - the table layout, with 1-based references and length-prefixed lists where
    `l[0]` is the count;
  - `Blocked` (the number of unmet preconditions) and `Enabled`;
  - the invariant `CountdownsMatch`;
  - the lemma that states exactly how every countdown must move when one place
    crosses between empty and marked.
- `runtime.dfy` (module `Runtime`) is the single-threaded engine of
  `src/old/runtime.c`:
  - the plain `cas_int` / `xcg_int`;
  - the retry loop around them;
  - the wrap-around traversal of a place's followers;
  - a class `Colour` holding the per-instance counter arrays, with
    `mark_place`, `unmark_place` and `try_trans` as methods that keep the
    invariant.
- `codegen.dfy` (module `Codegen`) covers the table-building logic of
  `compiler/perpetuum-codegen.py`:
  - name sanitisation;
  - the choice of reference width;
  - the inverse index tables;
  - edge classification;
  - `genlist`;
  - the initial countdown.
- `startup.dfy` (module `Startup`) assembles the generated tables into a
  topology. It proves that the per-place initial countdowns satisfy the
  runtime invariant, so each starts at zero exactly when its transition is
  enabled under the initial marking. For nets without parallel arcs these
  are the countdowns the generator writes; with a repeated arc they are not,
  and the written countdowns break the invariant (see Findings).

Inputs the engine takes from its environment are parameters:

- the clock reading `now`;
- the action callback, a function from transition reference to result code.

The code is unfinished in places, and the model follows its evident intent:

- In `mark_place`, the firing and offering passes read the countdown through
  the place table (`runtime.c:194`, `:220-221`). The model reads the
  instance's transition countdown.
- In `try_trans`, the call that marks an output place omits the increment
  (`runtime.c:332`). The model uses 1.
- In `try_trans`, the input loop (`runtime.c:326-330`) decrements
  `available` a second time, through an index taken from the result of
  `unmark_place`, which returns nothing. The model takes exactly one token
  from each input place, through `unmark_place` alone.
- In `mark_place`, the firing pass calls `try_trans` on a countdown of 1
  (`runtime.c:194-195`), while `try_trans` refuses any countdown above 0
  (`runtime.c:271`). The model first lowers every follower's countdown and
  then tries, in the same wrap-around order, the followers that have reached
  0. The first one that fires ends the offer.
- `unmark_place` is a stub (`runtime.c:247`). It is modelled as the mirror of
  `mark_place`, as the comment at `runtime.c:63-68` describes. When a place
  empties:
  - every normal follower gains a precondition;
  - every transition the place inhibits loses one.

## Model

| member | source | states |
|---|---|---|
| Runtime.Cas | src/old/runtime.c:101-103 | stores the new value exactly when the counter held the expected one; always returns the value held before |
| Runtime.Xcg | src/old/runtime.c:104 | stores the new value and returns the previous one |
| Runtime.FetchAdd | src/old/runtime.c:147-150 | the read / compare-and-swap retry loop ends with the counter raised by exactly `delta`; it returns the old value, and no other counter changes |
| Runtime.WrapAround | src/old/runtime.c:183-200 | the traversal from `start` visits the entries from `start` down to 1 and then from the count down to `start`, exclusive, and then ends; an empty list yields nothing |
| Runtime.RotationCounts | src/old/runtime.c:183-200 | the wrap-around order holds every entry of the list exactly as often as the list does, so it visits each index in 1..count exactly once |
| Runtime.WalkCoversFollowers | src/old/runtime.c:181-200 | the walk over a place's normal followers offers each transition exactly as often as the place feeds it, and offers only valid references |
| Runtime.EmptyListWalkNeverEnds | src/old/runtime.c:183-200 | as written, the index of the walk over an empty list is 0 from the first round on and never returns to the start |
| Runtime.Colour.Ready | src/old/runtime.c:269-273 | under the invariant, a zero countdown means the transition is enabled, and the converse holds too |
| Runtime.Colour.Adjust | src/old/runtime.c:209-232 | each countdown moves by `delta` once per occurrence of its transition in the walk, and no other changes |
| Runtime.Colour.AdjustAll | src/old/runtime.c:151-160 | the down-counting loop over a length-prefixed list moves each countdown by `delta` once per arc to its transition, and no other changes |
| Runtime.Colour.MarkPlace | src/old/runtime.c:123-240 | requires `incr > 0`; the place gains exactly `incr` tokens; every other place changes only by the net flow of the transitions fired as a consequence, each of whose actions succeeded; the countdown invariant is preserved; a place that was already marked fires nothing; after an empty-to-marked crossing, the walk around its followers, under the countdowns that crossing leads to, fires exactly when some follower can fire, starting with the first such follower in walk order; if nothing fires, each tried follower whose action deferred waits until `now + delay` and every other deferral time is unchanged; whatever fires, a deferral time only ever changes to `now + delay` of a transition whose action deferred |
| Runtime.Colour.Announce | src/old/runtime.c:151-232 | when a place goes from empty to marked, the countdown of each inhibited transition rises and that of each normal follower falls, once per arc; the invariant is re-established under the new marking; the walk order is returned |
| Runtime.Colour.Spread | src/old/runtime.c:175-232 | the part of `mark_place` after an empty-to-marked crossing keeps the invariant, and the marking changes only by the flow of what it fires; over the follower walk and the post-crossing countdowns, it fires exactly when some follower can, starting with the first, and otherwise leaves exactly the deferral times the tried actions asked for; in every case a changed deferral time is `now + delay` of a deferring transition |
| Runtime.Colour.Offer | src/old/runtime.c:181-200 | the firing pass fires nothing exactly when no transition on the walk can fire (countdown 0, deferral elapsed, action succeeds); otherwise the first fired is the first on the walk that can; if none fires, no token or countdown changes and each tried transition whose action deferred gets `notbefore = now + delay`, the rest keep theirs; every transition reported fired had a successful action; when something fires, each deferral time that changed (in the pass or in the cascade) is `now + delay` of a transition whose action deferred |
| Runtime.Colour.UnmarkPlace | src/old/runtime.c:63-68 | the place loses exactly `decr` tokens and no other place changes; when the place empties, the invariant is re-established |
| Runtime.Colour.TryTrans | src/old/runtime.c:267-354 | a positive countdown gives Failure with nothing changed; before `notbefore` it gives a deferral by `notbefore - now` with nothing changed; otherwise it returns the action's result; on a deferral `notbefore` becomes `now + delay` and the marking is unchanged; on success the marking changes by the transition's flow and that of the cascade, and every transition in the cascade had a successful action, and every deferral time the cascade changes becomes `now + delay` of a transition whose action deferred; the invariant holds throughout |
| Runtime.Colour.TakeInputs | src/old/runtime.c:326-330 | each input place of an enabled transition loses exactly one token, and no other place changes; the invariant is kept |
| Runtime.Colour.PutOutputs | src/old/runtime.c:331-333 | each output place gains exactly one token, plus the flow of anything fired as a consequence, each with a successful action; the invariant is kept; every deferral time that changes becomes `now + delay` of a transition whose action deferred |
| Runtime.Colour.OutputPass | src/old/runtime.c:331-333 | one pass of the output loop: output place `place_out[here]` gets one token, the loop's token account moves on by exactly that arc plus the flow of what it fires, everything fired so far had a successful action, the invariant is kept, and deferral times change only by deferrals |
| Runtime.Colour.PutOutput | src/old/runtime.c:332 | marking one output place adds exactly one token there, plus the flow of what it fires, each with a successful action; the invariant is kept; when the place was empty (and fuel remains), something fires exactly when some follower on its walk can fire under the countdowns after the crossing; every deferral time that changes becomes `now + delay` of a transition whose action deferred |
| PetriNet.BlockedZeroIff | src/old/runtime.c:63-68 | the number of unmet preconditions is zero exactly when the transition is enabled |
| PetriNet.CountdownsDetermined | src/old/runtime.c:63-68 | for a well-formed net the invariant holds exactly for one countdown table per marking, the table of unmet-precondition counts |
| PetriNet.BlockedAfterSet | src/old/runtime.c:63-68 | changing one place's marking moves a transition's unmet-precondition count exactly by that place's crossing between empty and marked, on normal and on inhibitor arcs |
| PetriNet.CountdownsAfterSet | src/old/runtime.c:63-68 | moving every countdown by the crossing of the changed place keeps the countdown table consistent with the new marking |
| PetriNet.CountdownsWhileMarked | src/old/runtime.c:175-179 | a place that stays marked may change its token count without any countdown moving |
| PetriNet.CrossingKeepsNonNegative | src/old/runtime.c:218-221 | under a consistent table, the per-arc decrement of a follower's countdown when a place becomes marked (and, mirrored, that of an inhibited transition's countdown when a place empties) never takes a countdown below zero |
| Codegen.Sanitised | compiler/perpetuum-codegen.py:49-52 | the sanitised name holds only `_`, ASCII letters and digits, and is no longer than the input |
| Codegen.SanitisedKeepsAlphanumerics | compiler/perpetuum-codegen.py:49-52 | every ASCII letter and digit of the name is kept, as often as it occurs |
| Codegen.SanitisedUnderscores | compiler/perpetuum-codegen.py:49-52 | every `-` and space becomes `_` and is not dropped: the output has as many `_` as the input has `_`, `-` and spaces together |
| Codegen.SanitisedAppend | compiler/perpetuum-codegen.py:49-52 | sanitisation works character by character: it distributes over concatenation |
| Codegen.SanitisedKeepsIdentChars | compiler/perpetuum-codegen.py:49-52 | a name made only of identifier characters is left as it is |
| Codegen.NeatName | compiler/perpetuum-codegen.py:49-56 | the final name is a non-empty C identifier that starts with an ASCII letter; an empty sanitised name becomes `perpetuum`, unprefixed; one that starts with a letter is kept as it is; any other gets exactly the prefix `x` |
| Codegen.NeatNameKeepsIdentifiers | compiler/perpetuum-codegen.py:53-56 | a name that already is such an identifier passes through unchanged |
| Codegen.NeatNameIdempotent | compiler/perpetuum-codegen.py:49-56 | sanitising a sanitised name changes nothing |
| Codegen.NarrowestRefType | compiler/perpetuum-codegen.py:84-95 | the chosen type is the first in the table whose bound is strictly greater than the count, so it is the narrowest; there is none exactly when the count is at least 2^64 |
| Codegen.RefTypes | compiler/perpetuum-codegen.py:91-105 | both reference types are chosen that way; generation fails exactly when places or transitions number at least 2^64 |
| Codegen.BuildIndex | compiler/perpetuum-codegen.py:111-121 | given a hash that is a bijection onto 0..n-1, the index maps each key to its hash value, and the list holds each key at its index (`list[idx[k]] == k`); the index covers exactly the keys |
| Codegen.IndexedNames | compiler/perpetuum-codegen.py:111-121 | inverse tables imply the list has no repetitions, and looking a name up and back gives the name |
| Codegen.P2T | compiler/perpetuum-codegen.py:192 | one pair per normal arc (not of type `inhibitor`) leaving a place, so never more pairs than edges; each pair is the source and target of such an edge (completeness in `EdgeClasses`) |
| Codegen.P2I | compiler/perpetuum-codegen.py:193 | one pair per inhibitor arc leaving a place, so never more pairs than edges; each pair is the source and target of such an edge (completeness in `EdgeClasses`) |
| Codegen.T2P | compiler/perpetuum-codegen.py:194 | one pair per arc entering a place, so never more pairs than edges; each pair is the source and target of such an edge |
| Codegen.EdgeClasses | compiler/perpetuum-codegen.py:192-193 | every edge leaving a place lands in exactly one of the normal and inhibitor lists, decided by its type; the two lists together are as long as the place-sourced edges |
| Codegen.EdgeEndpoints | compiler/perpetuum-codegen.py:192-194 | the normal and inhibitor lists hold only arcs that leave a place, and the output list only arcs that enter one |
| Codegen.GenList | compiler/perpetuum-codegen.py:186-191 | emits the count followed by `1 + index` of each reference, in input order |
| Codegen.EncodeRefList | compiler/perpetuum-codegen.py:186-191 | the emitted list is length-prefixed, and every reference lies in 1..n |
| Codegen.DecodeEncode | compiler/perpetuum-codegen.py:186-191 | reading an emitted list back through the inverse table gives the original references, in order |
| Codegen.NeighboursAscending | compiler/perpetuum-codegen.py:195-201 | neighbour lists taken in table order carry strictly ascending references, so no neighbour appears twice |
| Codegen.FilterCount | compiler/perpetuum-codegen.py:195-201 | selecting from a list without repetitions keeps each selected name exactly once |
| Codegen.IniCountdown | compiler/perpetuum-codegen.py:257-262 | counts per edge: the normal arcs into the transition from empty places plus the inhibitor arcs into it from marked places, so never more than the two arc lists hold; zero exactly when normal sources are marked and inhibitor sources empty (`IniCountdownZeroIff`); equal to the per-place count when there are no parallel arcs (`Startup.IniCountdownPerPlace`) |
| Codegen.IniCountdownZeroIff | compiler/perpetuum-codegen.py:257-262 | the initial countdown is zero exactly when every normal source of the transition is marked and every inhibitor source is empty |
| Startup.Generate | compiler/perpetuum-codegen.py:195-201 | one place entry per name in the place table and one transition entry per name in the transition table, in table order, holding the lists `genlist` writes; these are valid length-prefixed reference lists (`GeneratedPlaceLists`, `GeneratedTransitionLists`) and agree on every arc (`GeneratedArcsAgree`, `GeneratedWellFormed`) |
| Startup.InitialMarking | compiler/perpetuum-codegen.py:242-244 | entry i is the initial marking of the i-th place of the place table |
| Startup.InitialCountdowns | compiler/perpetuum-codegen.py:255-263 | entry j is the generator's per-edge initial countdown of the j-th transition of the transition table |
| Startup.GeneratedPlaceLists | compiler/perpetuum-codegen.py:195-197 | every place's follower and inhibitor lists are length-prefixed lists of valid transition references |
| Startup.GeneratedTransitionLists | compiler/perpetuum-codegen.py:199-201 | every transition's input and output lists are length-prefixed lists of valid place references, and an input list repeats no place |
| Startup.GeneratedArcsAgree | compiler/perpetuum-codegen.py:195-201 | the place's view of a normal arc (follower list) agrees with the transition's view (input list), and both count one exactly when the arc is in `p2t` |
| Startup.GeneratedWellFormed | compiler/perpetuum-codegen.py:195-201 | the generated topology is well formed in every respect the runtime relies on |
| Startup.UnmarkedSourcesCount | compiler/perpetuum-codegen.py:257-259 | counting the empty normal inputs in the emitted input list, for a net without parallel arcs (no repeated pair in `p2t`), gives the generator's count of normal arcs from empty places |
| Startup.MarkedSourcesCount | compiler/perpetuum-codegen.py:260-262 | counting the marked inhibitor sources over the place table, for a net without parallel arcs (no repeated pair in `p2i`), gives the generator's count of inhibitor arcs from marked places |
| Startup.IniCountdownPerPlace | compiler/perpetuum-codegen.py:257-262 | without parallel arcs of one kind, the generator's initial countdown, counted per edge, equals the count per source place |
| Startup.ParallelArcsMiscount | compiler/perpetuum-codegen.py:257-259 | as written, a normal arc listed twice from an empty place gives initial countdown 2 where the runtime counts 1 unmet precondition, so the initial counters break the invariant |
| Startup.InitialBlocked | compiler/perpetuum-codegen.py:254-263 | each initial countdown, counted per source place, equals the runtime's number of unmet preconditions of its transition under the initial marking |
| Startup.InitialCountdownsMatch | compiler/perpetuum-codegen.py:240-263 | the generated topology, initial marking and per-place initial countdowns satisfy the invariant the runtime keeps, for any arc lists |
| Startup.GeneratedNetStarts | compiler/perpetuum-codegen.py:192-263 | end to end from the edge list, the generated tables satisfy the runtime invariant, and each transition starts at countdown zero exactly when it is enabled; without parallel arcs these are exactly the countdowns the generator writes |

## Left out

- The concurrent build is not modelled: the OpenPA atomics, the separate `unlocked` counter, and the lock / rollback code of `try_trans`. The source itself marks that code `#error` as incomplete. With one thread, every compare-and-swap retry loop succeeds on its first round.
- `time(NULL)` is not modelled. The clock is the parameter `now`.
- The registered action callback is not modelled as code. It is a pure function from transition reference to result code, so it cannot re-enter the engine.
- Runtime.Colour.MarkPlace: the cascade of firings (output tokens marking places that fire further transitions) is bounded by a `fuel` parameter. Where fuel runs out, tokens are still placed and countdowns kept, but no further firing is attempted. A cascade need not end: on a cyclic net whose actions always succeed (p → t → p, or p → t1 → q → t2 → p) it goes on for ever, and only the fuel bound stops it; any cascade is followed only as far as the fuel allows.
- Runtime.Colour.MarkPlace: the randomised fairness start is fixed at 1, as the source has it. `WrapAround` and `RotationCounts` are proved for any start in 1..count.
- Runtime.Colour.TryTrans: the `exempt` place and the `exempted` count cleanup are not modelled. Every input place of a fired transition loses one token through `unmark_place`, as the input loop at `runtime.c:326-330` does, without consulting `exempt`. For one firing's counters this is the net effect the cleanup is meant to reach. It is not the same for which transitions fire: under the exemption described at `runtime.c:257-259`, the exempted place stays marked during its firing's cascade, so a token that comes back to it does not cause another offer. In the model the place empties and refills, and the offer repeats.
- Runtime.Colour.TryTrans: after a successful firing, the cascade that its output tokens start is described only by its token flow, the successful actions of everything fired, the kept invariant and the rule that a changed deferral time is `now + delay` of a deferring transition. Which transitions fire in the cascade, and in what order, is not stated.
- Runtime.Colour.PutOutputs: as for `TryTrans`, the firings started by each output place are described only by their token flow, successful actions, the kept invariant and the deferral-time rule; the per-place walk outcome is not combined across the output places.
- Runtime.Colour.PutOutput: of `MarkPlace`'s walk outcome, only "fires something exactly when some follower can" is carried over; that an already marked place fires nothing, which follower fires first, and the exact deferral times when nothing fires are stated on `MarkPlace` only.
- Runtime.Colour.MarkPlace: its `ensures` do not restate the countdowns cell by cell. They state that the invariant holds, which determines each countdown from the marking.
- Arc multiplicities above 1 are not modelled; they are mentioned in comments but never implemented. A repeated edge of one kind between the same place and transition counts as a single arc, as the emitted neighbour lists have it (see the finding on parallel arcs).
- Integer widths are not modelled: token counters, countdowns and times are unbounded (`nat` and `int`). The C code uses `int` for the old token count and `old + incr` (`runtime.c:147-150`), `unsigned int` for the old countdown (`runtime.c:218`) and `time_t` for `now + rv` (`runtime.c:340`). Overflow and wrap-around of these are not captured; `CrossingKeepsNonNegative` shows only that no countdown is ever decremented below zero.
- Codegen.BuildIndex: the `cmph` perfect hash is not modelled. The hash is a parameter assumed to be a bijection from the keys onto 0..n-1.
- PNML parsing, `print` output, file handling and the C text templates of the generator are not modelled. Only the values they carry (names, reference lists, marking, countdowns) are.
- Codegen.RefTypes: the type names are an enumeration rather than the strings `uint8_t` … `uint64_t`, and the fatal exit is the `None` result.

## Findings

| source | as written | input that shows it | evidently intended | confidence | as-written member | corrected member |
|---|---|---|---|---|---|---|
| src/old/runtime.c:183-200 | the wrap-around do-while starts at index 1 and stops only when the index returns to `start`; on a list whose count is 0 it first reads entry 1, past the end of the list, and from then on the index stays at 0 (index 0 jumps to the count, 0), so the loop never ends | a place with no normal followers that becomes marked: `trans_out = {0}`, `start = 1` | a place without followers offers its token to nobody and returns | not executed | Runtime.EmptyListWalkNeverEnds | Runtime.WrapAround |
| compiler/perpetuum-codegen.py:257-262 | `ini_countdown` counts edges: a normal (or inhibitor) edge listed twice between the same place and transition counts twice, while `genlist` names the place once in the transition's input list (:200) and the transition once in the place's lists (:196-197) | two normal edges p→t with p initially empty: initial countdown 2, unmet preconditions 1; a token in p lowers the countdown to 1 only, so t never fires | count each source place once, as the emitted lists do | not executed | Startup.ParallelArcsMiscount | Startup.InitialCountdownsMatch |
