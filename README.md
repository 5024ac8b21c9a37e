# Morse subtraction and the search simulation, in Dafny

This project models two programs of the spliznork-stuff repository and proves
properties of the models.

**Morse subtraction** (`MorseSubtraction/MorseSubtraction.java`). A message is
a string over `*`, `-` and `_`. Subtracting a needle from a haystack means
choosing haystack positions, in increasing order, whose characters spell the
needle. The characters at those positions are removed and the fragments left
between them are joined. The program:

- collects every such result with a recursive scanning search over a shared
  result set (`searchByScanning`);
- drops the empty string (`bruteForce`);
- chains subtractions over a list of messages (`bruteForceSequence`);
- decodes a message name through a built-in table, or accepts a literal
  symbol string (`decodeMessage`).

The model has three modules.

- `MorseSpec` holds the reference definition. `Deletions(h, n)` is defined
  by recursion on the haystack: skip the first character, or match it
  against the needle's first character. Lemmas tie it to the positional
  reading, "erase an increasing list of matching positions", in both
  directions. They also decompose it by the first matched position, which
  is the shape of the scanning loop.
- `MorseChain` defines the chain as a fold of one-step subtractions. It
  proves the chain's laws, including that two consecutive later messages can
  be swapped without changing the result (`ReduceSwap`). More generally,
  any reordering of the messages after the first leaves the result unchanged
  (`ReduceReorder`): the chain depends only on the multiset of them.
- `MorseSubtraction` holds the operations themselves:
  - `SearchByScanning` is a recursive method with a `while` loop over
    `IndexOf`. It adds its results to a `ResultSet` object.
  - `BruteForce` and `BruteForceSequence` are methods proved equal to the
    reference functions.
  - `DecodeMessage` returns a `Result` value in place of throwing.
  - The message table is a constant map.

**Search simulation** (`lostsim/LostSim.java`). A square world of cells
remembers, for each cell, the tick at which it was last seen. The tick and the
cell's x and y are packed into one opaque value:

- the tick, shifted left by 20 bits;
- y, shifted left by 10 bits;
- x.

Viewing a place stamps the clamped square window around it with fresh ticks,
then advances the clock. A wanderer steps one cell at a time toward a target
cell. The model, module `LostSim`, has:

- the codec as functions;
- `World` as a class whose `lastViewedTick` array is updated in place by the
  nested loops of `View` and `InitializeLastViewedTicks`;
- `Wanderer` as a class whose `Tick` updates its position fields;
- the proximity test `isFound` as a function over two wanderers.

Every random choice is a parameter:

- the shuffled tick list that initialises the world;
- each shuffle of the view order;
- the coin of a diagonal step;
- the cells that `pickYoung` and `pickOld` return.

## Model

| member | source | states |
|---|---|---|
| MorseSpec.DeletionsSound | MorseSubtraction/MorseSubtraction.java:91-122 | every string the reference deletion set holds is the haystack with the positions of some increasing, matching occurrence of the needle erased |
| MorseSpec.DeletionsComplete | MorseSubtraction/MorseSubtraction.java:91-122 | erasing any increasing list of haystack positions that spell the needle yields a member of the deletion set |
| MorseSpec.SubtractCharacterization | MorseSubtraction/MorseSubtraction.java:84-89 | a string is a subtraction result iff it is non-empty and is the erasure of some occurrence of the needle |
| MorseSpec.DeletionsLength | MorseSubtraction/MorseSubtraction.java:97-120 | every deletion is exactly as much shorter than the haystack as the needle is long |
| MorseSpec.SubtractLength | MorseSubtraction/MorseSubtraction.java:84-89 | every subtraction result is non-empty and has length \|haystack\| - \|needle\| |
| MorseSpec.SubtractEmptyNeedle | MorseSubtraction/MorseSubtraction.java:97-99 | an empty needle yields exactly the haystack, and nothing when the haystack is empty too |
| MorseSpec.DeletionsTooLong | MorseSubtraction/MorseSubtraction.java:102-106 | a needle longer than the haystack has no deletion |
| MorseSpec.DeletionsSelf | MorseSubtraction/MorseSubtraction.java:103-104 | deleting the haystack from itself leaves only the empty string |
| MorseSpec.DeletionsTooLongOrDifferent | MorseSubtraction/MorseSubtraction.java:102-106 | a needle at least as long as the haystack and different from it has no deletion |
| MorseSpec.SubtractNothingLeft | MorseSubtraction/MorseSubtraction.java:102-106 | a needle longer than, or equal to, the haystack gives no subtraction result |
| MorseSpec.SubtractExample | MorseSubtraction/MorseSubtraction.java:18 | R (`*-*`) minus a single dot gives exactly `-*` and `*-` |
| MorseSpec.DeletionsAtMostOccurrences | MorseSubtraction/MorseSubtraction.java:91-122 | there are no more distinct deletions than subsequence occurrences of the needle |
| MorseSpec.OccurrenceFillsHaystack | MorseSubtraction/MorseSubtraction.java:102-104 | an occurrence of a needle as long as the haystack is the haystack itself |
| MorseSpec.OccurrencePositionBounds | MorseSubtraction/MorseSubtraction.java:112 | the i-th matched position leaves room for the i needle characters before it and the rest after it |
| MorseSpec.DeletionsFirstMatch | MorseSubtraction/MorseSubtraction.java:109-121 | the deletion set is the union, over every haystack position holding the needle's first character, of the prefix before it followed by the deletions of the needle's tail from what follows it |
| MorseSpec.BranchesStable | MorseSubtraction/MorseSubtraction.java:111 | positions skipped by indexOf, or leaving too little haystack, contribute nothing to that union |
| MorseSpec.EarlyStopLosesNothing | MorseSubtraction/MorseSubtraction.java:112-113 | once no later position both matches and leaves room for the needle, the branches seen so far already make up the whole deletion set |
| MorseChain.ReduceTwo | MorseSubtraction/MorseSubtraction.java:63-74 | with two messages the chain is exactly one subtraction of the second from the first |
| MorseChain.ReduceFromEmpty | MorseSubtraction/MorseSubtraction.java:65-72 | an empty candidate set stays empty through any further messages |
| MorseChain.EmptyStaysEmpty | MorseSubtraction/MorseSubtraction.java:65-72 | if the chain over a prefix of the messages leaves nothing, the chain over all of them leaves nothing |
| MorseChain.ReduceFromAppend | MorseSubtraction/MorseSubtraction.java:65-72 | the chain over xs + ys is the chain over ys started from the result over xs |
| MorseChain.ReduceFromLength | MorseSubtraction/MorseSubtraction.java:65-72 | every candidate left has lost exactly the total length of the messages subtracted |
| MorseChain.ThenDeletions | MorseSubtraction/MorseSubtraction.java:65-72 | deleting b and then c from a haystack is deleting both at disjoint positions |
| MorseChain.StepStep | MorseSubtraction/MorseSubtraction.java:65-72 | two chain steps equal one joint removal of both needles from every candidate, minus the empty string |
| MorseChain.StepsCommute | MorseSubtraction/MorseSubtraction.java:65-72 | two consecutive chain steps can be taken in either order |
| MorseChain.ReduceSwap | MorseSubtraction/MorseSubtraction.java:63-74 | swapping two neighbouring messages after the first leaves the chain's result unchanged |
| MorseChain.ReduceFromMoveToFront | MorseSubtraction/MorseSubtraction.java:65-72 | subtracting a message later in the chain, after any others, gives the same result as subtracting it first |
| MorseChain.ReduceFromPermutation | MorseSubtraction/MorseSubtraction.java:65-72 | two lists of messages holding the same multiset of messages give the same chain from any candidate set |
| MorseChain.ReduceReorder | MorseSubtraction/MorseSubtraction.java:63-74 | any reordering of the messages after the first leaves the chain's result unchanged |
| MorseSubtraction.DefaultMessages | MorseSubtraction/MorseSubtraction.java:15-28 | the ten named messages of the table; its properties are stated by the two lemmas below |
| MorseSubtraction.DecodeMessage | MorseSubtraction/MorseSubtraction.java:53-61 | a table name decodes to its entry; any other id decodes to itself iff it is a non-empty string over `*`, `_` and `-`; otherwise failure with the message "Unknown or malformed message " followed by the id |
| MorseSubtraction.DefaultMessagesAreSymbolStrings | MorseSubtraction/MorseSubtraction.java:15-28 | every entry of the message table is itself a valid symbol string |
| MorseSubtraction.DefaultNamesAreNotSymbolStrings | MorseSubtraction/MorseSubtraction.java:13-28 | no table name matches the symbol pattern, so the lookup and the pattern never overlap |
| MorseSubtraction.DecodeYieldsSymbolString | MorseSubtraction/MorseSubtraction.java:53-61 | whatever decodes successfully is a symbol string |
| MorseSubtraction.DecodeIdempotent | MorseSubtraction/MorseSubtraction.java:53-61 | decoding a decoded message gives the same message back |
| MorseSubtraction.ResultSet.Add | MorseSubtraction/MorseSubtraction.java:98 | the shared set gains exactly the element added |
| MorseSubtraction.ResultSet.Remove | MorseSubtraction/MorseSubtraction.java:87 | the shared set loses exactly the element removed |
| MorseSubtraction.IndexOf | MorseSubtraction/MorseSubtraction.java:111 | the first index at or after the start (a negative start counting as 0) holding the character, or -1 when none does |
| MorseSubtraction.SearchByScanning | MorseSubtraction/MorseSubtraction.java:91-122 | the shared set afterwards is the set before plus, with partial in front, every deletion of the remaining needle from the remaining haystack, and nothing else; terminates as the remaining haystack shrinks |
| MorseSubtraction.BruteForce | MorseSubtraction/MorseSubtraction.java:84-89 | the result is exactly the deletion set without the empty string |
| MorseSubtraction.BruteForceSequence | MorseSubtraction/MorseSubtraction.java:63-74 | the result is exactly the left-to-right chain of subtractions over the messages |
| LostSim.EncodeOpaque | lostsim/LostSim.java:54-56 | for x, y below 1024 and a tick below 2^43 the value is a non-negative long whose low ten bits are x and whose bits from 20 up are the tick |
| LostSim.DecodeX | lostsim/LostSim.java:89-91 | the decoded x lies in 0 .. 1023 for any long |
| LostSim.DecodeY | lostsim/LostSim.java:93-95 | the decoded y lies in 0 .. 1023 for any long |
| LostSim.DecodeEncode | lostsim/LostSim.java:54-56 | for x, y below 1024 and a tick below 2^43, decoding an encoded value gives back x, y and the tick, and the value fits a non-negative long |
| LostSim.EncodeDecode | lostsim/LostSim.java:89-95 | every non-negative long is the encoding of its decoded x, y and tick |
| LostSim.EncodeOrdersByTick | lostsim/LostSim.java:76-87 | an older tick encodes to a smaller value whatever the positions, so sorting the opaque values sorts cells by age |
| LostSim.OneTo | lostsim/LostSim.java:33-36 | 1, 2, ..., m is an ordering of 1 .. m |
| LostSim.World.constructor | lostsim/LostSim.java:23-30 | the world starts valid with currentTick = n²; cell k holds its own position and the k-th tick of the shuffled list; the stored ticks are an ordering of 1 .. n²; randomizeView is 1 .. (2v+1)² |
| LostSim.World.InitializeLastViewedTicks | lostsim/LostSim.java:32-44 | cell y*n + x holds the encoding of x, y and the next tick of the shuffled list |
| LostSim.World.InitializeRandomizeView | lostsim/LostSim.java:46-52 | randomizeView becomes 1, 2, ..., (2v+1)² |
| LostSim.World.SlotInRange | lostsim/LostSim.java:66-70 | every window cell's place in the row-major walk is a valid index into randomizeView |
| LostSim.World.View | lostsim/LostSim.java:58-73 | cells outside the clamped window are unchanged; window cells get their own position and the tick currentTick + the randomizeView entry of their place in the walk, a tick in (old currentTick, new currentTick]; currentTick advances by (2v+1)²; the world stays valid |
| LostSim.World.StampWindow | lostsim/LostSim.java:66-71 | the nested loops stamp exactly the window cells, each with its walk entry |
| LostSim.CellPosition | lostsim/LostSim.java:41 | in a valid world, decodeX and decodeY of cell y*n + x give x and y |
| LostSim.Wanderer.constructor | lostsim/LostSim.java:119-125 | a fresh valid world; current position the young cell's, target the old cell's; the clock advanced by one view; randomizeView is the view's shuffle; cells outside the window around the current position keep their initial encoding of position and shuffled tick, window cells hold their position and n² + their walk entry |
| LostSim.Wanderer.PickCurrent | lostsim/LostSim.java:127-132 | the position becomes the chosen cell's; cells outside the window around it are unchanged, window cells hold their position and the old tick + their walk entry, a tick above the old one |
| LostSim.Wanderer.PickTarget | lostsim/LostSim.java:134-138 | the target becomes the chosen cell's position; the current position is unchanged |
| LostSim.Wanderer.Tick | lostsim/LostSim.java:140-166 | a new target only once the old one was reached; when away from the target, exactly one coordinate moves by one and the Manhattan distance drops by exactly one, the coin deciding the axis when both differ, staying in the world; at the target, y grows by one; cells outside the new window are unchanged, and window cells hold their position and the old tick + their walk entry |
| LostSim.Wanderer.Move | lostsim/LostSim.java:144-164 | away from the target, exactly one coordinate moves one cell toward the target, the coin deciding the axis when both differ, and the new position lies between the old one and the target; at the target, y grows by one |
| LostSim.IsFound | lostsim/LostSim.java:177-182 | found iff the tourist is in the seeker's square of half-width radius and the y offset is not exactly radius |
| LostSim.FoundAsWrittenMissesEdgeRow | lostsim/LostSim.java:181 | a tourist radius rows above the seeker is in the square but not found |
| LostSim.FoundAsWrittenRadiusZero | lostsim/LostSim.java:181 | with radius 0 nobody is found, not even on the seeker's own cell |
| LostSim.FoundAsWrittenAsymmetric | lostsim/LostSim.java:181 | the offsets (0, -r) and (0, r) are treated differently |
| LostSim.FoundAsWrittenWithinSquare | lostsim/LostSim.java:181 | the test accepts only offsets in the square, and exactly those of its edge row y = radius are missed |
| LostSim.IsFoundCorrected | lostsim/LostSim.java:177-182 | found iff the tourist is in the seeker's square of half-width radius |
| LostSim.IsFoundCorrectedSymmetric | lostsim/LostSim.java:177-182 | the corrected test does not depend on who is the seeker |
| LostSim.FoundExactlyInView | lostsim/LostSim.java:58-63 | for a tourist inside the world, the corrected test with radius viewSize holds exactly when the tourist's cell is one `view` at the seeker's position stamps |

## Left out

- `MorseSubtraction.main`: argument handling, sorting for display, printing and timing are input, output and instrumentation.
- The `MorseSubtraction` object (two fields, `haystack` and `needle`) is folded into the parameters of `BruteForce`.
- `HashSet` is modelled as a Dafny `set`; `BruteForceSequence` visits the candidates in an arbitrary order, which cannot affect the resulting set.
- The regular expression `[*_-]+` is modelled as the predicate `IsSymbolString`, not as a regex engine.
- The `IllegalArgumentException` of `decodeMessage` is modelled as a `Failure` value.
- BruteForceSequence: requires a non-empty list of messages; on an empty list the Java code fails with an index exception, and `main` always passes at least two messages.
- `LostSim.main`: the Monte Carlo trial loop, the percentile statistics and the formatted output are simulation plumbing.
- `pickOld` and `pickYoung`: they draw a random index scaled by a `double` ratio into a sorted copy of the array. The model takes the chosen cell as a parameter; `EncodeOrdersByTick` states why the sorted copy is ordered by age.
- The `oldRatio` and `Random` fields of `Wanderer`, and `getCurrentX`/`getCurrentY`: the random choices they serve are parameters, and the model reads the position fields directly.
- `World.toString`: string formatting. Its tick extraction is `TickOf`.
- `Collections.shuffle` and `Random.nextBoolean`: a shuffled list is a parameter required to be an ordering of 1 .. m, and the coin is a boolean parameter.
- EncodeOpaque: computes on unbounded integers. The 64-bit wrap-around that follows a tick of 2^43 or more is not modelled. Instead, `DecodeEncode`, `World.View` and `Wanderer.Tick` require ticks below 2^43. Positions stay below 1024 because the world size is at most 1024.
- `DecodeX`/`DecodeY` use Euclidean `%` and `/` by powers of two. These agree with Java's `&` mask and arithmetic `>>` on every long, negative ones included, so no bound is needed.
- `Wanderer.Tick` does keep the case where a new target equals the current cell (`pickOld` returning the cell just viewed): the wanderer then steps to y + 1, which can leave the world. The model's `Valid` therefore keeps only the target inside the world, not the current position.

## Findings

| source | as written | input that shows it | evidently intended | confidence | as-written member | corrected member |
|---|---|---|---|---|---|---|
| lostsim/LostSim.java:181 | `dy < radius`, while the other three bounds are inclusive | radius = viewSize = 10, seeker at (10, 20), tourist at (10, 10): the tourist's cell is stamped by the seeker's `view`, yet `isFound` is false; with radius 0 even the same cell is never found | `dy <= radius`, so found means "in the seeker's view window" | not executed; likely, since every other bound is inclusive and `main` passes `viewSize` as the radius | LostSim.IsFound, LostSim.FoundAsWrittenMissesEdgeRow | LostSim.IsFoundCorrected, LostSim.FoundExactlyInView |
