# Causal loop diagram analysis, modelled in Dafny

This project models the analysis core of `python/cld_analysis`. The core takes
a causal loop diagram: concepts joined by links that either increase or
decrease their target. It finds every feedback loop and scores each concept
by how diverse the loops through it are.

- `wrappers.dfy` (`Wrappers`): the `Option` and `Result` datatypes.
- `models.dfy` (`Models`): the sign of an influence and its decoding from a
  polarity value. It also has the concept registry, which hands out one
  concept per name with a running id. Links come last.
- `strings.dfy` (`Strings`): the two pieces of Python string behaviour that
  loop representations rely on. These are `str(n)` of a natural number and
  the `<` order on strings.
- `utils.dfy` (`Utils`): the two edit-distance routines. Each fills a 2-D
  `array2` column by column, as the source fills its matrix.
  - `LevenshteinDistance` is proved to compute `EditDistance`, the unit-cost
    recurrence.
  - `LevenshteinDistanceWithRotation` is proved to compute `RotationDistance`.
    That is the minimum of `EditDistance` over all rotations of both inputs.
    The proof covers both early exits: a column whose minimum already
    reaches `lowest`, and reaching the bound |m - n|.
- `sequence.dfy` (`Sequences`): the `Sequence` class, which is a path or loop
  of links.
  - It keeps the derived flags, the negative count and the cached
    representation.
  - Pure functions over link lists give these fields their meaning.
  - Lemmas prove rotation invariance and that every rotation of an elementary
    loop has the same standard form.
  - They prove the representation injective: equal representations mean equal
    flags and equal links, compared by id.
  - They also state what a sequence's type and polarity are, and the range,
    symmetry and rotation invariance of the distance.
- `scoring.dfy` (`Scoring`): the greedy score of
  `get_concepts_and_scores` as pure functions.
  - The incremental update-and-argmin loop is proved equal to a reference
    definition. The reference always scores next the remaining loop nearest
    to the already-scored ones.
  - A concept's score is proved to lie between the size of its starting loop
    and the sum of the sizes.
- `loop_set.dfy` (`LoopSets`): the `LoopSet` class. It stores loops in
  standard form and stores each representation at most once.
  - It orders and renumbers loops on `Finalize`.
  - It caches distances under the ordered pair of ids.
  - It scores every concept. The result is proved equal to the greedy
    score of the loops through the concept, taken in stable size order.
- `network.dfy` (`Networks`): the nodes and the `DiagramNetwork` class.
  - `AddLink` and `RemoveNode` are stated on the network's outward and inward
    adjacency maps.
  - Pruning removes nodes until no node lacks an inward or an outward link.
  - The depth-first loop search (`GetLoops`) is proved to store only
    elementary loops of the network as given, and to store every one of
    them, each under the representation of its standard form. It is also
    proved to leave them ordered by representation, numbered by position,
    and to leave the network empty.
  - The search from one node (`Explore`, `GetLoopsRecursive`,
    `FollowLink`, `Continue`) is proved to find every elementary loop it
    should. A loop counts as found when the representation of its standard
    form is a key of the loop set's `byRep` map; `FoundStored` shows that
    such a key is the representation of a stored loop.
  - Completeness of the whole search rests on `Covered`: every elementary
    loop of the network as given is still a loop of the current network, or
    has been found. Pruning keeps it because no node on a loop is a source or
    a sink. Removing a node after its search keeps it because every loop
    through that node has been found from it.

Python compares and hashes concepts by their id alone. The network's nodes
and each node's outward and inward links are keyed here by the concept's id.
The sets and maps of concepts returned by `get_all_concepts` and
`get_concepts_and_scores` hold whole concepts, name and id. For concepts
handed out by one registry, comparing whole concepts is the same as
comparing ids (`Models.SameConceptInRegistry`). Python
iterates dictionaries and sets in an order the model does not fix. Those loops
pick an arbitrary remaining element (`Networks.Pick`, or `:|`), so each
property holds whatever the order.

Where the code's behaviour is easy to misread, the model follows the code:

- `add_link` keeps the first link recorded between two concepts. A later link
  for the same pair is refused, not overwritten
  (`python/cld_analysis/network.py:19-31`).
- The standard form of a loop starts at the link whose source has the
  smallest integer id. Names play no part
  (`python/cld_analysis/sequence.py:146-152`).
- The distance between two loops is the rotation edit distance divided by the
  sum of the two lengths: a real number in [0, 1]. It is infinite when either
  sequence is not a loop or is empty.
- Scoring takes the loops through a concept in stable descending-size order.
  It starts from the last of them, the smallest, whose size is the base
  score. After that it always scores the remaining loop nearest to those
  already scored, not the next one in order.
- A concept in fewer than two loops gets no entry.
- A concept counts as in a loop only when it is a source of one of the loop's
  links.

## Model

| member | source | states |
|---|---|---|
| Models.FromPolarity | python/cld_analysis/models.py:15-30 | zero is an error with the source's message; a positive value means INCREASES and a negative one DECREASES, each in both directions |
| Models.FromPolarityCellValue | python/cld_analysis/models.py:15-30 | decoding the +1/-1 matrix cell of an influence gives that influence back |
| Models.ConceptRegistry.NewConcept | python/cld_analysis/models.py:51-54 | a new concept takes the current id and the counter moves on by one |
| Models.ConceptRegistry.GetConcept | python/cld_analysis/models.py:81-96 | get-or-create: a known name returns its concept with nothing changed; a new name is registered with the next id and appended to the insertion order |
| Models.ConceptRegistry.Reset | python/cld_analysis/models.py:74-78 | the registry is emptied and ids restart at 0 |
| Models.ConceptRegistry.GetAll | python/cld_analysis/models.py:98-101 | exactly one concept per requested name, each the registered one, no name twice |
| Models.SameConceptInRegistry | python/cld_analysis/models.py:69-72 | within one registry, comparing concepts by id is the same as comparing them outright |
| Models.SameLinkInRegistry | python/cld_analysis/models.py:128-133 | for concepts of one registry, link equality by source id, influence and target id is plain equality |
| Models.Lookup | python/cld_analysis/models.py:98-101 | the registered values listed in insertion order, one per name |
| Models.ListingOf | python/cld_analysis/models.py:98-101 | a duplicate-free listing of the registered names is as long as the set of names and reaches each of them |
| Strings.NatToString | python/cld_analysis/sequence.py:269-277 | `str(n)`: non-empty decimal digits, with a leading '0' only for 0 |
| Strings.NatToStringRoundTrip | python/cld_analysis/sequence.py:269-277 | reading the rendered digits back gives the number |
| Strings.NatToStringInjective | python/cld_analysis/sequence.py:269-277 | different ids render differently |
| Strings.LexLessIrreflexive | python/cld_analysis/sequence.py:297-299 | string `<` is irreflexive |
| Strings.LexLessAsymmetric | python/cld_analysis/sequence.py:297-299 | string `<` is asymmetric |
| Strings.LexLessTransitive | python/cld_analysis/sequence.py:297-299 | string `<` is transitive |
| Strings.LexLessTotal | python/cld_analysis/sequence.py:297-299 | any two different strings are ordered one way or the other, so sorting by `__lt__` is well defined |
| Utils.LevenshteinDistance | python/cld_analysis/utils.py:9-46 | the matrix-filling routine returns the edit distance of the two sequences |
| Utils.InitBorders | python/cld_analysis/utils.py:27-30 | first column 0..m and first row 0..n |
| Utils.FillColumn | python/cld_analysis/utils.py:91-109 | after filling column j every entry is the edit distance of the matching prefixes; the row-0 entries are untouched; it returns the column minimum (`lowest_in_row`) |
| Utils.LevCell | python/cld_analysis/utils.py:40-44 | the deletion/insertion/substitution minimum is the recurrence's value for the cell |
| Utils.EditDistanceBounds | python/cld_analysis/utils.py:9-46 | the distance lies between the length difference and the length sum, and is the other length when one input is empty |
| Utils.EditDistanceSymmetric | python/cld_analysis/utils.py:9-46 | the distance is symmetric |
| Utils.EditDistanceZero | python/cld_analysis/utils.py:9-46 | the distance is zero exactly for equal sequences |
| Utils.LevBounds | python/cld_analysis/utils.py:33-44 | every matrix entry lies between the prefix-length difference and sum |
| Utils.LevSymmetric | python/cld_analysis/utils.py:33-44 | every matrix entry equals the transposed entry of the swapped inputs |
| Utils.LevSelf | python/cld_analysis/utils.py:33-44 | a prefix is at distance zero from itself |
| Utils.LevZero | python/cld_analysis/utils.py:33-44 | a zero entry means equal prefixes |
| Utils.ColumnMinBelow | python/cld_analysis/utils.py:93-109 | `lowest_in_row` is at most every entry of its column |
| Utils.NextColumnAbove | python/cld_analysis/utils.py:91-109 | every entry of the next column is at least the current column's minimum |
| Utils.ColumnMinNondecreasing | python/cld_analysis/utils.py:91-109 | column minima never decrease from left to right |
| Utils.EarlyExitSound | python/cld_analysis/utils.py:111-114 | once a column's minimum reaches `lowest`, this rotation pair's distance cannot go below it, so breaking off is sound |
| Utils.RotationPass | python/cld_analysis/utils.py:83-117 | one rotation pair, with or without early exit, leaves `lowest` as the smaller of `lowest` and the pair's edit distance |
| Utils.RotationRow | python/cld_analysis/utils.py:82-121 | the inner loop over the rotations of `b` either returns the final answer at the bail-out or leaves the running minimum over every pair visited so far |
| Utils.LevenshteinDistanceWithRotation | python/cld_analysis/utils.py:49-123 | the result is the minimum edit distance over all rotations of both inputs (the length sum if one is empty) |
| Utils.BailOutSound | python/cld_analysis/utils.py:119-121 | returning as soon as `lowest` equals |m - n| returns the true minimum |
| Utils.Window | python/cld_analysis/utils.py:68-69 | the window of the doubled list starting at k is the rotation by k |
| Utils.DoubledWindow | python/cld_analysis/utils.py:92-96 | reading `a_double[a_start + i - 1]` reads the rotation of `a` by `a_start` |
| Utils.PairsMinNext | python/cld_analysis/utils.py:82-117 | the inner loop's step: the running minimum takes in one more rotation pair |
| Utils.PairsMinNextRow | python/cld_analysis/utils.py:81-82 | finishing a row of rotation pairs is starting the next |
| Utils.RotationDistanceIsMinimum | python/cld_analysis/utils.py:49-59 | the rotation distance is below every rotation pair's edit distance and equals one of them |
| Utils.RotationDistanceBounds | python/cld_analysis/utils.py:71-75 | the bail-out bound |m - n| and the starting value m + n bound the result |
| Utils.RotationDistanceBelowProgress | python/cld_analysis/utils.py:75-117 | every intermediate `lowest` is an upper bound on the result |
| Utils.RotationDistanceSymmetric | python/cld_analysis/utils.py:49-123 | swapping the inputs does not change the result |
| Utils.RotationDistanceRotateFirst | python/cld_analysis/utils.py:49-123 | rotating the first input beforehand does not change the result |
| Utils.RotationDistanceRotateSecond | python/cld_analysis/utils.py:49-123 | rotating the second input beforehand does not change the result |
| Utils.RotationDistanceZero | python/cld_analysis/utils.py:49-123 | the result is zero exactly when one input is a rotation of the other |
| Utils.Rotation | python/cld_analysis/utils.py:67-69 | a window of the doubled list keeps the length |
| Utils.RotationIndex | python/cld_analysis/utils.py:67-69 | each element of a rotation is the element k places further on, wrapping around |
| Utils.RotationMultiset | python/cld_analysis/utils.py:67-69 | a rotation is a permutation |
| Utils.RotationRotation | python/cld_analysis/utils.py:67-69 | two rotations compose into one |
| Utils.RotationInverse | python/cld_analysis/utils.py:67-69 | rotating by k and then by the length minus k gives back the original |
| Utils.RotateArray | python/cld_analysis/utils.py:126-138 | short lists come back unchanged; otherwise the first element moves to the end |
| Utils.RotateArrayPermutes | python/cld_analysis/utils.py:126-138 | `rotate_array` keeps the length and the elements |
| Utils.RotateArrayTimesIsRotation | python/cld_analysis/utils.py:126-138 | k applications of `rotate_array` are the rotation by k |
| Utils.RotateArrayRestores | python/cld_analysis/utils.py:126-138 | applying `rotate_array` once per element restores the list |
| Sequences.SourceIndex | python/cld_analysis/sequence.py:101-114 | the first index whose source has the id, or -1 when none has |
| Sequences.HasSource | python/cld_analysis/sequence.py:116-118 | true exactly when some link has the concept as source |
| Sequences.CountNegative | python/cld_analysis/sequence.py:82-86 | at most the number of links |
| Sequences.CountNegativeIsCount | python/cld_analysis/sequence.py:82-86 | the count is the number of DECREASES links |
| Sequences.Influences | python/cld_analysis/sequence.py:82-86 | the influences of the links, in order |
| Sequences.AsInts | python/cld_analysis/sequence.py:158-167 | the source id of each link, in order |
| Sequences.ClosedShape | python/cld_analysis/sequence.py:88-99 | closed exactly when the last target is the source of some link |
| Sequences.LoopShape | python/cld_analysis/sequence.py:88-99 | a loop exactly when the last target is the first source, and every loop is closed |
| Sequences.ContainsLink | python/cld_analysis/sequence.py:231-245 | true exactly when some link runs from the source id to the target id |
| Sequences.AllConcepts | python/cld_analysis/sequence.py:222-229 | exactly the sources and the last target: every source and the last target are included, and nothing else |
| Sequences.AllConceptsOfLoop | python/cld_analysis/sequence.py:222-229 | in a loop, the concepts are exactly the sources |
| Sequences.MinSourceIndex | python/cld_analysis/sequence.py:151 | the first link whose source id is smallest |
| Sequences.MinSourceIndexIsSourceIndex | python/cld_analysis/sequence.py:146-152 | `rotate_to_concept` with the lowest concept stops at that first smallest index |
| Sequences.StandardFormStartsAtMin | python/cld_analysis/sequence.py:146-152 | after `rotate_to_standard` the first source has the smallest id of all |
| Sequences.StandardFormOfRotation | python/cld_analysis/sequence.py:146-152 | every rotation of an elementary loop has the same standard form, so rotations of one loop are stored as one |
| Sequences.StandardFormPermutes | python/cld_analysis/sequence.py:146-152 | the standard form has the same links, keeps the sources distinct, and keeps a chained loop chained |
| Sequences.ChainedLoopRotation | python/cld_analysis/sequence.py:120-125 | rotating a chained loop gives a chained loop |
| Sequences.DistinctSourcesRotation | python/cld_analysis/sequence.py:120-125 | rotating keeps the sources distinct |
| Sequences.ChainedLoopShape | python/cld_analysis/sequence.py:88-99 | a chained loop and all its rotations are flagged loop and closed, with the same negative count |
| Sequences.CountNegativeRotation | python/cld_analysis/sequence.py:120-125 | rotation keeps the negative count, so the stale count `rotate` leaves is still right |
| Sequences.InfluencesRotation | python/cld_analysis/sequence.py:120-125 | the influences of a rotation are the rotated influences |
| Sequences.QueriesRotation | python/cld_analysis/sequence.py:116-118 | `has_source` and `contains_link` give the same answers after a rotation |
| Sequences.AsIntsRotation | python/cld_analysis/sequence.py:158-167 | the ids of a rotation are the rotated ids |
| Sequences.TailStart | python/cld_analysis/sequence.py:266-269 | "<EMPTY>" is shown exactly for no links |
| Sequences.BodyInjective | python/cld_analysis/sequence.py:271-279 | the text after the first id fixes every link's sign and target id, and the braces |
| Sequences.RepInjective | python/cld_analysis/sequence.py:257-281 | equal representations mean equal loop flag, equal closed flag where it shows, equal first source and equal signs and targets |
| Sequences.RepOfSameLinks | python/cld_analysis/sequence.py:257-281 | the representation depends on ids only |
| Sequences.ChainedSteps | python/cld_analysis/sequence.py:257-281 | for chained lists, the first source and the signs and targets fix every link by id |
| Sequences.SameAsChained | python/cld_analysis/sequence.py:286-292 | `__eq__` on chained sequences holds exactly for equal flags and the same links by id |
| Sequences.SignProductParity | python/cld_analysis/sequence.py:207-212 | an odd negative count is exactly a negative product of the link signs |
| Sequences.TypeOfInitialized | python/cld_analysis/sequence.py:196-212 | on an initialised sequence the type and polarity agree with the links: open when not closed, a loop when the last target is the first source, balancing when the sign product is negative |
| Sequences.SeqDistanceRange | python/cld_analysis/sequence.py:169-194 | infinite exactly when either is not a loop or is empty, and otherwise in [0, 1] |
| Sequences.SeqDistanceSymmetric | python/cld_analysis/sequence.py:169-194 | the distance is symmetric |
| Sequences.SeqDistanceRotation | python/cld_analysis/sequence.py:169-194 | rotating either sequence does not change the distance |
| Sequences.SeqDistanceZero | python/cld_analysis/sequence.py:169-194 | two non-empty loops are at distance 0 exactly when one's source ids are a rotation of the other's |
| Sequences.SequenceCounter.constructor | python/cld_analysis/sequence.py:27 | the shared id counter starts at 0 |
| Sequences.Sequence.constructor | python/cld_analysis/sequence.py:29-56 | a copy of the given links, flags derived from them, no cached text, and the next id |
| Sequences.Sequence.Copy | python/cld_analysis/sequence.py:49-53 | the same links as the original, flags recomputed, and the next id |
| Sequences.Sequence.Init | python/cld_analysis/sequence.py:75-80 | the flags and count agree with the links and the cache is cleared |
| Sequences.Sequence.AddLink | python/cld_analysis/sequence.py:58-73 | refused, with nothing changed, exactly on a closed sequence; otherwise the link is appended and the flags recomputed |
| Sequences.Sequence.Rotate | python/cld_analysis/sequence.py:120-125 | on a non-empty loop the first link moves to the end, otherwise nothing changes; the links stay a permutation, and a chained loop stays a consistently flagged chained loop |
| Sequences.Sequence.RotateToConcept | python/cld_analysis/sequence.py:127-144 | a loop with the concept as a source is rotated to start there; otherwise nothing changes |
| Sequences.Sequence.RotateUntil | python/cld_analysis/sequence.py:143-144 | repeated `rotate` until the concept is first is the rotation by its first index |
| Sequences.Sequence.RotateToStandard | python/cld_analysis/sequence.py:146-152 | a non-empty loop becomes its standard form; anything else is unchanged |
| Sequences.Sequence.GetType | python/cld_analysis/sequence.py:196-205 | open, closed, balancing or reinforcing, each exactly in its case |
| Sequences.Sequence.GetPolarity | python/cld_analysis/sequence.py:207-212 | negative exactly for an odd negative count |
| Sequences.Sequence.Str | python/cld_analysis/sequence.py:251-255 | returns the cached text, or computes and caches it; with a current cache that is the representation of the links |
| Sequences.Sequence.Distance | python/cld_analysis/sequence.py:169-194 | the distance of the two sequences' links and loop flags |
| Scoring.UpdateAll | python/cld_analysis/loop_set.py:209-215 | every remaining value is lowered to its distance from the loop scored last when that is smaller |
| Scoring.FirstMin | python/cld_analysis/loop_set.py:217-224 | the argmin loop finds the first smallest value |
| Scoring.Without | python/cld_analysis/loop_set.py:227 | `pop(i)` removes exactly the element at i |
| Scoring.ScaledIsProduct | python/cld_analysis/loop_set.py:228 | the contribution is size times value |
| Scoring.NearestIsMinimum | python/cld_analysis/loop_set.py:199-230 | a loop's value is min(1.0, the smallest finite distance to a scored loop) |
| Scoring.GreedyStep | python/cld_analysis/loop_set.py:207-230 | one round adds the picked loop's size times its updated value |
| Scoring.RoundGreedy | python/cld_analysis/loop_set.py:207-230 | a round's contribution plus the rest of the rounds is the whole remaining score |
| Scoring.GreedyIsReference | python/cld_analysis/loop_set.py:207-230 | updating values against the last scored loop only is the same as always measuring against every scored loop |
| Scoring.ConceptScoreIsReference | python/cld_analysis/loop_set.py:199-230 | a concept's score is its smallest loop's size plus, repeatedly, the nearest remaining loop's size times its distance to the scored ones |
| Scoring.ConceptScoreBounds | python/cld_analysis/loop_set.py:199-230 | a concept's score lies between the size of its starting loop and the sum of its loops' sizes |
| Scoring.GreedyBounds | python/cld_analysis/loop_set.py:207-230 | each scored loop adds between 0 and its size |
| Scoring.UpdateAllUnit | python/cld_analysis/loop_set.py:212-215 | values in [0, 1] stay in [0, 1] |
| Scoring.ViewDistanceUnit | python/cld_analysis/sequence.py:169-194 | every finite loop distance lies in [0, 1] |
| Scoring.SumSizesWithout | python/cld_analysis/loop_set.py:227 | popping a loop takes its size off the sum |
| LoopSets.PairKey | python/cld_analysis/loop_set.py:132 | the cache key is the two ids, smaller first |
| LoopSets.PairKeySymmetric | python/cld_analysis/loop_set.py:132 | both orders of a pair share one cache entry |
| LoopSets.CanonicalRepRotation | python/cld_analysis/loop_set.py:43-47 | every rotation of an elementary loop is stored with the same links and the same representation |
| LoopSets.CanonicalLinksOfLoop | python/cld_analysis/loop_set.py:43-44 | the stored copy is an elementary loop with the same links, starting at a source no larger than before |
| LoopSets.CachedDistance | python/cld_analysis/loop_set.py:120-139 | the distance of the two loops; a cached pair leaves the cache alone, a missing one is added under the ordered pair |
| LoopSets.LoopSet.constructor | python/cld_analysis/loop_set.py:19-22 | no loops, empty list, empty cache |
| LoopSets.LoopSet.Size | python/cld_analysis/loop_set.py:74-76 | the number of stored loops |
| LoopSets.LoopSet.AddLoop | python/cld_analysis/loop_set.py:24-54 | a non-loop is refused with nothing stored; otherwise the stored loop with the copy's representation is returned if there is one, else the new standard-form copy is stored and returned |
| LoopSets.LoopSet.StandardCopy | python/cld_analysis/loop_set.py:43-47 | a fresh copy in standard form with the next id and its representation cached |
| LoopSets.CopyToStandard | python/cld_analysis/loop_set.py:43-44 | the copy holds the standard form of the loop's links |
| LoopSets.LoopSet.FindByRep | python/cld_analysis/loop_set.py:47-50 | a stored loop with that representation, or none exists |
| LoopSets.LoopSet.Store | python/cld_analysis/loop_set.py:53-54 | the new loop joins the set, which keeps one loop per representation and per id |
| LoopSets.LoopSet.Finalize | python/cld_analysis/loop_set.py:56-68 | the list holds the stored loops, each once, in increasing representation order, and each loop's id is its index |
| LoopSets.LoopSet.SortByRep | python/cld_analysis/loop_set.py:64 | every stored loop, once each, in increasing representation order |
| LoopSets.LoopSet.TakeLeast | python/cld_analysis/loop_set.py:64 | the least remaining loop moves to the end of the sorted prefix |
| LoopSets.LoopSet.MinByRep | python/cld_analysis/loop_set.py:64 | the candidate whose representation precedes all others |
| LoopSets.OrderedLessThan | python/cld_analysis/loop_set.py:64 | a list ordered by cached representation is ordered by `__lt__` |
| LoopSets.Renumber | python/cld_analysis/loop_set.py:66-68 | each listed loop's id becomes its index |
| LoopSets.Numbered | python/cld_analysis/loop_set.py:66-68 | after renumbering each loop is found at its id |
| LoopSets.LoopSet.SizeKey | python/cld_analysis/loop_set.py:85 | each listed loop is keyed by its size |
| LoopSets.LoopSet.LoopsSortedBySize | python/cld_analysis/loop_set.py:78-85 | a permutation of the list with sizes non-increasing |
| LoopSets.LoopSet.LoopsSortedBySizeStable | python/cld_analysis/loop_set.py:78-85 | loops of equal size keep their list order, as Python's stable sort does |
| LoopSets.SortByKey | python/cld_analysis/loop_set.py:85 | a descending sort by key |
| LoopSets.SortByKeyPermutes | python/cld_analysis/loop_set.py:85 | the sort is a permutation |
| LoopSets.SortByKeyStable | python/cld_analysis/loop_set.py:85 | elements with equal keys keep their order |
| LoopSets.LoopSet.LoopsContainingLink | python/cld_analysis/loop_set.py:87-102 | the number of stored loops containing a link from the source to the target |
| LoopSets.LoopSet.LoopsContainingConcept | python/cld_analysis/loop_set.py:104-118 | the number of stored loops with the concept as a source |
| LoopSets.LoopSet.GetDistance | python/cld_analysis/loop_set.py:120-139 | the distance of the two loops, computed once per id pair and cached under the ordered pair |
| LoopSets.LoopSet.GetAllConcepts | python/cld_analysis/loop_set.py:141-146 | exactly the concepts of the stored loops |
| LoopSets.LoopSet.GetConceptsAndScores | python/cld_analysis/loop_set.py:148-238 | a concept has an entry exactly when it is in some loop and a source in at least two; its entry is the greedy score of those loops in size order |
| LoopSets.ScoreAll | python/cld_analysis/loop_set.py:176-236 | every concept with a score gets exactly that score, and the others none |
| LoopSets.ScoreConcept | python/cld_analysis/loop_set.py:183-236 | counts the loops through the concept and scores them when there are at least two |
| LoopSets.SourceLoops | python/cld_analysis/loop_set.py:183-186 | the loops with the concept as a source, in size order |
| LoopSets.Containing | python/cld_analysis/loop_set.py:183-186 | every listed loop with the concept as a source, and no other |
| LoopSets.GreedyScore | python/cld_analysis/loop_set.py:199-230 | the score built from one concept's loops is their greedy concept score |
| LoopSets.ScoreRound | python/cld_analysis/loop_set.py:207-230 | one round's contribution plus the rest is the remaining greedy score |
| LoopSets.UpdateScores | python/cld_analysis/loop_set.py:211-215 | the values after the update loop |
| LoopSets.ScoreNext | python/cld_analysis/loop_set.py:217-230 | the first least loop is popped and contributes its size times its value |
| LoopSets.NearestIndex | python/cld_analysis/loop_set.py:217-224 | the index of the first smallest value |
| Networks.Node.AddInwardLink | python/cld_analysis/network.py:19-24 | recorded exactly when no inward link from that source exists; otherwise the node is unchanged |
| Networks.Node.AddOutwardLink | python/cld_analysis/network.py:26-31 | recorded exactly when no outward link to that target exists; otherwise the node is unchanged |
| Networks.Node.RemoveLinksTo | python/cld_analysis/network.py:41-50 | reports whether there were links either way, and drops both |
| Networks.SourcesAndSinks | python/cld_analysis/network.py:106-110 | the nodes with no outward or no inward link |
| Networks.CollectSourcesAndSinks | python/cld_analysis/network.py:106-110 | the collecting loop finds exactly the sources and sinks |
| Networks.UnlinkAll | python/cld_analysis/network.py:92-93 | every node drops its links to and from the concept, and nothing else |
| Networks.DiagramNetwork.constructor | python/cld_analysis/network.py:61-62 | no nodes |
| Networks.DiagramNetwork.AddLink | python/cld_analysis/network.py:64-82 | both end nodes exist after; the link is recorded on both sides unless one between those two was recorded first; the two sides stay mirror images |
| Networks.DiagramNetwork.RemoveNode | python/cld_analysis/network.py:84-97 | the node is gone and the rest is the network induced on the other nodes |
| Networks.DiagramNetwork.RemoveSourcesAndSinks | python/cld_analysis/network.py:99-118 | the count is the number of sources and sinks; they are removed with their links; a zero count changes nothing; every elementary loop survives the removal |
| Networks.DiagramNetwork.RemoveAll | python/cld_analysis/network.py:112-116 | the listed nodes are removed and the rest is the induced network |
| Networks.DiagramNetwork.Prune | python/cld_analysis/network.py:136-138 | the pruning loop ends with no source or sink left, on an induced sub-network that keeps every elementary loop |
| Networks.DiagramNetwork.GetLoopsRecursive | python/cld_analysis/network.py:166-207 | the search only adds loops, and every loop it adds is an elementary loop of the network; every elementary loop of the network that begins with `sequence` and then leaves `node` ends up stored, under the representation of its standard form |
| Networks.DiagramNetwork.FollowLink | python/cld_analysis/network.py:178-183 | following the outward link to `target` stores every elementary loop that begins with `sequence` and then takes that link; stored loops stay elementary |
| Networks.DiagramNetwork.Continue | python/cld_analysis/network.py:185-207 | every elementary loop that begins with the extended sequence `next` ends up stored: `next` itself when it is a loop, none when it is closed otherwise, the ones the further search finds when it is open; stored loops stay elementary |
| Networks.DiagramNetwork.GetLoops | python/cld_analysis/network.py:120-164 | the loops stored are exactly the elementary loops of the network as given, one per standard form: each stored loop is elementary, and every elementary loop has its standard form's representation among the stored ones (`AllFound`); the loops end in increasing representation order, numbered by position; the network ends empty |
| Networks.DiagramNetwork.Collect | python/cld_analysis/network.py:140-158 | from a pruned network that has lost no loop of `graph`, a new loop set holds only elementary loops of `graph`, all new, and holds every elementary loop of `graph` by representation; the network ends empty |
| Networks.DiagramNetwork.VisitAll | python/cld_analysis/network.py:143-158 | visiting every node empties the network, stored loops stay elementary, and no loop of `graph` is lost without being found (`Covered`) |
| Networks.DiagramNetwork.Visit | python/cld_analysis/network.py:145-158 | a node still present is searched, then removed and the network pruned again; every loop of `graph` is still in the network or found (`Covered`) |
| Networks.DiagramNetwork.Explore | python/cld_analysis/network.py:149-150 | every elementary loop of the current network through the node ends up stored; stored loops stay elementary |
| Networks.DiagramNetwork.Retire | python/cld_analysis/network.py:152-157 | the node goes, no source or sink is left, and the rest is part of the original network; given that every loop through the node was found, every loop of the network before is still a loop after or was found |
| Networks.Store | python/cld_analysis/network.py:190 | after `add_loop` the representation of the loop's standard form is stored, and no representation is lost; every stored loop stays elementary |
| Networks.AddLoop | python/cld_analysis/network.py:190 | the returned loop is in the set under the representation of the standard form of `next`, the only key that changes: it is the loop already stored there, or else a new copy in standard form |
| Networks.Start | python/cld_analysis/network.py:150 | a new empty sequence |
| Networks.FoundStored | python/cld_analysis/loop_set.py:42-54 | a representation the search has collected is the representation of a stored loop |
| Networks.FollowedFound | python/cld_analysis/network.py:178-183 | the loops that begin with the sequence extended by the link to `target` are exactly the loops that go on from the sequence toward `target` |
| Networks.AllTargetsFound | python/cld_analysis/network.py:178 | a loop that leaves `node` takes one of its outward links, so covering every target covers every loop |
| Networks.ClosedFound | python/cld_analysis/network.py:185-197 | a closed sequence begins no elementary loop but itself, and itself only when it is a loop |
| Networks.OpenFound | python/cld_analysis/network.py:199-207 | the elementary loops an open sequence begins go on from its last target |
| Networks.StartFound | python/cld_analysis/network.py:149-150 | every elementary loop through a node, rotated to start there, leaves the node first and keeps its standard form |
| Networks.ClosedPrefix | python/cld_analysis/sequence.py:88-99 | a closed prefix of an elementary loop is the whole loop |
| Networks.OpenPrefix | python/cld_analysis/network.py:199-207 | an open non-empty prefix of an elementary loop goes on with a link out of its last target |
| Networks.NextLink | python/cld_analysis/network.py:178 | the link an elementary loop takes out of `node` is the outward link of `node` to that link's target |
| Networks.NextPrefix | python/cld_analysis/network.py:180-183 | taking the loop's next link gives a longer prefix of the loop |
| Networks.RotatedToStart | python/cld_analysis/sequence.py:146-152 | a rotation of an elementary loop is an elementary loop with the same standard form |
| Networks.SourceAfter | python/cld_analysis/sequence.py:88-99 | in an elementary loop the link leaving the target of link `i` is the next link, cyclically |
| Networks.InducedKeepsLoop | python/cld_analysis/network.py:84-97 | removing nodes off a loop keeps it a loop of the remaining network |
| Networks.LoopNodesLinked | python/cld_analysis/network.py:106-110 | no node on an elementary loop is a source or a sink |
| Networks.NoLoops | python/cld_analysis/network.py:143-158 | an empty network has no loops |
| Networks.CoveredTransitive | python/cld_analysis/network.py:152-157 | two removals in a row lose only loops that either of them had found |
| Networks.PrunedCovered | python/cld_analysis/network.py:99-118 | removing the sources and sinks keeps every elementary loop |
| Networks.RemovedCovered | python/cld_analysis/network.py:150-153 | removing a node all of whose loops were found loses no unfound loop |
| Networks.CoveredStored | python/cld_analysis/network.py:143-160 | once the network is empty, every elementary loop of the original network has its representation among the stored loops |
| LoopSets.LoopSet.SizeOrderRegistered | python/cld_analysis/loop_set.py:167 | every loop in size order is a stored loop registered under its id |
| Networks.Extend | python/cld_analysis/network.py:180-183 | a new sequence one link longer |
| Networks.Followed | python/cld_analysis/network.py:178-207 | the extended path is still an open path with distinct sources, or, if it is a loop, an elementary one; no path is longer than there are nodes |
| Networks.IndexedElementary | python/cld_analysis/loop_set.py:42-54 | indexing under a representation either the loop already there or the standard form of an elementary loop keeps every indexed loop elementary |
| Networks.StoredElementary | python/cld_analysis/loop_set.py:42-54 | when `byRep` holds only elementary loops, so does the set of stored loops |
| Networks.ElementaryCanonical | python/cld_analysis/loop_set.py:43-44 | the standard form of an elementary loop is an elementary loop of the same network |
| Networks.DistinctSourcesBound | python/cld_analysis/network.py:166-207 | a path with distinct sources is no longer than there are nodes, so the search terminates |
| Networks.InducedMirrored | python/cld_analysis/network.py:84-97 | removing nodes keeps the outward and inward links mirror images |
| Networks.InducedTwice | python/cld_analysis/network.py:136-138 | removing nodes in two rounds is removing them in one |
| Networks.AttachMirrored | python/cld_analysis/network.py:64-82 | adding a link on both sides keeps them mirror images |
| Networks.AttachGrows | python/cld_analysis/network.py:64-82 | adding a link keeps every node and link and leaves the first link between the pair |
| Networks.MirrorPair | python/cld_analysis/network.py:19-31 | an outward link from s to t exists exactly when t has an inward link from s |
| Networks.RemovedNode | python/cld_analysis/network.py:84-97 | dropping every link to a concept and then its node leaves the induced network |
| Networks.UnlinkedLinks | python/cld_analysis/network.py:92-93 | unlinking every node strips the concept from both sides |
| Networks.Pick | python/cld_analysis/network.py:145 | an element of the non-empty set |

## Left out

- Printing and the `verbose` flags are not part of this model. That covers
  the loop listing `finalize` prints, the progress messages of `get_loops`,
  `_get_loops_recursive` and `get_concepts_and_scores`, and `__repr__`,
  `get_id`, `head`, `tail` and `get_representation`.
- The class-level counters `Concept._next_id` and `Sequence._id_counter` are
  objects passed explicitly: `Models.ConceptRegistry` and
  `Sequences.SequenceCounter`.
- Python floats are modelled as `real`, and `float('inf')` as
  `Sequences.Dist.Infinite`. Rounding is not modelled.
- numpy's fixed-width integer matrix is an `array2<int>` of unbounded
  integers. Entries never exceed m + n, so nothing overflows.
- `Node` is a value datatype held in the network's map, not an object updated
  in place. The source reaches a node only through `nodes` and the snapshot
  `all_nodes` of `get_loops`, and its updates (`remove_links_to`) are visible
  through both. So the model re-reads the live node by id; aliasing of node
  objects beyond that is not captured.
- The order in which dictionaries and sets are iterated is not fixed; every
  stated property holds for any order. The model does not claim the source's
  concrete iteration order.
- Sequences.AllConcepts: returns a set of whole concepts, not of ids, so
  two concepts with one id but different names would be two members, where
  Python's set would merge them. That cannot happen for concepts of one
  registry (`Models.SameConceptInRegistry`).
- LoopSets.LoopSet.GetAllConcepts: the same as `Sequences.AllConcepts`, for
  the union over all stored loops.
- LoopSets.LoopSet.GetConceptsAndScores: the score map is keyed by whole
  concepts, not by ids, for the same reason; `LoopSets.ScoreAll` likewise.
- LoopSets.LoopSet.GetConceptsAndScores: the distance cache is threaded
  through the scoring as a value and stored back at the end, instead of
  being updated field by field.
- LoopSets.LoopSet.Finalize: states cache soundness only for an empty cache,
  because renumbering changes the ids that cached keys refer to.
- LoopSets.LoopSet.AddLoop: the copy recomputes its flags from the links, so
  an argument whose `is_loop` flag is stale can be stored although its links
  are not a loop. The model follows the code and states stored links in
  terms of `CanonicalLinks`.
- Sequences.Sequence.Rotate: `rotate` leaves the flags, the id list cache and
  the representation cache untouched, as the source does. Only the
  representation cache is modelled; `_sequence_as_ints` is recomputed on
  every call.
- The spreadsheet and edge-list loaders, the matrix loader, the command-line
  entry points and the CSV and text exporters are not part of this model.
- `Polarity` and `SequenceType` are plain datatypes; their string values are
  not modelled.
