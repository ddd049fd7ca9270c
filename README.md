# Boids cluster colouring, modelled in Dafny

The boids simulation (`main.py`) colours its flock by cluster. `color_clusters`
makes one pass over the boids in two phases:

- It splits the boids into clusters with a depth-first search. Two boids are
  neighbours when they are closer than a threshold.
- It gives each cluster one colour. A cluster whose members are all still
  WHITE is new: it takes the next colour of a nine-entry palette through
  `_next_color`, which advances the module counter `_color_idx`. Any other
  cluster takes the most frequent colour among its members. WHITE counts like
  any other colour, and a tie goes to the colour seen first.

Every boid starts WHITE (`Boid.__init__`).

The project has five modules:

- `Colors` (`colors.dfy`): WHITE and the palette `CLUSTER_COLORS` as RGB
  triples. Colours are modelled as tags: `White` or `Entry(k)` for palette
  entry k. `ToRgb` gives back the triple, and `ToRgbInjective` proves that
  comparing tags is the same as comparing triples. The program only ever
  compares colours for equality.
- `Counting` (`counting.dfy`): the `collections.Counter` of a cluster's
  colours as a list of (colour, count) pairs in first-seen order (`Tally`).
  `max(cnt.items(), key=...)` becomes `MaxIndex`, the first entry with the
  largest count. Both are proved against a reference: the distinct colours in
  first-seen order and the multiset of colours.
- `Seqs` (`seqs.dfy`): the predicate `NoDup` that the other modules share.
- `Components` (`components.dfy`): the search, as methods with loop
  invariants. `FindClusters` is the `for i` loop, `TryRoot` one turn of it,
  `Explore` the `while stack:` loop, `PopAndScan` one turn of that, and
  `PushNeighbors` the inner `for k` scan. The distance test is a parameter
  `near(j, k)` over boid indices. The ghost functions `Search`, `Component`
  and `AllClusters` define the search one pop at a time. The methods are
  proved equal to them, so the order of the members of each cluster is
  pinned down. That order decides ties in the colour choice.
- `Coloring` (`coloring.dfy`): the colouring phase. A class `Flock` holds the
  boids' colours as an array indexed like the boid list, and the counter
  `_color_idx` as a field. Its methods are proved against the ghost functions
  `ChooseColor` (one cluster) and `Recolor` (all clusters in order). The
  lemmas about those functions state what the pass promises.

## Model

| member | source | states |
|---|---|---|
| Colors.PaletteColor | main.py:156-160 | the colour handed out at counter c is a palette entry, never WHITE |
| Colors.PaletteColorRgb | main.py:158 | the entry handed out at counter c is `CLUSTER_COLORS[c % 9]`, which differs from WHITE |
| Colors.PaletteEntriesDistinct | main.py:17-26 | the palette has nine entries, pairwise different and none equal to WHITE |
| Colors.ToRgbInjective | main.py:17-26 | two colours are equal as tags exactly when their RGB triples are equal |
| Colors.CycleDistinct | main.py:158 | counters fewer than nine apart give different colours |
| Colors.CycleRepeats | main.py:158 | the palette repeats after nine allocations |
| Counting.DistinctSpec | main.py:180 | the distinct colours list each colour of the input once, and nothing else |
| Counting.TallySpec | main.py:180 | the Counter's keys are the distinct colours in first-seen order, and each count is the colour's number of occurrences |
| Counting.MaxIndex | main.py:189 | the chosen entry has a count no other entry exceeds, and every earlier entry has a strictly smaller count |
| Counting.FirstIndex | main.py:180 | the first position at which a colour occurs |
| Counting.DistinctPrefix | main.py:180 | the distinct colours of a prefix are a prefix of the distinct colours |
| Counting.DominantSpec | main.py:180-189 | the dominant colour occurs in the cluster, no colour occurs more often, and every colour seen before it occurs strictly less often |
| Counting.TallyUniform | main.py:180-182 | the tally of n copies of one colour is the single entry (colour, n) |
| Components.NewNeighbors | main.py:173-175 | one scan pushes exactly the indices below the bound that are unvisited and near j |
| Components.NewNeighborsAscending | main.py:173-175 | the scan pushes those indices in ascending order |
| Components.PushNeighbors | main.py:173-175 | the scan appends those indices to the stack and adds them to the visited set |
| Components.FindClusters | main.py:164-176 | the clusters are exactly `AllClusters(near, n)`: roots tried in ascending order, each cluster listing its members in the order the stack pops them. They partition 0..n-1; each root is the smallest index in no earlier cluster; roots ascend; every neighbour of a member is in that cluster or an earlier one; with a symmetric `near` each cluster is closed under `near`; every member after the root is near a member listed before it |
| Components.TryRoot | main.py:165-176 | an unvisited index i appends the component the search grows from i and marks its members visited; a visited index changes nothing; the outer loop's invariant is kept |
| Components.Explore | main.py:168-175 | the component is exactly `Component(near, n, visited, i)`, the members in the order `stack.pop()` yields them; the visited set grows by exactly its members; it starts at the root, has no repeats, contains every neighbour of its members not visited before, and every member after the root is near a member listed before it |
| Components.PopAndScan | main.py:172-175 | one turn pops the last stack entry into the component, pushes its new neighbours and marks exactly those visited; it either visits a new index or shrinks the stack |
| Components.SearchOrderExample | main.py:169-175 | with boid 0 near boids 1 and 2, the search gives the one cluster [0, 2, 1]: the index pushed last is popped first |
| Components.MembersReachable | main.py:169-175 | every member of a cluster is reached from its root by a walk along `near` inside the cluster |
| Coloring.NewIffAllWhite | main.py:180-182 | a tally of exactly {WHITE} means every member of the cluster is WHITE, and conversely |
| Coloring.ChooseColorSpec | main.py:180-191 | a new cluster gets the palette entry under the counter and the counter rises by one; any other cluster keeps the counter and gets one of its own colours that no colour outnumbers, the first seen among ties |
| Coloring.RecolorOutside | main.py:178-191 | a boid in no cluster keeps its colour |
| Coloring.RecolorCounter | main.py:178-191 | the counter ends advanced once per cluster that was entirely WHITE |
| Coloring.RecolorMembers | main.py:178-191 | each member of cluster t ends with the colour chosen from the cluster's original colours, with the counter advanced once per earlier new cluster |
| Coloring.ClustersUniform | main.py:183-191 | all members of a cluster end with one colour |
| Coloring.ColorsStayInPalette | main.py:178-191 | starting from WHITE and palette colours, the pass produces nothing else |
| Coloring.NewClusterColored | main.py:182-186 | a cluster that was entirely WHITE ends with the palette colour allocated for it, not WHITE, so it is not new on the next pass |
| Coloring.NewCountGrows | main.py:178-184 | the number of new clusters seen never decreases, and each new cluster adds one |
| Coloring.NewClustersDistinct | main.py:182-186 | with at most nine new clusters in a pass, two new clusters get different colours |
| Coloring.RecolorStable | main.py:178-191 | colours that are uniform per cluster and not WHITE are left unchanged, and so is the counter |
| Coloring.SecondPassStable | main.py:178-191 | when no cluster ends WHITE, a second pass over the same clusters changes nothing |
| Coloring.WhiteMajority | main.py:180-191 | a mixed cluster where WHITE outnumbers every other colour is painted entirely WHITE, and is new on the next pass |
| Coloring.WhiteMajorityExample | main.py:180-189 | counts {WHITE: 2, A: 1} give WHITE and leave the counter alone |
| Coloring.DominantExample | main.py:180-189 | counts {A: 3, B: 5, WHITE: 2} give B and leave the counter alone |
| Coloring.TieExample | main.py:189 | counts {A: 2, B: 2} with A seen first give A |
| Coloring.UniformChoice | main.py:180-191 | a cluster all of one colour other than WHITE keeps that colour and the counter |
| Coloring.Flock.constructor | main.py:34 | every boid starts WHITE and the counter at 0 |
| Coloring.Flock.NextColor | main.py:156-160 | returns the palette entry under the counter and advances the counter by one; nothing else changes |
| Coloring.Flock.PaintMembers | main.py:185-186 | the members of the cluster get the colour; every other boid keeps its own |
| Coloring.Flock.ColorCluster | main.py:179-191 | one cluster's colour and the counter afterwards are those `ChooseColor` gives for the members' current colours |
| Coloring.Flock.ColorClusters | main.py:162-191 | the clusters (a ghost result: the program returns nothing) are exactly the search's `AllClusters(near, n)` with every fact `FindClusters` states about them; the colours and the counter afterwards are `Recolor` of the old colours over those clusters; the counter rises by the number of all-WHITE clusters; only the colours and the counter change |
| Coloring.Flock.ColorAll | main.py:178-191 | after the loop over the clusters, the colours and the counter are `Recolor` of the old ones: each cluster in turn takes its colour from what the earlier clusters left |

## Left out

- Steering, motion and wrapping of the boids (main.py:36-100) are not part of this model.
- The distance test `distance_to(...) < NEIGH_DIST * 1.3` (main.py:163, 174) is floating point on positions; it is the parameter `near`, and positions and velocities are not state of the model.
- Creating boids and obstacles (main.py:118-139) is left out, apart from the initial WHITE colour, which `Flock.constructor` models.
- Drawing, the `Obstacle` class, the buttons and the main loop (main.py:102-116, 141-152, 194-254) are input/output or unrelated to colouring, and are left out.
- Coloring.Flock.ColorClusters: states its result through `AllClusters` and `Recolor`; the per-member facts (one colour per cluster, palette colours, stability) are proved about `Recolor` in the lemmas beside it.
- Coloring.Flock.ColorClusters: the program returns nothing; the clusters come back as a ghost result so that the contract can name them, and no compiled caller sees them.
- Coloring.NewClustersDistinct: holds only while a pass allocates at most nine colours, because the palette then wraps around (`CycleRepeats`).
- The comment at main.py:181 says WHITE is ignored when other colours are present, but the code counts WHITE like any other colour. The model follows the code, and `WhiteMajority` shows the consequence.
