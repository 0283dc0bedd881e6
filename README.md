# Classroom seating: a verified model

This project models the core of ABM_ClassroomSeating, an agent-based simulation of how students pick seats in a lecture hall. It also models the measures used to compare the seating patterns the simulation produces.

## The simulation (model.py)

- **Layout (`ClassroomDesign`).** A classroom is built from block sizes. Blocks of seats are separated by vertical aisles. The layout also has horizontal aisle rows, entrances, a position-utility field over the cells, `max_pass` (the largest number of seats anyone must pass to reach a seat) and the seat count.
  - In `design.dfy` this is the datatype `Layout`, built by the method `NewLayout`.
  - `NewLayout` keeps the source's loops: the aisle loop, the splice loop and the `max_pass` loop. Each loop is proved against a closed-form function.
- **Seat utilities (`Seat`).** What a seat is worth to a student is a weighted sum of four components:
  - the seat's position utility;
  - a friendship term: kernel weight × tie strength over a 3×3 window of seated neighbours;
  - a sociability term: counted only for neighbours the student has no tie to, and rescaled by the run's sociability range;
  - accessibility: `1 - min(left, right) / max_pass`, where left and right count the students between the seat and the nearest aisle on each side.

  `seats.dfy` states these as functions of the layout, the settings and the roster of students.
- **The running model (`ClassroomModel`, `Student`).** This is the class `Classroom.ClassroomModel` in `classroom.dfy`.
  - The mesa grid of `Seat` agents becomes the field `seats: map<Pos, Option<nat>>`, which maps each seat cell to the id of the student on it.
  - The scheduler becomes the field `schedule: seq<Student>`.
  - The sociability deque becomes the field `sociabilitySequence`.
  - The `Seat` methods become `Get*` methods of the model that take the seat's position. Their loops are proved against the functions in `seats.dfy`.
  - Random choices are nondeterministic (`:|`): the tie-break among the best seats, the entrance a new student appears at, and the order in which students are activated. Each choice is specified by the set it is drawn from.
  - The invariant `Valid()` ties the two views together: a student is seated on a seat exactly when that seat records the student.

## The pattern measures (model_comparison.py)

- **`patterns.dfy`** holds:
  - `count_clusters`: a run-length histogram over rows split at aisle indices, with numpy's `np.split` modelled with clamped slices;
  - `count_lbp`: the 8-neighbour local-binary-pattern histogram;
  - `insert_aisles`;
  - `calculate_mse`.

  Each is a method with the source's loops, proved equal to a specification function. The specification functions carry the conservation laws.
- **`comparison.dfy`** holds:
  - the run-length features of `get_characteristic_value`;
  - `compare`;
  - `generate_profile`.

  The numpy float division 0/0 is the value `NaN` of the datatype `Measure`. Python's integer `ZeroDivisionError` and `ValueError` are `Failure` results.

`basics.dfy` and `splice.dfy` hold the shared types. They also hold `np.insert`/`np.delete` on sequences and grids, with their round-trip lemmas.

### Two behaviours worth knowing

- **A position-utility matrix of the wrong shape.** When the given matrix fits neither the reduced nor the full shape, the code (model.py:513-517) silently falls back to an all-zero field. `Design.PositionUtilities` gives that zero field.
- **All-zero coefficients.** The comment at model.py:354 says that with every utility component zero the seat choice is completely random. The test `np.all(coefs == 0)` at model.py:355 reads the raw argument. For coefficients passed as a Python list it compares the list with 0, so the flag is False and the maximiser rule runs. For a numpy array of zeros the flag is True. The model always runs the maximiser rule. `Classroom.ClassroomModel.ZeroCoefficientsAllBest` shows that with all coefficients zero every empty seat is a best seat, so the maximiser draws from the same set of seats as the random mode.

## Model

| member | source | states |
|---|---|---|
| Design.PlaceAisles | model.py:477-483 | the loop yields `len(blocks)-1` strictly increasing aisle columns, each inside the room, equal to the closed form (k-th aisle = blocks[0]+…+blocks[k]+k); with no blocks it places none |
| Design.AisleGeometry | model.py:474-483 | `width = sum(blocks)+len(blocks)-1`; aisles strictly increasing and `< width`; consecutive aisles are exactly one block apart; the first and last blocks touch the walls; the aisles can be spliced into the reduced seat grid |
| Design.SeqMax | model.py:528 | Python's `max` of a non-empty list is an upper bound that occurs in the list |
| Design.MaxPassIsLargestLimit | model.py:519-528 | `max_pass` bounds every block's limit (`b-1` for outer blocks, `int((b-1)/2)` for inner ones) and equals one of them |
| Design.MaxPassOf | model.py:519-528 | the append loop followed by `max` computes that largest limit |
| Design.SpliceUtilities | model.py:499-511 | inserting a zero row at every vertical aisle and a zero column at every horizontal aisle (or appending past the end) takes a reduced-shape matrix to the full `(width, num_rows)` shape |
| Design.AlignedRoundTrip | model.py:501-511 | deleting the aisle rows and columns again gives back the caller's reduced matrix, so the splice loses no seat's utility |
| Design.ScaledByMax | model.py:513-515 | dividing by the positive maximum puts every entry at most 1 and some entry at exactly 1 |
| Design.PositionUtilitiesNormalised | model.py:499-517 | the final field has the full shape, every entry ≤ 1, and either its maximum is 1 or it is all zeros; it fails only on an empty room, where `np.max` of an empty array raises |
| Design.DefaultUtilitiesRaise | model.py:472-517 | with the default `pos_utilities=None` the code as written fails, while the intended result is the all-zero field |
| Design.NormaliseUtilities | model.py:499-517 | the splice, shape test and scaling steps compute the position-utility field whose properties `Design.PositionUtilitiesNormalised` states |
| Design.NewLayout | model.py:472-531 | the built layout has the closed-form width and aisles, default `aisles_y == [0]` and entrances `[(0,0),(width-1,0)]`, the normalised utility field, the largest pass limit and `seat_count = (width-|aisles_x|)*(num_rows-|aisles_y|)`; with no blocks it fails with `ValueError` (width -1, model.py:474, 517); otherwise it fails exactly when the utility step fails |
| Seats.SeatedIdAt | model.py:248-250 | the id found on a cell is that of a seated student standing there, and -1 exactly when there is none |
| Seats.NearestLeft | model.py:176-182 | the nearest aisle strictly left of the seat: the largest such aisle, or none when there is no aisle on that side |
| Seats.NearestRight | model.py:194-198 | the nearest aisle strictly right of the seat: the smallest such aisle, or none |
| Seats.CountBetweenAtMostCells | model.py:183-188 | with at most one student per cell, the students strictly between two columns are at most the cells between them |
| Seats.PassCountBounded | model.py:172-210 | with at least two blocks and at most one student per seat cell, `min(count_left, count_right)` never exceeds `max_pass` |
| Seats.AccessibilityInUnitRange | model.py:162-212 | under those conditions and `max_pass > 0`, accessibility lies in [0, 1] |
| Seats.NeighborhoodFits | model.py:271-284 | every id in the 3×3 window of seat `p` indexes the student's row of the tie matrix, so the social sums are defined |
| Seats.FriendshipInUnitRange | model.py:275-285 | with tie strengths in [0, 1] and kernel weights summing to 1, the friendship component lies in [0, 1] |
| Seats.TotalIsHappinessPlusAccessibility | model.py:304-325 | total utility equals happiness plus `coef_a` × accessibility, both built from the same position and social components |
| Seats.HappinessIgnoresUnseated | model.py:107-111 | moving a not-yet-seated student onto the seat before `get_happiness` does not change the happiness it records |
| Classroom.NormalisedCoefficients | model.py:349 | with a positive sum the normalised coefficients sum to 1; otherwise they all become 0 |
| Classroom.CreateSeats | model.py:386-393 | the nested loops create exactly one empty seat on every cell outside both aisle lists and none on an aisle |
| Classroom.SatDown | model.py:101-111 | the seated student keeps id and sociability, is seated and stands on the chosen seat |
| Classroom.Mark | model.py:447-449 | marking a position keeps the matrix shape |
| Classroom.Marked | model.py:447-449 | the occupancy matrix has shape `(width, num_rows)` |
| Classroom.MarkedMeaning | model.py:447-449 | a cell is 1 exactly when some student stands on it, or every cell is 1 once a student without a position is written (numpy's `a[None] = 1`) |
| Classroom.Snapshot | model.py:445-455 | the reduced state has one row per non-aisle column and one column per non-aisle row |
| Classroom.SnapshotMeaning | model.py:445-455 | each entry of the reduced state is 1 exactly when a student stands on the corresponding seat cell (all 1 after a `None` write) |
| Classroom.SnapshotShape | model.py:451-453 | with distinct in-range aisles the state has shape `(width-|aisles_x|, num_rows-|aisles_y|)`, i.e. `seat_count` entries |
| Classroom.ClassroomModel.constructor | model.py:342-393 | stores the layout and normalised coefficients, the tie matrix, the sociability sequence and its (min, max), an empty schedule, and an empty seat on every seat cell |
| Classroom.ClassroomModel.Create | model.py:342-374 | population = `seat_count` or `len(degree_sequence)`; a sociability sequence of a different length raises `ValueError` (as does an empty one, at `min`); otherwise the model is valid, holds the given layout, tie matrix and sociability sequence with range `(min, max)`, the normalised coefficients, no students and only empty seats |
| Classroom.ClassroomModel.GetPositionUtility | model.py:157-160 | returns the utility field's entry at the seat |
| Classroom.ClassroomModel.GetAccessibility | model.py:172-212 | the counting loops return `1 - min(left, right)/max_pass` |
| Classroom.ClassroomModel.GetNeighborhood | model.py:225-252 | the filling loops return the odd-sized window of seated ids (-1 empty or outside) |
| Classroom.SocialRow | model.py:278-290 | the inner loop over one row of the window adds exactly that row's friendship terms and its stranger-sociability terms |
| Classroom.ClassroomModel.GetSocialUtility | model.py:269-296 | the accumulation loops return the friendship sum and the rescaled stranger-sociability sum |
| Classroom.ClassroomModel.GetTotalUtility | model.py:304-310 | returns the total utility, which is happiness plus weighted accessibility |
| Classroom.ClassroomModel.GetHappiness | model.py:319-325 | returns the happiness of the seat for the student |
| Classroom.ClassroomModel.Occupy | model.py:101-111 | only the chosen seat and that student change; the student becomes seated on it with its happiness recorded |
| Classroom.ClassroomModel.UtilitiesOf | model.py:82 | the utility of every empty seat is its total utility for the student |
| Classroom.LargestValue | model.py:83 | `np.max` of the utilities is one of them and bounds all of them |
| Classroom.ClassroomModel.ZeroCoefficientsAllBest | model.py:353-355 | with every coefficient zero, every empty seat is a best seat, so the maximiser rule picks from all empty seats as the random mode would |
| Classroom.ClassroomModel.BestEmptySeat | model.py:62-83 | finds no seat exactly when every seat is taken; otherwise finds an empty seat whose total utility is at least that of every other empty seat |
| Classroom.ClassroomModel.ChooseSeat | model.py:58-111 | with no empty seat nothing changes; otherwise the chosen seat was empty and of maximal total utility among empty seats, and the student is seated on it |
| Classroom.ClassroomModel.ChooseSeatAt | model.py:95-111 | a predetermined position is taken exactly when its seat exists and is empty; otherwise nothing changes |
| Classroom.ClassroomModel.StudentStep | model.py:119-125 | a seated student changes nothing; with every seat taken nothing changes; otherwise the student is seated on a best empty seat, which alone is recorded in the seat map, with its happiness; no other student and no taken seat changes |
| Classroom.ClassroomModel.Admit | model.py:403-417 | appends one unseated student with id = current count at an entrance, popping a sociability value exactly when `coefs[2] != 0` |
| Classroom.ClassroomModel.ActivateAll | model.py:419 | after activating everyone in any order, seated students and taken seats are unchanged and everyone is seated unless the room is full |
| Classroom.ClassroomModel.Step | model.py:400-419 | admits one student (id = count) only while below `max_num_agents`, pops sociability only when `coefs[2] != 0`, never moves a seated student, and leaves everyone seated unless full |
| Classroom.ClassroomModel.StepPredeterminedSeating | model.py:427-436 | below capacity adds one student with id = count and seats them at the position exactly when that seat is empty; at capacity nothing changes |
| Classroom.ClassroomModel.GetBinaryModelState | model.py:445-455 | returns the reduced occupancy snapshot of the current roster and changes nothing |
| Classroom.ClassroomModel.OneStudentPerSeat | model.py:96-111 | when no entrance is a seat cell, no seat cell ever holds more than one student |
| Classroom.ClassroomModel.AccessibilityOfEverySeat | model.py:162-212 | in every reachable state, every seat's accessibility lies in [0, 1] |
| Classroom.ClassroomModel.SeatedWithinCapacity | model.py:101-111 | the seated students never outnumber the seats |
| Patterns.TallyCounts | model_comparison.py:49-51 | tallying events adds to bin L exactly the number of events equal to L |
| Patterns.SplitCovers | model_comparison.py:43 | for non-decreasing aisle indices the `np.split` blocks concatenate back to the row |
| Patterns.ScanBlock | model_comparison.py:44-51 | the counter loop over a block tallies exactly the block's maximal runs (0 for each zero that ends no run) |
| Patterns.ScanRow | model_comparison.py:43-51 | a row adds the runs of all its `np.split` blocks |
| Patterns.CountClusters | model_comparison.py:37-56 | returns `shape[1]+1` counts with `counts[0] = 0`, equal to the run histogram |
| Patterns.GridRunsBounded | model_comparison.py:39-51 | no run is longer than a row, so every increment lands inside the counts array |
| Patterns.BlockRunsAreMaximalRuns | model_comparison.py:44-51 | the runs a block's scan records with length L ≥ 1 are exactly its maximal runs of ones of length L (ones on `b[i..i+L]`, no 1 just before or just after) |
| Patterns.ClusterCountsAreRuns | model_comparison.py:37-56 | bin L (L ≥ 1) holds exactly the number of maximal runs of ones of length L inside the blocks of all rows |
| Patterns.ClusterCountsCoverOnes | model_comparison.py:37-56 | for non-decreasing aisles, Σ i·counts[i] equals the number of ones in the matrix |
| Patterns.PartialCode | model_comparison.py:88-90 | on a 0/1 matrix the first k neighbour bits give a value in [0, 2^k) |
| Patterns.LbpCode | model_comparison.py:87-90 | each interior cell's pattern code lies in [0, 255] |
| Patterns.LbpCodes | model_comparison.py:84-93 | there is one code per interior cell, (h-2)(w-2) in all, each below 256 |
| Patterns.CodeAt | model_comparison.py:88-90 | the `dec` loop computes the cell's code |
| Patterns.ScanCodes | model_comparison.py:86-93 | one row of interior cells tallies their codes |
| Patterns.CountLbp | model_comparison.py:74-95 | returns 256 counts equal to the histogram of codes |
| Patterns.LbpCountsAreCodes | model_comparison.py:74-95 | bin v counts the interior cells with code v, and the counts sum to (h-2)(w-2) |
| Patterns.InsertAisles | model_comparison.py:143-150 | inserts or appends one `value` column per aisle: rows unchanged, `len(aisles)` more columns; for increasing insertable aisles the aisle columns hold `value` and deleting them restores the input |
| Patterns.CalculateMse | model_comparison.py:169-173 | the loop computes the sum of squared differences over the common prefix divided by the shorter length |
| Patterns.SquaredErrorFacts | model_comparison.py:170-172 | the sum of squares is ≥ 0, symmetric, and 0 exactly when the prefixes agree |
| Patterns.MseFacts | model_comparison.py:169-173 | the MSE raises `ZeroDivisionError` exactly when a list is empty; otherwise it is ≥ 0, symmetric, and 0 exactly when the common prefixes agree |
| Comparison.GetCharacteristicValue | model_comparison.py:235-258 | returns the selected feature; fails with `ValueError` exactly for a name outside the four methods |
| Comparison.SumSquaresAtLeastRuns | model_comparison.py:249-250 | Σ rl² ≥ Σ rl |
| Comparison.RunLengthCharacteristics | model_comparison.py:247-255 | for non-decreasing aisles both run-length features are NaN exactly when the matrix has no ones, and otherwise are ≥ 1 |
| Comparison.Compare | model_comparison.py:275-304 | computes the comparison in the source's order of checks |
| Comparison.ComparisonOutcome | model_comparison.py:276-295 | an unknown method raises `ValueError`, then a non-2-D input raises `ValueError`; lbp and cluster comparisons of matrices succeed with a value ≥ 0 |
| Comparison.ComparisonSymmetric | model_comparison.py:285-301 | swapping the two states gives the same result |
| Comparison.RealsInjective | model_comparison.py:287-289 | converting counts to floats loses nothing |
| Comparison.LbpComparisonZero | model_comparison.py:285-289 | the lbp comparison is 0 exactly when the two LBP histograms are equal |
| Comparison.ClusterComparisonWithItself | model_comparison.py:291-295 | comparing a state with itself by clusters gives 0 |
| Comparison.Snapshots | model_comparison.py:195-197 | one reduced 0/1 state per model |
| Comparison.SnapshotIsBinary | model.py:445-455 | every reduced model state holds only 0 and 1 |
| Comparison.ReduceModels | model_comparison.py:194-197 | the loop collects every model's binary state |
| Comparison.ProfileOf | model_comparison.py:199-218 | dispatches to `count_lbp`, `count_clusters` or the entropy profile |
| Comparison.SumProfiles | model_comparison.py:213-218 | the accumulation loop sums the profiles of all models |
| Comparison.TotalOfIdentical | model_comparison.py:213-218 | n identical profiles sum to n times the profile |
| Comparison.MeanOfIdentical | model_comparison.py:220 | the mean of identical profiles is that profile, one summand per model |
| Comparison.MeanProfile | model_comparison.py:199-220 | the mean profile has one entry per bin of the method: 256 for lbp, `shape[1]+1` for cluster, `min(shape)` for entropy |
| Comparison.AverageProfile | model_comparison.py:199-220 | dividing the summed profiles by the number of models gives that mean profile |
| Comparison.GenerateProfile | model_comparison.py:187-220 | an unknown method raises `ValueError`; otherwise the result is the element-wise mean of the per-model profiles |

## Left out

- The mesa framework (`Agent`, `Model`, `MultiGrid`, `RandomActivation`) and the numpy random streams are replaced by a coordinate map, a sequence of students and nondeterministic choice. RNG state is not modelled.
- Social-network generation (`network.erdos_renyi`, `network.walts_graph`) is a module that is not part of this model. The tie matrix is taken as a given square matrix of reals.
- The re-seating branch (model.py:85-93, 103-105, 127-135) is not modelled. It is disabled (`will_to_change_seat = False`) and calls `get_stand_up_cost`, which model.py never defines.
- Default sociability sampling (model.py:367) is not modelled. It is random, and `SOCIABILITY_MIN`/`SOCIABILITY_MAX` are undefined. A sociability sequence must be given.
- The `random_seat_choice` branch (model.py:76-78) is not modelled. For list coefficients the flag is always False (see above).
- `get_entropy` needs floating-point logarithms. It is not modelled; `compare` and `generate_profile` take the entropy profile as a function parameter.
- The GLCM `homogeneity` and `correlation` features wrap skimage. They are function parameters of `get_characteristic_value`.
- Plotting and the `__main__` blocks are not modelled. Neither are sensitivity_analysis.py, parameter_estimation.py and src/Fiona/run_classroom_seating.py (drivers, I/O and user interface).
- Floating point is modelled as exact `real` arithmetic. numpy's float NaN appears only as `Measure.NaN` for the run-length features.
- Classroom.ClassroomModel.GetAccessibility, Seats.AccessibilityInUnitRange: require at least one vertical aisle and `max_pass > 0`. With a single block the source returns `-inf`; with `max_pass == 0` it divides by zero.
- Classroom.ClassroomModel.GetSocialUtility: requires `s_min < s_max`. The source divides by `s_max - s_min` unguarded.
- Classroom.ClassroomModel.ChooseSeat, Classroom.ClassroomModel.StudentStep, Classroom.ClassroomModel.Activate, Classroom.ClassroomModel.ActivateAll, Classroom.ClassroomModel.Step: require at least one vertical aisle, `max_pass > 0` and `s_min < s_max`, because every seat's utility needs them. A one-block room, a room with `max_pass == 0` and a run whose sociability values are all equal are outside the modelled ticks.
- Design.NewLayout: builds the corrected layout. With the default `pos_utilities=None` it gives the all-zero utility field, while the code as written raises `AttributeError` at model.py:501 (see Findings; `Design.DefaultUtilitiesRaise` states the as-written failure).
- Splice.DeleteAt: indices past the end are ignored, which is `np.delete` in numpy before 1.19 (with a DeprecationWarning). Numpy 1.19 and later raise `IndexError` there. A layout with a horizontal aisle at or beyond `num_rows` therefore gets a snapshot in the older numpy's behaviour (`Classroom.Snapshot`, `Classroom.ClassroomModel.GetBinaryModelState`).
- Classroom.ClassroomModel.Admit: requires at least one entrance, with every entrance inside the room.
- Classroom.ClassroomModel.StepPredeterminedSeating: a position outside the room is treated as an empty cell (no seat). mesa would raise there.
- Classroom.ClassroomModel.OneStudentPerSeat: requires that no entrance is a seat cell. Otherwise a newly admitted student may stand on an occupied seat.
- An unseated student without a position is modelled as mesa's `pos = None`. `get_binary_model_state` then writes `model_state[None] = 1`, which sets every entry; `Classroom.SnapshotMeaning` states this as written.
- Seats.FriendshipInUnitRange: only the friendship component is bounded. The rescaled sociability component is not in [0, 1] in general, because the source rescales a kernel-weighted sum by the range of single sociability values.
- Patterns.CountLbp: requires a 0/1 matrix. For other input the source's `counts[int(dec)]` may index outside the 256 bins.
- Comparison.Compare: the entropy branch calls the entropy parameter. The fall-through `return None` (model_comparison.py:304) cannot be reached once the method check has passed.
- Comparison.GenerateProfile: requires at least one model; the source divides by `len(models)`. It also requires snapshots of a single shape for cluster and entropy, as the source assumes, because numpy would otherwise raise a broadcast error. Finally it requires an entropy parameter that returns `min(shape)` values.
- Patterns.ClusterCountsCoverOnes, Comparison.RunLengthCharacteristics: require non-decreasing aisle indices. For unsorted indices `np.split` yields overlapping or empty blocks, and the ones are not conserved.

## Findings

| source | as written | input that shows it | evidently intended | confidence | as-written member | corrected member |
|---|---|---|---|---|---|---|
| model.py:501 | `pos_utilities.shape` is read before the `pos_utilities is not None` test at model.py:513 | `ClassroomDesign()` with the default `pos_utilities=None` raises `AttributeError` | no matrix gives the all-zero utility field of model.py:517 | not executed | Design.DefaultUtilitiesRaise | Design.PositionUtilitiesNormalised |
