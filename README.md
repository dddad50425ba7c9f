# A Dafny model of the vicmil C++ library core

This project models the core of the vicmil C++ library and of its quantum-circuit editor release. Each C++ header becomes one Dafny module. Code that computes values becomes datatypes, functions and lemmas. Code that changes state step by step becomes classes and methods with loops. Each method is proved against a specification function, and lemmas state what the source promises about those functions.

| module (file) | C++ source | flavour |
|---|---|---|
| `BasicMath` (basic_math.dfy) | `L6_basic_math.h`: `upper_power_of_two`, `is_power_of_two`, `in_range` | loops on `int` |
| `Vectors` (vectors.dfy) | `L7_vector.h`: the in-place sorts, the sorts that return indices, `vec_remove`, `vec_sum` | in-place array algorithms |
| `Strings`, `DebugGeneral`, `Debug` (strings.dfy, debug_general.dfy, debug.dfy) | `L3_string.h` text utilities, string splitting and keyword matching in the two `L1_debug.h` files, and the test filter in `L2_test.h` | loops over strings |
| `Shapes`, `RectPacking`, `RectPackingSquare` (shapes.dfy, rect_packing.dfy) | `L9_shapes.h`: `RectT`, alignment and cutting, `fit_rects_in_rect`, `rect_packing_pow2_sq` | value functions plus in-place packing over an array |
| `PoolAllocation` (pool.dfy) | `L11_data_structures.h`: the generational `PoolAllocator`, its handles, its free list and its iterator, with `TEST_PoolAllocator` | class over a key vector and a free list |
| `QuantumSim` (quantum_sim.dfy) | `N1_quantum_simulation.h`: the bit helpers, `cnot`, `hadamar`, `normalize`, measurement | class over a state vector |
| `Circuit`, `PlotCircuit` (circuit.dfy, plot_circuit.dfy) | `N2_circuit.h` and the editor in `releases/N1_plot_quantum_circuit/main.cpp`: gate settings, the circuit, `run_circuit`, `to_string` and the click handlers | classes |
| `AppConsole` (console.dfy) | `L11_app.h` `TextConsole`: the ring buffer of logged lines | class over an array |
| `ModelLoading` (model_loading.dfy) | `L1_model_loading.h` and `L6_data_layout.h`: the OBJ and MTL line parsers | functions, plus loops over line arrays |
| `GpuTexture`, `ImagePacking` (gpu_texture.dfy, image_packing.dfy) | `L4_gpu_texture.h` images and the collage, and `L3_image_packing.h` image packing and the ASCII letter images | classes over pixel sequences |
| `WindowTree` (window_tree.dfy) | `L9_other.h`: the legacy window layout tree | recursive datatype inside a class |
| `LayoutSizes`, `WindowLayoutMap`, `WindowLayoutTests` (layout_sizes.dfy, window_layout.dfy, window_layout_tests.dfy) | `L9_user_interface.h` `__layout__`: the element map, the setters, `_get_element_sizes`, hiding, `_update`, erasing, and the two pixel-exact tests | class over a map of elements |
| `Widgets`, `LayoutElements`, `LayoutMovers`, `LayoutApi` (widgets.dfy, layout_elements.dfy, layout_movers.dfy, layout_api.dfy) | the M2 user interface: `L1_user_interface.h`, `L1_user_interface_implementation.h` and `L2_user_interface.h` | classes over pools and lists |
| `ElementPoolGrowth` (element_pool_growth.dfy) | `L11_data_structures.h` `_assert_free_exists` and `push`, with `_LayoutElement`'s destructor and the growing loop of `set_parts_count`, as written: the growth that destroys the old copies | functions on a pool value, and the trace of one call |
| `Wrappers` (wrappers.dfy) | the `Result`/`Option` types that stand for the source's `ThrowError` and `Assert` | datatypes |

An `Assert` or `ThrowError` in the source becomes either a `Failure` result or a `requires` clause. "## Left out" lists which one each operation uses.

## Model

| member | source | states |
|---|---|---|
| BasicMath.InRange | vicmil_lib/N1_vicmil_std_lib/L6_basic_math.h:9-21 | `in_range` holds iff `minV <= v <= maxV`: both bounds are inclusive |
| BasicMath.IsPowerOfTwoCorrect | vicmil_lib/N1_vicmil_std_lib/L6_basic_math.h:23-28 | the bit test `x != 0 && x & (x - 1) == 0` holds exactly of the powers of two 1, 2, 4, ... |
| BasicMath.MaskAndBit | vicmil_lib/N1_vicmil_std_lib/L6_basic_math.h:23-28 | ANDing the one-bit mask 2^i with n is non-zero iff bit i of n is set (the `&` that the bit helpers rely on) |
| BasicMath.UpperPow2 | vicmil_lib/N1_vicmil_std_lib/L6_basic_math.h:30-38 | the value the doubling loop stops at is a power of two that is at least x, is 1 for x <= 1, and is below 2x for x >= 1 |
| BasicMath.UpperPow2Least | vicmil_lib/N1_vicmil_std_lib/L6_basic_math.h:30-38 | every power of two that is at least x is at least `UpperPow2(x)`, so the result is the least such power |
| BasicMath.UpperPow2OfPow2 | vicmil_lib/N1_vicmil_std_lib/L6_basic_math.h:30-38 | a power of two is its own upper power of two (fixed point) |
| BasicMath.UpperPow2Idempotent | vicmil_lib/N1_vicmil_std_lib/L6_basic_math.h:30-38 | rounding up twice gives the same result as rounding up once |
| BasicMath.UpperPowerOfTwo | vicmil_lib/N1_vicmil_std_lib/L6_basic_math.h:30-38 | the doubling loop returns `UpperPow2(x)` for every x up to 2^30, the inputs for which the signed `power` does not overflow |
| Vectors.InVector | vicmil_lib/N1_vicmil_std_lib/M1_std_lib_general/L7_vector.h:13-21 | `in_vector` is true iff some element of the vector equals the value |
| Vectors.VecSumIsSum | vicmil_lib/N1_vicmil_std_lib/M1_std_lib_general/L7_vector.h:43-50 | the left fold of `+` from `zero` equals `zero` plus the sum of the elements |
| Vectors.VecSumDefault | vicmil_lib/N1_vicmil_std_lib/M1_std_lib_general/L7_vector.h:52-55 | `vec_sum(vec)` starts from 0 and so is the plain sum of the elements |
| Vectors.VecSumExtend | vicmil_lib/N1_vicmil_std_lib/M1_std_lib_general/L7_vector.h:43-50 | summing an extended vector continues the fold of the first part over the added part (also lines 138-141) |
| Vectors.VecToPairWithIndices | vicmil_lib/N1_vicmil_std_lib/M1_std_lib_general/L7_vector.h:82-92 | the output has the input's length and its i-th pair is `(vec[i], i)` |
| Vectors.SortBy | vicmil_lib/N1_vicmil_std_lib/M1_std_lib_general/L7_vector.h:57-73 | `std::sort` with a strict weak order leaves the array sorted by the comparator and a permutation of its old contents |
| Vectors.SortedPermutationUnique | vicmil_lib/N1_vicmil_std_lib/M1_std_lib_general/L7_vector.h:57-79 | two sorted permutations of the same elements are equal when those elements are pairwise comparable, so the sort result is determined |
| Vectors.VecSortAscend | vicmil_lib/N1_vicmil_std_lib/M1_std_lib_general/L7_vector.h:57-64 | `vec_sort_ascend` leaves every element <= every later one, and the array is a permutation of the input |
| Vectors.VecSortDescend | vicmil_lib/N1_vicmil_std_lib/M1_std_lib_general/L7_vector.h:66-73 | `vec_sort_descend` leaves every element >= every later one, and the array is a permutation of the input |
| Vectors.DescendingUnique | vicmil_lib/N1_vicmil_std_lib/M1_std_lib_general/L7_vector.h:66-78 | integers have exactly one non-increasing order, so any two descending permutations of each other are equal |
| Vectors.VecSortDescendExample | vicmil_lib/N1_vicmil_std_lib/M1_std_lib_general/L7_vector.h:74-78 | the test sorts {2, 1, 3} into {3, 2, 1} |
| Vectors.VecSortAscendAndGetIndices | vicmil_lib/N1_vicmil_std_lib/M1_std_lib_general/L7_vector.h:93-102 | the result is a permutation of the (value, index) pairs, ordered non-decreasingly by value; ties may come in any order |
| Vectors.VecSortDescendAndGetIndices | vicmil_lib/N1_vicmil_std_lib/M1_std_lib_general/L7_vector.h:103-112 | the result is a permutation of the (value, index) pairs, ordered non-increasingly by value; ties may come in any order |
| Vectors.PairsDescendingUnique | vicmil_lib/N1_vicmil_std_lib/M1_std_lib_general/L7_vector.h:103-112 | when the values are distinct, the order of the pairs by value, largest first, is unique |
| Vectors.ExampleOrderByValue | vicmil_lib/N1_vicmil_std_lib/M1_std_lib_general/L7_vector.h:113-121 | every by-value descending order of (2,0), (1,1), (3,2) is (3,2), (2,0), (1,1) |
| Vectors.VecSortDescendAndGetIndicesExample | vicmil_lib/N1_vicmil_std_lib/M1_std_lib_general/L7_vector.h:113-122 | the test maps {2, 1, 3} to {(3, 2), (2, 0), (1, 1)} |
| Vectors.VecRemove | vicmil_lib/N1_vicmil_std_lib/M1_std_lib_general/L7_vector.h:124-130 | the length drops by one, elements before `pos` stay and elements after it shift down one place |
| Vectors.VecRemoveInverse | vicmil_lib/N1_vicmil_std_lib/M1_std_lib_general/L7_vector.h:124-130 | putting the removed element back at `pos` restores the vector |
| Vectors.VecRemoveMultiset | vicmil_lib/N1_vicmil_std_lib/M1_std_lib_general/L7_vector.h:124-130 | removal takes exactly one occurrence of `vec[pos]` out of the multiset of elements |
| Vectors.VecExtend | vicmil_lib/N1_vicmil_std_lib/M1_std_lib_general/L7_vector.h:132-141 | the result is the old vector followed by `add`, and its length is the sum of both lengths |
| Vectors.InsertDown | vicmil_lib/N1_vicmil_std_lib/M1_std_lib_general/L7_vector.h:57-64 | one step of the in-place sort extends the sorted prefix by one element and permutes the array |
| Strings.Find | vicmil_lib/N1_vicmil_std_lib/L3_string.h:20-21 | `std::string::find`: the result is the first position where the pattern occurs, and there is none iff the pattern occurs nowhere |
| Strings.RFind | vicmil_lib/N1_vicmil_std_lib/L3_string.h:91 | `std::string::rfind`: the result is the last position where the pattern occurs, and there is none iff the pattern occurs nowhere |
| Strings.StringReplace | vicmil_lib/N1_vicmil_std_lib/L3_string.h:14-29 | the loop that moves text from `remaining_string` to `new_string` returns `ReplaceAll`: occurrences found left to right, each replaced, scanning resumed after the replaced text; the pattern must be non-empty |
| Strings.ReplaceAllNoOccurrence | vicmil_lib/N1_vicmil_std_lib/L3_string.h:19-23 | when the pattern occurs nowhere, the string comes back unchanged |
| Strings.ReplaceAllSelf | vicmil_lib/N1_vicmil_std_lib/L3_string.h:14-29 | replacing a pattern by itself changes nothing |
| Strings.ReplaceAllExample1 | vicmil_lib/N1_vicmil_std_lib/L3_string.h:31 | "abca" with "a" replaced by "d" is "dbcd" |
| Strings.ReplaceAllExample2 | vicmil_lib/N1_vicmil_std_lib/L3_string.h:32 | "abcab" with "ab" replaced by "d" is "dcd" |
| Strings.ReplaceAllExample3 | vicmil_lib/N1_vicmil_std_lib/L3_string.h:33 | "aaaaa" with "aa" replaced by "a" is "aaa": occurrences do not overlap |
| Strings.CountChar | vicmil_lib/N1_vicmil_std_lib/L3_string.h:37-42 | `count_char_in_string` is the number of positions holding the character (its multiplicity in the string) |
| Strings.CutOffAfterFind | vicmil_lib/N1_vicmil_std_lib/L3_string.h:78-87 | the result is a prefix of the input with no occurrence of the delimiter; it is the whole input iff the delimiter does not occur, and otherwise the delimiter starts right after it |
| Strings.CutOffAfterFindIdempotent | vicmil_lib/N1_vicmil_std_lib/L3_string.h:78-87 | cutting twice gives the same result as cutting once |
| Strings.CutOffAfterRFind | vicmil_lib/N1_vicmil_std_lib/L3_string.h:89-98 | the result is a prefix of the input; it is the whole input iff the delimiter does not occur, and otherwise it ends where the last occurrence starts |
| Strings.Utf8LetterSizeOnLeadBytes | vicmil_lib/N1_vicmil_std_lib/L3_string.h:128-164 | on lead bytes `get_utf8_letter_size` gives the sequence length of section 3 of RFC 3629: 0xxxxxxx 1, 110xxxxx 2, 1110xxxx 3, 11110xxx 4, and 11111xxx -1 |
| Strings.Utf8LetterSizeOnContinuationBytes | vicmil_lib/N1_vicmil_std_lib/L3_string.h:134-164 | continuation bytes 10xxxxxx are not rejected: the bit tests give them sizes 2, 3 or 4, and -1 only for 10111xxx |
| Strings.GetNextUtf8Char | vicmil_lib/N1_vicmil_std_lib/L3_string.h:165-180 | on success the letter is `substr(index, size)` (cut at the end of the string), it starts with the lead byte, and the new index is `index + size`; it fails exactly when the lead byte's size is -1 |
| Strings.Utf8LetterThenRest | vicmil_lib/N1_vicmil_std_lib/L3_string.h:169-180 | the letter read, followed by the rest of the string from the new index, is the string from the old index on |
| Strings.GetNextUtf8CharExample | vicmil_lib/N1_vicmil_std_lib/L3_string.h:181-190 | the test's string decodes in sequence as "z" (1 byte), "ß" (2), "水" (3) and the banana emoji (4), ending at index 10 |
| DebugGeneral.SplitString | vicmil_lib/N1_vicmil_std_lib/M1_std_lib_general/L1_debug.h:71-91 | the scan over indices 0..size returns `Split`: no pieces for the empty string, otherwise the text between separators, one piece per separator plus one |
| DebugGeneral.SplitCount | vicmil_lib/N1_vicmil_std_lib/M1_std_lib_general/L1_debug.h:71-91 | the empty string gives no pieces, and a non-empty one gives one piece more than it has separators |
| DebugGeneral.JoinPieces | vicmil_lib/N1_vicmil_std_lib/M1_std_lib_general/L1_debug.h:71-91 | joining the pieces with the separator gives back the input |
| DebugGeneral.PiecesHaveNoSeparator | vicmil_lib/N1_vicmil_std_lib/M1_std_lib_general/L1_debug.h:71-91 | no piece contains the separator |
| DebugGeneral.StringContains | vicmil_lib/N1_vicmil_std_lib/M1_std_lib_general/L1_debug.h:93-101 | `string_contains` holds iff the substring occurs at some position |
| DebugGeneral.MatchIgnore | vicmil_lib/N1_vicmil_std_lib/M1_std_lib_general/L1_debug.h:103-129 | the loop that overwrites `return_val` returns true iff the last keyword that hits (skipping "" and " ") is a plain one; false when nothing hits or the last hit is a "!" keyword |
| DebugGeneral.LastHitStep | vicmil_lib/N1_vicmil_std_lib/M1_std_lib_general/L1_debug.h:110-127 | one more keyword decides the answer when it hits (plain gives true, "!" gives false) and leaves it as it was otherwise |
| DebugGeneral.IfRelevant | vicmil_lib/N1_vicmil_std_lib/M1_std_lib_general/L1_debug.h:131-143 | the body runs iff `match_ignore` is false for the line information |
| Debug.MatchKeywords | vicmil_lib/N1_vicmil_std_lib/L1_debug.h:92-115 | the loop with its early return gives `KeywordsMatch`: no "!" keyword's remainder occurs, and some plain keyword occurs |
| Debug.AcceptedBeforeExists | vicmil_lib/N1_vicmil_std_lib/L1_debug.h:99-113 | the flag the loop accumulates is true iff some plain keyword among those scanned occurs in the string |
| Debug.VetoWins | vicmil_lib/N1_vicmil_std_lib/L1_debug.h:102-106 | a matching "!" keyword makes the answer false wherever it stands in the list |
| Debug.NoKeywordsNoMatch | vicmil_lib/N1_vicmil_std_lib/L1_debug.h:94-114 | an empty keyword list matches nothing |
| Debug.EmptyKeywordMatchesAll | vicmil_lib/N1_vicmil_std_lib/L1_debug.h:108-111 | the empty keyword is plain and occurs in every string, so it matches everything |
| Debug.ShouldRunTest | vicmil_lib/N1_vicmil_std_lib/L2_test.h:64-66 | a test runs iff `match_keywords` holds for its long id |
| Shapes.IsInsideRect | vicmil_lib/N1_vicmil_std_lib/M1_std_lib_general/L9_shapes.h:38-46 | `is_inside_rect` holds iff the point lies between `min` and `max` on both axes, both edges included (through the inclusive `in_range`) |
| Shapes.IsOverlap | vicmil_lib/N1_vicmil_std_lib/M1_std_lib_general/L9_shapes.h:72-85 | for rectangles of positive size (the asserts), `is_overlap` holds iff some unit cell lies in both, so rectangles that only share an edge do not overlap |
| Shapes.IsOverlapSymmetric | vicmil_lib/N1_vicmil_std_lib/M1_std_lib_general/L9_shapes.h:72-85 | overlap does not depend on the order of the two rectangles |
| Shapes.SeparatedHasNoCommonCell | vicmil_lib/N1_vicmil_std_lib/M1_std_lib_general/L9_shapes.h:78-83 | rectangles that the early-return tests separate on some axis have no unit cell in common |
| Shapes.GetBoundingRect | vicmil_lib/N1_vicmil_std_lib/M1_std_lib_general/L9_shapes.h:87-97 | the bounding rectangle's edges are the minimum of the two minimum edges and the maximum of the two maximum edges, on both axes |
| Shapes.BoundingRectIsSmallest | vicmil_lib/N1_vicmil_std_lib/M1_std_lib_general/L9_shapes.h:87-97 | the bounding rectangle contains both inputs, and every rectangle that contains both contains it ("the smallest rectangle") |
| Shapes.AlignRectEdgeX | vicmil_lib/N1_vicmil_std_lib/M1_std_lib_general/L9_shapes.h:99-116 | only x changes; the chosen edge of the moved rectangle (its right edge for `rect_left_side`) lands on the chosen edge of the stationary one |
| Shapes.AlignRectEdgeY | vicmil_lib/N1_vicmil_std_lib/M1_std_lib_general/L9_shapes.h:117-134 | only y changes; the chosen edge of the moved rectangle (its bottom edge for `rect_top_side`) lands on the chosen edge of the stationary one |
| Shapes.CutRectToFit | vicmil_lib/N1_vicmil_std_lib/M1_std_lib_general/L9_shapes.h:136-148 | the clipped rectangle's edges are the intersection of the two rectangles' edges |
| Shapes.CutRectToFitInside | vicmil_lib/N1_vicmil_std_lib/M1_std_lib_general/L9_shapes.h:136-148 | a rectangle already inside the boundary is left unchanged |
| Shapes.CutRectToFitIdempotent | vicmil_lib/N1_vicmil_std_lib/M1_std_lib_general/L9_shapes.h:136-148 | clipping twice gives the same rectangle as clipping once |
| Shapes.CutRectToFitContained | vicmil_lib/N1_vicmil_std_lib/M1_std_lib_general/L9_shapes.h:136-148 | a clipped rectangle of non-negative size lies inside the boundary |
| Shapes.AlignRect | vicmil_lib/N1_vicmil_std_lib/M1_std_lib_general/L9_shapes.h:150-214 | LEFT_* puts max_x on the stationary min_x, RIGHT_* min_x on its max_x, TOP_* max_y on its min_y and BOTTOM_* min_y on its max_y, with the second word lining up the other axis; w and h never change; NO_ALIGNMENT changes nothing, COPY_POSITION copies the stationary rectangle, and exactly the middle alignments throw |
| Shapes.AlignedBesideDoesNotOverlap | vicmil_lib/N1_vicmil_std_lib/M1_std_lib_general/L9_shapes.h:171-204 | a positive-size rectangle placed beside a stationary one by any of the eight side alignments does not overlap it |
| RectPacking.FitRectsInRect | vicmil_lib/N1_vicmil_std_lib/M1_std_lib_general/L9_shapes.h:216-250 | the in-place shelf loop returns the verdict and leaves the array exactly as `Fit` says: true at once for no rectangles, false as soon as `y_level + h` reaches `height`, positions written up to that point |
| RectPacking.FitKeepsSizes | vicmil_lib/N1_vicmil_std_lib/M1_std_lib_general/L9_shapes.h:223-250 | fitting never changes a rectangle's width or height, nor the number of rectangles |
| RectPacking.FitDependsOnSizes | vicmil_lib/N1_vicmil_std_lib/M1_std_lib_general/L9_shapes.h:223-250 | the verdict and the placement depend only on the sizes, not on the positions the rectangles had before |
| RectPacking.FitBounds | vicmil_lib/N1_vicmil_std_lib/M1_std_lib_general/L9_shapes.h:223-250 | on success every rectangle has x >= 0, y >= 0 and y + h < height, and x + w < width unless it starts a shelf at x = 0 |
| RectPacking.FitSeparated | vicmil_lib/N1_vicmil_std_lib/M1_std_lib_general/L9_shapes.h:216-250 | for input sorted by non-increasing height with non-negative sizes, a true result leaves no two rectangles overlapping |
| RectPacking.ShelfStep | vicmil_lib/N1_vicmil_std_lib/M1_std_lib_general/L9_shapes.h:234-248 | placing one rectangle on the current shelf or on a new one keeps every placed rectangle above the shelf or left of x on it |
| RectPacking.FitSucceedsWhenLarge | vicmil_lib/N1_vicmil_std_lib/M1_std_lib_general/L9_shapes.h:223-250 | when the widths sum to less than `width` and every height is below `height`, all rectangles fit on one shelf |
| RectPackingSquare.FitFailureBound | vicmil_lib/N1_vicmil_std_lib/M1_std_lib_general/L9_shapes.h:223-250 | a square too small to fit is no larger than the summed widths plus the tallest height, so the doubling loop stops (also lines 310-312) |
| RectPackingSquare.FloorSqrt | vicmil_lib/N1_vicmil_std_lib/M1_std_lib_general/L9_shapes.h:275 | `std::sqrt(area)` truncated to an int is the largest s with s*s <= area |
| RectPackingSquare.MaxSideOf | vicmil_lib/N1_vicmil_std_lib/M1_std_lib_general/L9_shapes.h:270-274 | the running maximum is non-negative and at least every width and height |
| RectPackingSquare.InitialGrid | vicmil_lib/N1_vicmil_std_lib/M1_std_lib_general/L9_shapes.h:265-276 | the starting grid, the larger of the two rounded-up bounds, is a power of two no smaller than the largest side |
| RectPackingSquare.TotalArea | vicmil_lib/N1_vicmil_std_lib/M1_std_lib_general/L9_shapes.h:265-268 | the accumulating loop returns the summed `h * w` of the rectangles |
| RectPackingSquare.LongestSide | vicmil_lib/N1_vicmil_std_lib/M1_std_lib_general/L9_shapes.h:270-274 | the accumulating loop returns the largest width or height (0 for none) |
| RectPackingSquare.HeightIndexPairs | vicmil_lib/N1_vicmil_std_lib/M1_std_lib_general/L9_shapes.h:280-283 | pair j is (height of rectangle j, j), one pair per rectangle |
| RectPackingSquare.PairGreaterIsStrictWeakOrder | vicmil_lib/N1_vicmil_std_lib/M1_std_lib_general/L9_shapes.h:284-288 | `std::pair`'s lexicographic `>` is a strict weak order, so `std::sort` with it is well defined |
| RectPackingSquare.SortedHeightOrder | vicmil_lib/N1_vicmil_std_lib/M1_std_lib_general/L9_shapes.h:279-288 | the sorted pairs list every index exactly once with its rectangle's height, heights non-increasing |
| RectPackingSquare.PermutedPairs | vicmil_lib/N1_vicmil_std_lib/M1_std_lib_general/L9_shapes.h:279-288 | any permutation of the (height, index) pairs names each rectangle exactly once |
| RectPackingSquare.CopyInOrder | vicmil_lib/N1_vicmil_std_lib/M1_std_lib_general/L9_shapes.h:291-296 | the copy holds at slot k the rectangle whose index the k-th sorted pair carries |
| RectPackingSquare.SortedCopyFacts | vicmil_lib/N1_vicmil_std_lib/M1_std_lib_general/L9_shapes.h:291-305 | the sorted copy has non-increasing heights, which is what the sanity check asserts, and is a permutation of the input (equal multisets) |
| RectPackingSquare.GrowUntilFit | vicmil_lib/N1_vicmil_std_lib/M1_std_lib_general/L9_shapes.h:308-312 | the doubling loop ends on a power of two at least the start at which `Fit` succeeds; it stays at the start if that fits, and otherwise half the result did not fit |
| RectPackingSquare.ScatterBack | vicmil_lib/N1_vicmil_std_lib/M1_std_lib_general/L9_shapes.h:314-317 | each placed copy is written back to its original index |
| RectPackingSquare.ScatterProperties | vicmil_lib/N1_vicmil_std_lib/M1_std_lib_general/L9_shapes.h:314-317 | writing back keeps every rectangle's size at its own index and keeps the bounds and the absence of overlaps |
| RectPackingSquare.RectPackingPow2Sq | vicmil_lib/N1_vicmil_std_lib/M1_std_lib_general/L9_shapes.h:251-319 | the grid is a power of two at least the initial bound (so at least `upper_power_of_two` of every side) and the smallest doubling that fits; sizes stay at their indices; the height-sorted copy is a permutation of the input; every rectangle has x, y >= 0, y + h < grid and x + w <= grid (x + w < grid unless it starts a shelf); no two overlap |
| RectPackingSquare.SortedPairsDescend | vicmil_lib/N1_vicmil_std_lib/M1_std_lib_general/L9_shapes.h:284-288 | pairs sorted with `std::pair`'s `>` have non-increasing heights |
| RectPackingSquare.PlacedFacts | vicmil_lib/N1_vicmil_std_lib/M1_std_lib_general/L9_shapes.h:308-317 | after the fit every sorted copy keeps its original's width and height and lies inside the grid |
| PoolAllocation.KeyBits | vicmil_lib/N1_vicmil_std_lib/M1_std_lib_general/L11_data_structures.h:20-37 | the 32-bit pattern of a key keeps the allocation number in the low 31 bits and sets the top bit exactly for a free slot |
| PoolAllocation.KeyBitsRoundTrip | vicmil_lib/N1_vicmil_std_lib/M1_std_lib_general/L11_data_structures.h:20-37 | decoding the pattern of a key gives the key back, and encoding a decoded pattern gives the pattern back |
| PoolAllocation.SetFreeKeepsAllocationNr | vicmil_lib/N1_vicmil_std_lib/M1_std_lib_general/L11_data_structures.h:20-33 | `set_free` toggles only the flag: the allocation number read back is unchanged |
| PoolAllocation.Capacity | vicmil_lib/N1_vicmil_std_lib/M1_std_lib_general/L11_data_structures.h:38-63 | the size after `_assert_free_exists` grows (from 0 to 1, or doubling) exactly when the pool is empty or `free_count == 0` |
| PoolAllocation.PopulateNewSlots | vicmil_lib/N1_vicmil_std_lib/M1_std_lib_general/L11_data_structures.h:49-59 | the resize doubles the vectors, keeps the old slots, and marks each new slot free (allocation number 1) linked to the next index |
| PoolAllocation.GrownFreeList | vicmil_lib/N1_vicmil_std_lib/M1_std_lib_general/L11_data_structures.h:49-61 | after doubling, the free list runs through the new slots in index order from `current_size` |
| PoolAllocation.PopFreeList | vicmil_lib/N1_vicmil_std_lib/M1_std_lib_general/L11_data_structures.h:64-79 | the head of a well-formed free list is a free slot, and stamping it leaves a well-formed list of the remaining slots |
| PoolAllocation.PushFreeList | vicmil_lib/N1_vicmil_std_lib/M1_std_lib_general/L11_data_structures.h:80-95 | freeing a slot in use puts it at the front of a well-formed free list |
| PoolAllocation.AllocationKeepsHandles | vicmil_lib/N1_vicmil_std_lib/M1_std_lib_general/L11_data_structures.h:64-79 | an allocation keeps every live handle live, and any handle it makes live carries the new allocation number (also lines 96-98) |
| PoolAllocation.FreeingEndsOnlyItsHandles | vicmil_lib/N1_vicmil_std_lib/M1_std_lib_general/L11_data_structures.h:80-98 | freeing a slot expires exactly the handles to that slot |
| PoolAllocation.SlotsPartition | vicmil_lib/N1_vicmil_std_lib/M1_std_lib_general/L11_data_structures.h:154-162 | every slot is either free or in use, so the two counts add up to the size |
| PoolAllocation.Pool.constructor | vicmil_lib/N1_vicmil_std_lib/M1_std_lib_general/L11_data_structures.h:14-19 | a new allocator has no slots, `free_count` 0 and `total_allocation_count` 0 (also line 150) |
| PoolAllocation.Pool.CountsMatchFlags | vicmil_lib/N1_vicmil_std_lib/M1_std_lib_general/L11_data_structures.h:154-162 | `free_count` equals the number of slots whose free flag is set, and `alloc_count() == size() - free_count()` is the number of slots in use |
| PoolAllocation.Pool.IsValidKey | vicmil_lib/N1_vicmil_std_lib/M1_std_lib_general/L11_data_structures.h:96-98 | a valid key means the index is in range (and the slot carries exactly that key) |
| PoolAllocation.Pool.SetFree | vicmil_lib/N1_vicmil_std_lib/M1_std_lib_general/L11_data_structures.h:25-33 | only the flag of that slot's key changes; everything else stays |
| PoolAllocation.Pool.AssertFreeExists | vicmil_lib/N1_vicmil_std_lib/M1_std_lib_general/L11_data_structures.h:38-63 | afterwards a free slot exists; the size follows `Capacity`, old keys stay, new keys are free, and the free list is unchanged or runs through the new slots |
| PoolAllocation.Pool.Grow | vicmil_lib/N1_vicmil_std_lib/M1_std_lib_general/L11_data_structures.h:47-62 | doubling a full pool makes `free_count` the old size, appends free slots and starts the free list at the old size |
| PoolAllocation.Pool.AllocateFreeIndex | vicmil_lib/N1_vicmil_std_lib/M1_std_lib_general/L11_data_structures.h:64-79 | the index is the free-list head (the most recently freed slot), or the first new slot after a resize; its key becomes (new count, in use); `total_allocation_count` goes up by one, `free_count` down by one, and no other slot changes |
| PoolAllocation.Pool.PopFreeSlot | vicmil_lib/N1_vicmil_std_lib/M1_std_lib_general/L11_data_structures.h:68-79 | taking the head slot stamps exactly that key, pops it from the free list and keeps the data |
| PoolAllocation.Pool.FreeIndex | vicmil_lib/N1_vicmil_std_lib/M1_std_lib_general/L11_data_structures.h:80-95 | with the matching key the slot is marked free, pushed on the front of the free list and `free_count` goes up; with any other key nothing changes |
| PoolAllocation.Pool.Push | vicmil_lib/N1_vicmil_std_lib/M1_std_lib_general/L11_data_structures.h:129-153 | the returned handle is live, carries the stamped key and reads back the pushed value; LIFO reuse of the free-list head; other slots keep their keys and values |
| PoolAllocation.Pool.Erase | vicmil_lib/N1_vicmil_std_lib/M1_std_lib_general/L11_data_structures.h:121-128 | afterwards the handle is expired; a live handle frees its slot onto the front of the list, and an expired one (a second erase) changes nothing |
| PoolAllocation.Pool.SetData | vicmil_lib/N1_vicmil_std_lib/M1_std_lib_general/L11_data_structures.h:131-132 | the write touches only that data slot |
| PoolAllocation.Pool.PushVia | vicmil_lib/N1_vicmil_std_lib/M1_std_lib_general/L11_data_structures.h:141-146 | pushing through an expired handle returns the null handle and leaves the keys, data, free list and counters unchanged; through a live one it pushes like `Push`: the allocation count goes up by one, the pool grows to its doubled capacity only when no slot was free, the new handle is live on a slot that was free (or new), holds the value, every other slot keeps its key and data, the new slots are free, and the free count and free list are updated |
| PoolAllocation.Pool.NextLive | vicmil_lib/N1_vicmil_std_lib/M1_std_lib_general/L11_data_structures.h:169-180 | the next slot in use at or after i, or -1 |
| PoolAllocation.Pool.NextLiveSkipsFree | vicmil_lib/N1_vicmil_std_lib/M1_std_lib_general/L11_data_structures.h:169-180 | every slot the search skips is free |
| PoolAllocation.Pool.FindNextData | vicmil_lib/N1_vicmil_std_lib/M1_std_lib_general/L11_data_structures.h:169-180 | `find_next_data` leaves -1 alone and otherwise moves to the next slot in use, or to -1 |
| PoolAllocation.Pool.LiveIndices | vicmil_lib/N1_vicmil_std_lib/M1_std_lib_general/L11_data_structures.h:166-186 | iterating from `begin()` to `end()` visits exactly the slots in use, in increasing index order (also lines 219-230) |
| PoolAllocation.PushFour | vicmil_lib/N1_vicmil_std_lib/M1_std_lib_general/L11_data_structures.h:233-245 | four pushes into a new pool take indices 0 to 3 with keys 1 to 4, and the first handle reads 5 |
| PoolAllocation.EraseAndReuse | vicmil_lib/N1_vicmil_std_lib/M1_std_lib_general/L11_data_structures.h:246-250 | erasing the first handle and pushing again reuses index 0 with key 5 |
| PoolAllocation.EraseRest | vicmil_lib/N1_vicmil_std_lib/M1_std_lib_general/L11_data_structures.h:251-256 | erasing the remaining handles in the test's order (erasing ptr1 a second time does nothing) leaves every slot free |
| PoolAllocation.RefillFour | vicmil_lib/N1_vicmil_std_lib/M1_std_lib_general/L11_data_structures.h:261-272 | four new pushes read back 1, 2, 3, 4, and the size stays 4 with no free slot |
| PoolAllocation.PoolAllocatorScenario | vicmil_lib/N1_vicmil_std_lib/M1_std_lib_general/L11_data_structures.h:233-273 | the whole test: indices 0, 1, then 0 reused; size 4 and free 4 after erasing all, ptr3 expired; values 1 to 4 read back, size 4 and free 0 at the end |
| PoolAllocation.PushFirstTwo | vicmil_lib/N1_vicmil_std_lib/M1_std_lib_general/L11_data_structures.h:234-240 | the first two pushes into an empty allocator land at indices 0 and 1 with allocation numbers 1 and 2, and dereferencing the first handle gives back 5 |
| PoolAllocation.PushNextTwo | vicmil_lib/N1_vicmil_std_lib/M1_std_lib_general/L11_data_structures.h:241-244 | the next two pushes double the allocator to four slots and fill indices 2 and 3, leaving no free slot |
| PoolAllocation.GrownKeys | vicmil_lib/N1_vicmil_std_lib/M1_std_lib_general/L11_data_structures.h:47-62 | doubling keeps every old key and appends free keys with allocation number 1, and every allocation number stays within the total count |
| QuantumSim.IsQubitEnabledInState | source/N1_quantum_simulation.h:66-74 | `mask & state_index` with mask `1 << i` is true exactly when bit i of the state index is set |
| QuantumSim.BitAddPow2 | source/N1_quantum_simulation.h:142 | adding 2^t to an index with bit t clear sets bit t and leaves every other bit as it was |
| QuantumSim.BitSubPow2 | source/N1_quantum_simulation.h:165-167 | an index with bit t set is at least 2^t, and subtracting 2^t clears bit t only |
| QuantumSim.SetBitStaysBelow | source/N1_quantum_simulation.h:142-144 | the partner index n + 2^t of an index below 2^k with bit t clear (t < k) is still inside the state vector |
| QuantumSim.HighBitClear | source/N1_quantum_simulation.h:66-74 | every bit at or above k of an index below 2^k is clear, so a qubit outside the system is never enabled |
| QuantumSim.Flip | source/N1_quantum_simulation.h:142-167 | the partner index differs from n exactly in bit t: n + 2^t when the bit is clear, n - 2^t when it is set |
| QuantumSim.FlipKeepsOtherBits | source/N1_quantum_simulation.h:142-167 | the partner index agrees with n in every bit but t |
| QuantumSim.FlipInvolution | source/N1_quantum_simulation.h:142-167 | the partner of the partner is the index itself |
| QuantumSim.FlipStaysBelow | source/N1_quantum_simulation.h:142-167 | the partner of an index below 2^k, for a bit t < k, is still below 2^k |
| QuantumSim.CnotIndex | source/N1_quantum_simulation.h:163-174 | the index cnot exchanges entry n with stays in the vector and has the same control bit as n |
| QuantumSim.CnotIndexInvolution | source/N1_quantum_simulation.h:163-174 | cnot's index map is its own inverse, hence a bijection of the state indices |
| QuantumSim.CnotSwapsPairs | source/N1_quantum_simulation.h:163-174 | after cnot, entries n and n + 2^t are exchanged whenever control bit c of n is set and target bit t clear; entries with the control clear (or control equal to target) keep their amplitude |
| QuantumSim.CnotTwice | source/N1_quantum_simulation.h:163-174 | applying cnot twice with the same qubits gives the original state vector back |
| QuantumSim.CnotSameQubit | source/N1_quantum_simulation.h:163-174 | cnot whose control and target are the same qubit leaves the state vector unchanged |
| QuantumSim.SwapKeepsMultiset | source/N1_quantum_simulation.h:168-170 | the swap through a temporary keeps the multiset of amplitudes |
| QuantumSim.PairLow | source/N1_quantum_simulation.h:141-167 | the lower index of a pair has bit t clear and is n or its partner |
| QuantumSim.CnotStep | source/N1_quantum_simulation.h:164-172 | one iteration of cnot's loop keeps the invariant that every pair whose lower index was already visited is swapped and the rest untouched |
| QuantumSim.CnotDone | source/N1_quantum_simulation.h:163-174 | when cnot's loop has visited every index, the vector is the cnot image of the old one |
| QuantumSim.HadamarPairLocal | source/N1_quantum_simulation.h:137-149 | the new amplitude at n after hadamar depends only on the old amplitudes at n and at n with bit q flipped |
| QuantumSim.HadamarStep | source/N1_quantum_simulation.h:139-148 | one iteration of hadamar's loop replaces the pair (n, n + 2^q) by the sum and difference of its old values and keeps the loop invariant |
| QuantumSim.HadamarDone | source/N1_quantum_simulation.h:137-149 | when hadamar's loop has visited every index, the vector is the hadamar image of the old one |
| QuantumSim.PhaseShiftImage | source/N1_quantum_simulation.h:152-160 | after the phase shift an amplitude is multiplied by the phase exactly when bit q of its index is set; all others are unchanged |
| QuantumSim.Collapse | source/N1_quantum_simulation.h:90-96 | after the collapse step an amplitude is kept when bit q of its index equals the outcome and is zero otherwise |
| QuantumSim.Outcome | source/N1_quantum_simulation.h:79-88 | the measured value is bit q of the state where the cumulative scan stopped, and false when the scan never stopped |
| QuantumSim.QubitSystem.constructor | source/N1_quantum_simulation.h:58-64 | a system of N qubits (N < 24) has 2^N amplitudes, the basis state 0 with amplitude one and every other state zero |
| QuantumSim.QubitSystem.Cnot | source/N1_quantum_simulation.h:163-174 | in-place cnot leaves the state vector equal to its cnot image and keeps the multiset of amplitudes |
| QuantumSim.QubitSystem.CnotAt | source/N1_quantum_simulation.h:165-171 | the loop body at index n swaps n with its partner when the control bit is set and the target bit clear, keeping the loop invariant and the multiset |
| QuantumSim.QubitSystem.Hadamar | source/N1_quantum_simulation.h:137-149 | in-place hadamar leaves the state vector equal to its hadamar image |
| QuantumSim.QubitSystem.PhaseShift | source/N1_quantum_simulation.h:152-160 | the state vector afterwards is the phase-shift image of the old one |
| QuantumSim.QubitSystem.Measure | source/N1_quantum_simulation.h:76-101 | measure returns bit q of the state where the scan stopped and leaves the collapsed, renormalised vector |
| QuantumSim.QubitSystem.Normalize | source/N1_quantum_simulation.h:125-134 | every amplitude is rescaled against the vector as it stood before the pass |
| QuantumSim.QubitSystem.MeasureAll | source/N1_quantum_simulation.h:103-110 | measure_all returns one result per qubit, result n being the outcome of measuring qubit n, and leaves the vector of the successive measurements |
| Circuit.GateOf | source/N2_circuit.h:21-27 | in gate_settings only setting 1 ("H_") belongs to the Hadamard gate; every other setting is the standard gate |
| Circuit.FirstNonStandard | source/N2_circuit.h:42-44 | the scan finds the first entry whose gate is not the standard one, or none when all entries are standard |
| Circuit.GetGateIndex | source/N2_circuit.h:40-56 | get_gate_index returns the gate of the first non-standard entry when all non-standard entries agree, -1 on a conflict, and the standard gate when every entry is standard |
| Circuit.GateIndexCases | source/N2_circuit.h:40-56 | the three outcomes of get_gate_index for any table: all standard gives the standard gate, an agreeing gate g gives g, two different non-standard gates give -1 |
| Circuit.NoConflictInGateSettings | source/N2_circuit.h:21-27 | with the shipped table an operation never conflicts, and it is a Hadamard column exactly when some qubit has setting 1 (also lines 40-56) |
| Circuit.OperationSetting | source/N2_circuit.h:99-104 | get_qubit_setting returns the stored setting, and 0 for a qubit past the end of the vector |
| Circuit.SetOperationSetting | source/N2_circuit.h:76-98 | set_qubit_setting stores 0 for a standard-gate setting and the setting otherwise, grows the vector only for a non-standard setting, and leaves every other qubit's setting unchanged |
| Circuit.MaxQubit | source/N2_circuit.h:105-117 | the maximum qubit of an operation is the last index with a nonzero setting, or -1 when there is none |
| Circuit.OperationMaxQubit | source/N2_circuit.h:105-117 | the loop of get_max_qubit returns that last nonzero index |
| Circuit.NoHadamardsNoChange | source/N2_circuit.h:30-38 | run_hadamar over settings none of which is "H_" leaves the state vector unchanged |
| Circuit.RunHadamar | source/N2_circuit.h:30-38 | run_hadamar applies hadamar to each qubit whose setting is "H_", in index order, and returns 0 |
| Circuit.ApplyOperation | source/N2_circuit.h:61-74 | apply_operation returns -1 exactly on a gate conflict, leaves the vector unchanged for a standard column and applies the Hadamards of a Hadamard column |
| Circuit.StandardOperationNoEffect | source/N2_circuit.h:67-68 | an operation without setting 1 leaves the state vector unchanged |
| Circuit.CircuitMaxQubitBounds | source/N2_circuit.h:153-159 | the circuit's maximum qubit bounds every operation's maximum qubit and is attained by one of them, or is -1 |
| Circuit.CircuitMaxQubitMeaning | source/N2_circuit.h:153-159 | the circuit's maximum qubit has a nonzero setting in some operation and every qubit above it has setting 0 in all operations |
| Circuit.QuantumCircuit.constructor | source/N2_circuit.h:123 | a new circuit has no operations |
| Circuit.QuantumCircuit.GetMaxQubit | source/N2_circuit.h:153-159 | get_max_qubit returns the largest maximum qubit over the operations, -1 for none |
| Circuit.QuantumCircuit.SetQubitSetting | source/N2_circuit.h:130-137 | the circuit grows to hold the operation, the one cell takes the (normalised) setting and every other cell keeps its setting |
| Circuit.QuantumCircuit.RunCircuit | source/N2_circuit.h:125-129 | run_circuit applies the operations in order: the vector becomes the circuit image of the old one |
| Circuit.UnlinesAppend | source/N2_circuit.h:217-229 | appending a line and a newline to the text is writing one more line |
| Circuit.SplitUnlines | source/N2_circuit.h:203-235 | the text written line by line splits back into the same lines, followed by the lines of what comes after |
| Circuit.SplitFirstLine | source/N2_circuit.h:203-235 | a first line without a newline splits off the front of the text |
| Circuit.Cell | source/N2_circuit.h:212-215 | each cell of the grid is six characters without a newline ("__", the two-character setting, "__") |
| Circuit.Cells | source/N2_circuit.h:211-216 | the cells of a row make 6 characters per operation and no newline |
| Circuit.QubitLines | source/N2_circuit.h:209-219 | every qubit contributes its row and an empty line |
| Circuit.QubitLinesNoBreaks | source/N2_circuit.h:209-219 | none of the qubit lines contains a newline |
| Circuit.SettingsList | source/N2_circuit.h:222-228 | the settings line of k entries joined by ", " is 4k - 2 characters long and has no newline |
| Circuit.ScreenText | source/N2_circuit.h:203-229 | the text before the selection is the qubit lines, "+  -" and the settings line, each ending in a newline |
| Circuit.ScreenOutputPieces | source/N2_circuit.h:203-235 | to_string's text is the qubit lines, "+  -" and a newline, the settings line, a newline and the selection in brackets |
| Circuit.ScreenLayout | source/N2_circuit.h:203-229 | the screen has 2N + 2 (N qubit rows) lines: row j at line 2j, a blank line after it, "+  -" and the settings last |
| Circuit.ScreenLineNumbers | source/N2_circuit.h:203-235 | splitting the shown text at newlines gives the screen's lines followed by the selection line |
| Circuit.ScreenOutputLines | source/N2_circuit.h:203-235 | in the text as shown, line 2j is qubit j's row, line 2N holds "+  -" and line 2N + 1 the settings, which is where the click handlers look |
| Circuit.CellsColumn | source/N2_circuit.h:211-216 | character x of the cells is character x % 6 of the cell of operation x / 6 (also line 243) |
| Circuit.QubitRowColumn | source/N2_circuit.h:210-216 | on a qubit row (label "qN:   " six characters wide for N < 10), character x >= 6 belongs to operation (x - 6) / 6, which is what check_qubit_setting_pressed computes (also lines 242-243) |
| Circuit.SettingsColumn | source/N2_circuit.h:223-228 | on the settings line, characters 4i and 4i + 1 are setting i's text, which is what charX / 4 selects (also line 266) |
| Circuit.SettingSelectionAsWritten | source/N2_circuit.h:262-267 | the handler as written changes the selection only on the settings line, to charX / 4, for 0 <= charX <= 4 × the table size inclusive |
| Circuit.SettingSelectionAsWrittenOutOfRange | source/N2_circuit.h:264 | the inclusive bound lets column 20 through and selects setting 5, which the five-entry table does not have |
| Circuit.RowText | source/N2_circuit.h:210-218 | the loop that writes one qubit row produces exactly that row |
| Circuit.QubitLinesStep | source/N2_circuit.h:209-219 | one more pass of the outer loop appends the row and two newlines |
| Circuit.RowsText | source/N2_circuit.h:209-219 | the outer loop of to_string writes the qubit lines |
| Circuit.SettingsText | source/N2_circuit.h:222-228 | the settings loop writes the settings line |
| Circuit.QuantumCircuitInterface.constructor | source/N2_circuit.h:164-172 | a new editor has one qubit row, setting 1 selected and an empty circuit |
| Circuit.QuantumCircuitInterface.UpdateQubitCount | source/N2_circuit.h:204-206 | the number of rows becomes the larger of the circuit's maximum qubit + 1 and the old row count |
| Circuit.QuantumCircuitInterface.PrintScreen | source/N2_circuit.h:207-234 | the text written is the screen of the circuit with the current rows and selection |
| Circuit.QuantumCircuitInterface.ToString | source/N2_circuit.h:203-235 | to_string raises the row count to the circuit's need and returns the screen text |
| Circuit.QuantumCircuitInterface.CheckQubitSettingPressed | source/N2_circuit.h:236-248 | a click inside the grid (rows 0 to 2N - 1, columns 6 to the end) puts the selected setting on qubit charY / 2 of operation (charX - 6) / 6 and changes no other cell; elsewhere nothing changes |
| Circuit.QuantumCircuitInterface.CheckPlusPressed | source/N2_circuit.h:249-253 | a click on column 0 of line 2N adds a row; nothing else changes |
| Circuit.QuantumCircuitInterface.CheckMinusPressed | source/N2_circuit.h:254-261 | a click on column 3 of line 2N removes a row but never goes below one |
| Circuit.QuantumCircuitInterface.CheckSettingSelectionPressed | source/N2_circuit.h:262-267 | corrected: a click on line 2N + 1 at a column below 4 × the table size selects setting charX / 4; it agrees with the handler as written everywhere except the one column the inclusive bound lets through |
| Circuit.QuantumCircuitInterface.Click | source/N2_circuit.h:268-280 | a click runs the four handlers in order: the row count and the selection afterwards are given in terms of the state before the click; a click in the grid grows the circuit to `max(old length, (charX - 6) / 6 + 1)` operations, puts the selected setting on qubit charY / 2 of operation (charX - 6) / 6 and leaves every other cell as it was; any other click leaves the operations unchanged |
| PlotCircuit.Instructions | releases/N1_plot_quantum_circuit/main.cpp:58-81 | the block between the qubit rows and the settings is ten lines, naming the selected setting on its fifth |
| PlotCircuit.InstructionsHaveNoBreaks | releases/N1_plot_quantum_circuit/main.cpp:58-81 | none of the instruction lines contains a newline, so each counts as one screen line |
| PlotCircuit.FixedLinesHaveNoBreaks | releases/N1_plot_quantum_circuit/main.cpp:31-105 | the heading, instructions, help line and button line contain no newline |
| PlotCircuit.PlotLayout | releases/N1_plot_quantum_circuit/main.cpp:31-108 | the screen has 17 + 2N lines: qubit row j at line 2 + 2j with a blank after it, the settings at line 12 + 2N and the "+ / -" buttons at line 16 + 2N |
| PlotCircuit.PlotLinesNoBreaks | releases/N1_plot_quantum_circuit/main.cpp:31-108 | no line of the screen contains a newline |
| PlotCircuit.PlusMinusColumns | releases/N1_plot_quantum_circuit/main.cpp:104 | the button line " +   - " is seven characters with '+' at column 1 and '-' at column 5, and its only visible character in columns 0-2 is the '+' (also lines 121-136) |
| PlotCircuit.PlotLineNumbers | releases/N1_plot_quantum_circuit/main.cpp:31-108 | splitting the printed text at newlines gives back its lines and a final empty piece |
| PlotCircuit.PlotLinesInOrder | releases/N1_plot_quantum_circuit/main.cpp:31-108 | the printed lines are the heading, qubit rows, instructions, settings, help and buttons, in that order |
| PlotCircuit.RecordedLineNumbers | releases/N1_plot_quantum_circuit/main.cpp:24-26 | in the text as shown, the lines recorded in qubit_settings_start, qubit_settings_selection_start and qubit_plus_minus_start are the first qubit row, the settings line and the button line (also lines 40, 83, 103) |
| PlotCircuit.AddLine | releases/N1_plot_quantum_circuit/main.cpp:34-36 | appending a line and a newline to the text is writing one more line |
| PlotCircuit.AddLines | releases/N1_plot_quantum_circuit/main.cpp:58-81 | appending several lines keeps the text and the line counter in step |
| PlotCircuit.RowsStep | releases/N1_plot_quantum_circuit/main.cpp:45-57 | one pass of the row loop adds that qubit's row and a blank line |
| PlotCircuit.PlotSelectionAsWritten | releases/N1_plot_quantum_circuit/main.cpp:137-142 | the handler as written changes the selection only on the settings line, to charX / 4, for 0 <= charX <= 4 × the table size inclusive |
| PlotCircuit.PlotSelectionAsWrittenOutOfRange | releases/N1_plot_quantum_circuit/main.cpp:139 | the inclusive bound lets column 20 through and selects setting 5, which the five-entry table does not have |
| PlotCircuit.PlotCircuitInterface.constructor | releases/N1_plot_quantum_circuit/main.cpp:8-30 | a new editor has an empty circuit, one qubit row, setting 1 selected and every recorded line number 0 |
| PlotCircuit.PlotCircuitInterface.AddQubitRows | releases/N1_plot_quantum_circuit/main.cpp:45-57 | the row loop appends exactly the qubit lines and keeps the line counter equal to the number of lines written |
| PlotCircuit.PlotCircuitInterface.PrintScreen | releases/N1_plot_quantum_circuit/main.cpp:31-108 | the text written is the screen of the circuit, and the line numbers it records are 2, 12 + 2N and 16 + 2N |
| PlotCircuit.PlotCircuitInterface.UpdateQubitCount | releases/N1_plot_quantum_circuit/main.cpp:41-43 | the row count becomes the larger of the circuit's qubit count and the old row count |
| PlotCircuit.PlotCircuitInterface.PrintAndRecord | releases/N1_plot_quantum_circuit/main.cpp:31-108 | printing leaves circuit, rows and selection unchanged and records the line numbers of the screen it printed |
| PlotCircuit.PlotCircuitInterface.ToString | releases/N1_plot_quantum_circuit/main.cpp:31-108 | to_string raises the row count, returns the screen and records where the qubit rows, settings and buttons are |
| PlotCircuit.PlotCircuitInterface.CheckQubitSettingPressed | releases/N1_plot_quantum_circuit/main.cpp:109-120 | a click on the qubit rows (from the recorded first row, two lines per qubit) at a column from 6 to the end puts the selected setting in that one cell and changes no other; elsewhere nothing changes |
| PlotCircuit.PlotCircuitInterface.CheckPlusPressed | releases/N1_plot_quantum_circuit/main.cpp:121-128 | a click on columns 0-2 of the button line adds a row, capped at MAX_QUBIT_COUNT |
| PlotCircuit.PlotCircuitInterface.CheckMinusPressed | releases/N1_plot_quantum_circuit/main.cpp:129-136 | a click on columns 4-6 of the button line removes a row, never going below one |
| PlotCircuit.PlotCircuitInterface.CheckSettingSelectionPressed | releases/N1_plot_quantum_circuit/main.cpp:137-142 | corrected: a click on the settings line at a column below 4 × the table size selects setting charX / 4; it agrees with the handler as written except on the one column the inclusive bound lets through |
| PlotCircuit.PlotCircuitInterface.CapQubitCount | releases/N1_plot_quantum_circuit/main.cpp:146-148 | run_system caps the row count at MAX_QUBIT_COUNT |
| PlotCircuit.PlotCircuitInterface.Click | releases/N1_plot_quantum_circuit/main.cpp:182-200 | a click runs the four handlers and the cap: the row count ends between one and MAX_QUBIT_COUNT and the selection is given in terms of the state before the click; a click on the qubit rows grows the circuit to `max(old length, (charX - 6) / 6 + 1)` operations, sets that one cell to the selected setting and leaves every other cell as it was; any other click leaves the operations unchanged |
| AppConsole.CRem | vicmil_lib/N3_vicmil_opengl/L11_app.h:242 | C++ `%` truncates toward zero: for a negative line number the remainder is zero or negative, otherwise it is the Euclidean one |
| AppConsole.Truncated | vicmil_lib/N3_vicmil_opengl/L11_app.h:280-282 | a drawn line is a prefix of the logged line, exactly max_characters_per_line long when the line is longer, and the whole line otherwise |
| AppConsole.DistinctSlots | vicmil_lib/N3_vicmil_opengl/L11_app.h:238-243 | two line numbers less than buffer_size apart land in different slots, so the last buffer_size lines are all still stored |
| AppConsole.DrawnTextStep | vicmil_lib/N3_vicmil_opengl/L11_app.h:277-284 | drawing one more line appends its truncated text and a newline |
| AppConsole.TextConsole.constructor | vicmil_lib/N3_vicmil_opengl/L11_app.h:234-236 | a new console has buffer_size empty slots and no lines logged |
| AppConsole.TextConsole.GetBufferIndex | vicmil_lib/N3_vicmil_opengl/L11_app.h:238-243 | `((n % size) + size) % size` with C++ remainder is a slot index inside the buffer and equals n mod size for every line number, negative ones included |
| AppConsole.TextConsole.SlotHoldsLine | vicmil_lib/N3_vicmil_opengl/L11_app.h:238-249 | each of the last buffer_size logged lines is the one stored in its slot |
| AppConsole.TextConsole.PutLine | vicmil_lib/N3_vicmil_opengl/L11_app.h:247-248 | storing one line appends it to the logged lines and counts it, keeping the last buffer_size lines in their slots |
| AppConsole.TextConsole.Log | vicmil_lib/N3_vicmil_opengl/L11_app.h:244-250 | log appends the pieces of the message split at newlines, in order, and counts each of them |
| AppConsole.TextConsole.Clear | vicmil_lib/N3_vicmil_opengl/L11_app.h:252-257 | clear empties every slot and resets the count, forgetting every line |
| AppConsole.TextConsole.DrawString | vicmil_lib/N3_vicmil_opengl/L11_app.h:266-284 | the text drawn is the last min(buffer_size, max_line_count) logged lines, oldest first, each truncated and followed by a newline |
| AppConsole.LoggedLinesReadBack | vicmil_lib/N3_vicmil_opengl/L11_app.h:234-284 | with three slots, after logging "a", newline, "b" and "c", newline, "d" the slots hold "c", "d", "b" and the count is 4 |
| AppConsole.LogFourLines | vicmil_lib/N3_vicmil_opengl/L11_app.h:244-250 | with three slots, logging "a", newline, "b" then "c", newline, "d" records four lines in order |
| ModelLoading.VertexFromLine | vicmil_lib/N3_vicmil_opengl/M3_opengl_app/L1_model_loading.h:10-15 | a vertex line parses exactly when it has four tokens, and the vertex holds tokens 1-3 as x, y, z |
| ModelLoading.TextureCoordinateFromLine | vicmil_lib/N3_vicmil_opengl/M3_opengl_app/L1_model_loading.h:20-25 | a texture-coordinate line parses exactly when it has three tokens, holding tokens 1-2 |
| ModelLoading.NormalFromLine | vicmil_lib/N3_vicmil_opengl/M3_opengl_app/L1_model_loading.h:30-35 | a normal line parses exactly when it has four tokens, holding tokens 1-3 |
| ModelLoading.SurfaceFromLine | vicmil_lib/N3_vicmil_opengl/M3_opengl_app/L1_model_loading.h:42-49 | a face line parses exactly when it has sixteen tokens |
| ModelLoading.SurfaceRoundTrip | vicmil_lib/N3_vicmil_opengl/M3_opengl_app/L1_model_loading.h:42-49 | a face written as "f v/t/n v/t/n v/t/n" tokens parses back to the same surface: vertex indices from tokens 1, 6, 11, texture indices from 3, 8, 13, normal indices from 5, 10, 15 |
| ModelLoading.SurfaceFromLineTokens | vicmil_lib/N3_vicmil_opengl/M3_opengl_app/L1_model_loading.h:42-49 | writing a parsed face back out reproduces every index token of the line it came from |
| ModelLoading.ColorFromLineAsWritten | vicmil_lib/N3_vicmil_opengl/M3_opengl_app/L1_model_loading.h:52-59 | as written, a "Kd" line with four tokens gives red from token 1 and both green and blue from token 3, because ColorF3's constructor copies the blue component into green |
| ModelLoading.GreenIsLostAsWritten | vicmil_lib/N3_vicmil_opengl/M1_opengl_general/L6_data_layout.h:19-23 | as written, "Kd 0 1 0" loads as the colour (0, 0, 0), not (0, 1, 0) |
| ModelLoading.ColorFromLine | vicmil_lib/N3_vicmil_opengl/M3_opengl_app/L1_model_loading.h:52-59 | corrected: a colour line parses exactly when it has four tokens, and writing the colour back out reproduces tokens 1-3 as r, g, b |
| ModelLoading.ColorRoundTrip | vicmil_lib/N3_vicmil_opengl/M3_opengl_app/L1_model_loading.h:52-59 | a colour written as a "Kd r g b" line parses back to the same colour |
| ModelLoading.NoHashLeft | vicmil_lib/N3_vicmil_opengl/M3_opengl_app/L1_model_loading.h:67-71 | a line cut at its first '#' contains no '#' |
| ModelLoading.RemoveHashtagComments | vicmil_lib/N3_vicmil_opengl/M3_opengl_app/L1_model_loading.h:67-71 | every line of the array is cut at its first '#', in place, and none contains '#' afterwards |
| ModelLoading.Tokenized | vicmil_lib/N3_vicmil_opengl/M3_opengl_app/L1_model_loading.h:73-75 | each line is split into tokens by the same tokenizer, one token list per line (also lines 145-148) |
| ModelLoading.UseMaterialOn | vicmil_lib/N3_vicmil_opengl/M3_opengl_app/L1_model_loading.h:86-91 | use_material makes the name active, adds an empty face list only when it had none, and keeps every existing list and every other field |
| ModelLoading.AddSurface | vicmil_lib/N3_vicmil_opengl/M3_opengl_app/L1_model_loading.h:124-127 | a face is appended to the active material's list (created if absent, as std::map's operator[] does), and nothing else changes |
| ModelLoading.ParseObjLineEffect | vicmil_lib/N3_vicmil_opengl/M3_opengl_app/L1_model_loading.h:93-138 | per leading token: "v", "vn", "vt" and "mtllib" append exactly one entry to their own list when the token count is right, "usemtl" sets the active material, "f" adds one face, "o", "g", "s", "l" change nothing, and any other token is an unknown-argument error |
| ModelLoading.ParseObjLinesAppend | vicmil_lib/N3_vicmil_opengl/M3_opengl_app/L1_model_loading.h:145-154 | loading two runs of lines is loading the first and then the second from its result; an error in the first stops the load |
| ModelLoading.ParseObjLinesVertexCounts | vicmil_lib/N3_vicmil_opengl/M3_opengl_app/L1_model_loading.h:100-110 | a loaded file has one vertex per "v" line and one normal per "vn" line, appended after the old ones (also lines 145-154) |
| ModelLoading.ParseObjLinesOtherCounts | vicmil_lib/N3_vicmil_opengl/M3_opengl_app/L1_model_loading.h:94-98 | a loaded file has one texture coordinate per "vt" line and one .mtl name per "mtllib" line (also lines 118-122, 145-154) |
| ModelLoading.FacesWithoutUseMaterial | vicmil_lib/N3_vicmil_opengl/M3_opengl_app/L1_model_loading.h:124-154 | without "usemtl" lines the active material stays the same and every face goes to its list |
| ModelLoading.FreshFileFacesAreUndefined | vicmil_lib/N3_vicmil_opengl/M3_opengl_app/L1_model_loading.h:84 | in a file without "usemtl", every face is filed under "Undefined" (also lines 124-127) |
| ModelLoading.ActiveIsLastUseMaterial | vicmil_lib/N3_vicmil_opengl/M3_opengl_app/L1_model_loading.h:84-91 | after loading, the active material is the one named by the last "usemtl" line, or the starting one (also lines 112-116) |
| ModelLoading.ObjFileContents.constructor | vicmil_lib/N3_vicmil_opengl/M3_opengl_app/L1_model_loading.h:77-84 | a new ObjFileContents holds nothing and its active material is "Undefined" |
| ModelLoading.ObjFileContents.UseMaterial | vicmil_lib/N3_vicmil_opengl/M3_opengl_app/L1_model_loading.h:86-91 | the object's state after use_material is UseMaterialOn of the old state |
| ModelLoading.ObjFileContents.ParseObjLine | vicmil_lib/N3_vicmil_opengl/M3_opengl_app/L1_model_loading.h:93-138 | parse_obj_line succeeds exactly when the line's specification does, then takes its state; on an error the state is unchanged |
| ModelLoading.ObjFileContents.FromFileContents | vicmil_lib/N3_vicmil_opengl/M3_opengl_app/L1_model_loading.h:139-156 | the lines are stripped of comments in place, and the contents are the result of loading the tokenized lines, skipping empty ones |
| ModelLoading.ObjFileContents.ParseFileLines | vicmil_lib/N3_vicmil_opengl/M3_opengl_app/L1_model_loading.h:144-154 | the loop over the lines loads them in order and stops at the first error |
| ModelLoading.NewMaterialOn | vicmil_lib/N3_vicmil_opengl/M3_opengl_app/L1_model_loading.h:168-174 | new_material succeeds exactly when the name is new, and then adds it with a default material and makes it active |
| ModelLoading.ParseMtlLineEffect | vicmil_lib/N3_vicmil_opengl/M3_opengl_app/L1_model_loading.h:176-196 | "newmtl" with two tokens defines a material, "Kd" with four tokens sets the active material's colour, the listed keywords change nothing, and any other token is an error |
| ModelLoading.ParseMtlLinesKeepsNames | vicmil_lib/N3_vicmil_opengl/M3_opengl_app/L1_model_loading.h:198-213 | loading lines never removes a material |
| ModelLoading.ParseMtlLinesDefines | vicmil_lib/N3_vicmil_opengl/M3_opengl_app/L1_model_loading.h:177-181 | every "newmtl name" line of a file that loads defines that material (also lines 198-213) |
| ModelLoading.MtlFileContents.constructor | vicmil_lib/N3_vicmil_opengl/M3_opengl_app/L1_model_loading.h:163-166 | a new MtlFileContents has no materials and the active material "Undefined" |
| ModelLoading.MtlFileContents.NewMaterial | vicmil_lib/N3_vicmil_opengl/M3_opengl_app/L1_model_loading.h:168-174 | the state afterwards is NewMaterialOn of the old one; a repeated name is an error that leaves the materials unchanged |
| ModelLoading.MtlFileContents.ParseMtlLine | vicmil_lib/N3_vicmil_opengl/M3_opengl_app/L1_model_loading.h:176-196 | parse_mtl_line succeeds exactly when the line's specification does, then takes its state |
| ModelLoading.MtlFileContents.FromFileContents | vicmil_lib/N3_vicmil_opengl/M3_opengl_app/L1_model_loading.h:198-213 | comments are stripped in place and the contents are the result of loading the tokenized lines |
| ModelLoading.MtlFileContents.ParseFileLines | vicmil_lib/N3_vicmil_opengl/M3_opengl_app/L1_model_loading.h:202-211 | the loop loads the lines in order and stops at the first error |
| ModelLoading.RootPath | vicmil_lib/N3_vicmil_opengl/M3_opengl_app/L1_model_loading.h:231 | the root path ends in '/' and what comes before it is a prefix of the file path |
| ModelLoading.RootPathCases | vicmil_lib/N3_vicmil_opengl/M3_opengl_app/L1_model_loading.h:231 | without '/' the root path is the whole path plus '/'; otherwise it is the path up to its last '/' |
| ModelLoading.ModelsInfo.GetMaterial | vicmil_lib/N3_vicmil_opengl/M3_opengl_app/L1_model_loading.h:246-254 | get_material finds the material exactly when some loaded .mtl file defines the name, and returns the definition of the first such file |
| ModelLoading.ModelsInfo.FromObjFile | vicmil_lib/N3_vicmil_opengl/M3_opengl_app/L1_model_loading.h:228-244 | from_obj_file loads the .obj file and then each .mtl file it names, from the .obj file's directory, in order; it succeeds exactly when the .obj file and every .mtl file it names load |
| ModelLoading.ModelsInfo.LoadMtlFiles | vicmil_lib/N3_vicmil_opengl/M3_opengl_app/L1_model_loading.h:238-242 | the loop loads one .mtl file per name, in order, leaving the .obj contents unchanged; it succeeds exactly when every named .mtl file loads |
| ModelLoading.ModelsInfo.Empty | vicmil_lib/N3_vicmil_opengl/M3_opengl_app/L1_model_loading.h:223-226 | an empty ModelsInfo has empty .obj contents and no .mtl files |
| ModelLoading.CommentsRemoved | vicmil_lib/N3_vicmil_opengl/M3_opengl_app/L1_model_loading.h:67-71 | every line is cut at its first '#' |
| ImagePacking.OneWideInitialGrid | vicmil_lib/N1_vicmil_std_lib/M1_std_lib_general/L9_shapes.h:251-319 | for one 8 × 1 rectangle the square packer starts from side 8 |
| ImagePacking.OneWideFit | vicmil_lib/N1_vicmil_std_lib/M1_std_lib_general/L9_shapes.h:251-319 | an 8 × 1 rectangle fits an 8 × 8 square, placed with its right edge on the square's edge |
| ImagePacking.OneWideImageFailsStrictCheck | vicmil_lib/N3_vicmil_opengl/M3_opengl_app/L3_image_packing.h:16-45 | as written, one 8 × 1 image is packed into an 8 × 8 square with max_x == 8 == the packed width, so the strict check `max_x < width` rejects a placement the packer produced |
| ImagePacking.PackedPlacementsPassChecks | vicmil_lib/N3_vicmil_opengl/M3_opengl_app/L3_image_packing.h:10-18 | corrected: every placement of the square packer passes the checks with the right and bottom edges allowed to touch the packed image's edges (also line 45) |
| ImagePacking.CopyStart | vicmil_lib/N3_vicmil_opengl/M3_opengl_app/L3_image_packing.h:19-26 | before the copy loops no pixel has been written |
| ImagePacking.CopyColumnEnd | vicmil_lib/N3_vicmil_opengl/M3_opengl_app/L3_image_packing.h:19-26 | finishing a column of the inner loop is starting the next column |
| ImagePacking.CopyAllDone | vicmil_lib/N3_vicmil_opengl/M3_opengl_app/L3_image_packing.h:19-26 | after every column, each pixel is the image's pixel inside the rectangle and the old pixel outside |
| ImagePacking.CopyWriteStep | vicmil_lib/N3_vicmil_opengl/M3_opengl_app/L3_image_packing.h:21-24 | writing pixel (x, y) of the image to (x + rect.x, y + rect.y) advances the loop invariant by one pixel |
| ImagePacking.ImagePacker.SetImagePixels | vicmil_lib/N3_vicmil_opengl/M3_opengl_app/L3_image_packing.h:10-27 | corrected: after `_set_image_pixels`, packed(x + rect.x, y + rect.y) == image(x, y) for every pixel of the image, every pixel outside the rectangle is unchanged, and the packed image keeps its size |
| ImagePacking.ImagePacker.DrawImages | vicmil_lib/N3_vicmil_opengl/M3_opengl_app/L3_image_packing.h:51-56 | after the drawing loop each image is in its rectangle and every pixel outside all rectangles is still blank |
| ImagePacking.ImagePacker.RecordPositions | vicmil_lib/N3_vicmil_opengl/M3_opengl_app/L3_image_packing.h:58-62 | image_pos maps each name to its rectangle and holds no other name |
| ImagePacking.ImagePacker.constructor | vicmil_lib/N3_vicmil_opengl/M3_opengl_app/L3_image_packing.h:28-63 | the packed image is square with a power-of-two side; image_pos has exactly one entry per image, with that image's width and height; each image's pixels are found at its rectangle and every other pixel is blank |
| ImagePacking.ImagePacker.PackImages | vicmil_lib/N3_vicmil_opengl/M3_opengl_app/L3_image_packing.h:30-49 | one rectangle (0, 0, w, h) per image is packed into a power-of-two square: every image fits its rectangle and no two rectangles overlap |
| ImagePacking.DrawKeepsEarlierImages | vicmil_lib/N3_vicmil_opengl/M3_opengl_app/L3_image_packing.h:52-56 | drawing the next image keeps the earlier ones, because the rectangles do not overlap |
| ImagePacking.CopyKeepsUncovered | vicmil_lib/N3_vicmil_opengl/M3_opengl_app/L3_image_packing.h:19-26 | a pixel outside the copied rectangle keeps its value |
| ImagePacking.LetterImagePixels | vicmil_lib/N3_vicmil_opengl/M3_opengl_app/L3_image_packing.h:94-117 | the letter image is 5 × 9 and pixel (x, y) is transparent black exactly when glyph[x + 5y] is '.', opaque white otherwise |
| ImagePacking.GetLetterImage | vicmil_lib/N3_vicmil_opengl/M3_opengl_app/L3_image_packing.h:94-117 | `_get_letter_image`'s loops build exactly that letter image |
| ImagePacking.CharKeyInjective | vicmil_lib/N3_vicmil_opengl/M3_opengl_app/L3_image_packing.h:127 | different characters are filed under different keys |
| ImagePacking.GetAsciiImages | vicmil_lib/N3_vicmil_opengl/M3_opengl_app/L3_image_packing.h:123-131 | one letter image per glyph-table entry, under the decimal code of its character, and no other key |
| Strings.DecimalString | vicmil_lib/N3_vicmil_opengl/M3_opengl_app/L3_image_packing.h:127 | std::to_string of a non-negative number is a nonempty string of decimal digits with no leading zero |
| Strings.DecimalRoundTrip | vicmil_lib/N3_vicmil_opengl/M3_opengl_app/L3_image_packing.h:127 | reading the decimal string back gives the number |
| Strings.DecimalStringInjective | vicmil_lib/N3_vicmil_opengl/M3_opengl_app/L3_image_packing.h:127 | different numbers have different decimal strings |
| Strings.DecimalStringExample | vicmil_lib/N3_vicmil_opengl/M3_opengl_app/L3_image_packing.h:127 | the key for 'a' is "97" |
| GpuTexture.BlankImage | vicmil_lib/N3_vicmil_opengl/M1_opengl_general/L4_gpu_texture.h:27 | a resized pixel buffer of width × height holds default (all-zero) pixels (also line 109) |
| GpuTexture.NewRawImage | vicmil_lib/N3_vicmil_opengl/M1_opengl_general/L4_gpu_texture.h:28-37 | the constructor succeeds exactly when width × height == the pixel count and both sides are powers of two, and then keeps the pixels and sizes |
| GpuTexture.SetPixel | vicmil_lib/N3_vicmil_opengl/M1_opengl_general/L4_gpu_texture.h:38-40 | set_pixel writes the row-major index x + y·width: a get after the set returns the written pixel and no other pixel changes |
| GpuTexture.IndexDecode | vicmil_lib/N3_vicmil_opengl/M1_opengl_general/L4_gpu_texture.h:38-43 | for x < width the row-major index decodes back to (x, y) |
| GpuTexture.IndexInImage | vicmil_lib/N3_vicmil_opengl/M1_opengl_general/L4_gpu_texture.h:38-43 | the index of a pixel inside the image is inside the buffer |
| GpuTexture.IndexSplit | vicmil_lib/N3_vicmil_opengl/M1_opengl_general/L4_gpu_texture.h:38-43 | every buffer index is the row-major index of (k mod width, k div width) |
| GpuTexture.MaxHeight | vicmil_lib/N3_vicmil_opengl/M1_opengl_general/L4_gpu_texture.h:101-105 | the maximum height bounds every image's height |
| GpuTexture.OffsetStep | vicmil_lib/N3_vicmil_opengl/M1_opengl_general/L4_gpu_texture.h:111-125 | x_index grows by each image's width in turn |
| GpuTexture.OffsetMonotone | vicmil_lib/N3_vicmil_opengl/M1_opengl_general/L4_gpu_texture.h:111-125 | x_index never decreases |
| GpuTexture.OwnerFrom | vicmil_lib/N3_vicmil_opengl/M1_opengl_general/L4_gpu_texture.h:111-127 | the image a collage column belongs to is the one whose offset range contains the column |
| GpuTexture.OwnerIs | vicmil_lib/N3_vicmil_opengl/M1_opengl_general/L4_gpu_texture.h:111-127 | a column inside image i's offset range belongs to image i |
| GpuTexture.CollagePlacesImage | vicmil_lib/N3_vicmil_opengl/M1_opengl_general/L4_gpu_texture.h:119-124 | in the collage, pixel (offset of i + x, y) is pixel (x, y) of image i |
| GpuTexture.CollageWriteStep | vicmil_lib/N3_vicmil_opengl/M1_opengl_general/L4_gpu_texture.h:121-122 | writing one pixel of image i advances the loop invariant |
| GpuTexture.CollageStepOther | vicmil_lib/N3_vicmil_opengl/M1_opengl_general/L4_gpu_texture.h:119-124 | a pixel the current write does not touch keeps its value |
| GpuTexture.CollageStepHere | vicmil_lib/N3_vicmil_opengl/M1_opengl_general/L4_gpu_texture.h:121-122 | the pixel just written holds image i's pixel |
| GpuTexture.CollageColumnEnd | vicmil_lib/N3_vicmil_opengl/M1_opengl_general/L4_gpu_texture.h:119-124 | finishing a column is starting the next one |
| GpuTexture.CollageImageEnd | vicmil_lib/N3_vicmil_opengl/M1_opengl_general/L4_gpu_texture.h:113-127 | finishing an image's columns is starting the next image |
| GpuTexture.CollageAllDone | vicmil_lib/N3_vicmil_opengl/M1_opengl_general/L4_gpu_texture.h:113-127 | after the last image every pixel is the collage pixel |
| GpuTexture.CopyIntoCollage | vicmil_lib/N3_vicmil_opengl/M1_opengl_general/L4_gpu_texture.h:119-124 | the copy loops for image i move the invariant from image i to image i + 1 |
| GpuTexture.CollageStart | vicmil_lib/N3_vicmil_opengl/M1_opengl_general/L4_gpu_texture.h:109-111 | the blank canvas is the state before any image has been copied |
| GpuTexture.CollageGenerator.constructor | vicmil_lib/N3_vicmil_opengl/M1_opengl_general/L4_gpu_texture.h:85-86 | a new generator holds no images |
| GpuTexture.CollageGenerator.AddImage | vicmil_lib/N3_vicmil_opengl/M1_opengl_general/L4_gpu_texture.h:92-95 | add_image appends the image and returns the previous image count as its index |
| GpuTexture.CollageGenerator.GenerateCollage | vicmil_lib/N3_vicmil_opengl/M1_opengl_general/L4_gpu_texture.h:98-129 | the collage is upper_power_of_two(sum of widths) × upper_power_of_two(max height), image i sits at x offset the sum of earlier widths and y 0, other pixels are blank, and one rectangle per image is recorded in insertion order |
| GpuTexture.CollageGenerator.MeasureImages | vicmil_lib/N3_vicmil_opengl/M1_opengl_general/L4_gpu_texture.h:100-105 | the first loop computes the sum of the widths and the maximum height |
| GpuTexture.CollageGenerator.PlaceImages | vicmil_lib/N3_vicmil_opengl/M1_opengl_general/L4_gpu_texture.h:111-127 | the copy loop places each image at its offset and records its rectangle |
| ImagePacking.SizesByName | vicmil_lib/N3_vicmil_opengl/M3_opengl_app/L3_image_packing.h:28-62 | every image name gets a recorded rectangle of exactly its image's width and height, inside the packed image |
| ImagePacking.PixelsByName | vicmil_lib/N3_vicmil_opengl/M3_opengl_app/L3_image_packing.h:19-27 | looked up by name, every image's pixels sit unchanged at its recorded rectangle of the packed image (also lines 51-62) |
| ImagePacking.BlankByName | vicmil_lib/N3_vicmil_opengl/M3_opengl_app/L3_image_packing.h:49-62 | a pixel of the packed image that no recorded rectangle covers keeps its initial blank value |
| WindowTree.ChildIdsMembers | vicmil_lib/N1_vicmil_std_lib/L9_other.h:213 | an id is among the ids below children i.. exactly when one of those children's subtrees holds it |
| WindowTree.ModifyFirstFound | vicmil_lib/N1_vicmil_std_lib/L9_other.h:252-267 | the first-match recursion (this window, then each subwindow in order until one succeeds) succeeds exactly when some window of the tree matches, and changes nothing otherwise (also lines 284-296) |
| WindowTree.ModifyChildFound | vicmil_lib/N1_vicmil_std_lib/L9_other.h:260-265 | the loop over subwindows succeeds exactly when some later subtree has a match, and changes nothing otherwise |
| WindowTree.AnyNodeIdIs | vicmil_lib/N1_vicmil_std_lib/L9_other.h:235-253 | some window of the tree has id x exactly when x is one of the tree's ids |
| WindowTree.ModifyFirstIds | vicmil_lib/N1_vicmil_std_lib/L9_other.h:252-267 | an edit at the first match that adds the ids S adds exactly S to the tree's ids when it succeeds |
| WindowTree.ModifyFirstUnique | vicmil_lib/N1_vicmil_std_lib/L9_other.h:252-267 | an edit at the first match that keeps ids unique locally keeps them unique in the whole tree |
| WindowTree.SubwindowIds | vicmil_lib/N1_vicmil_std_lib/L9_other.h:213 | a subwindow's ids are among the tree's ids |
| WindowTree.ShareAdd | vicmil_lib/N1_vicmil_std_lib/L9_other.h:364-371 | the shares of two weights add up to the share of their sum |
| WindowTree.WeightSumStep | vicmil_lib/N1_vicmil_std_lib/L9_other.h:350-353 | tot_weight grows by each subwindow's weight in order |
| WindowTree.WeightSumSameWeights | vicmil_lib/N1_vicmil_std_lib/L9_other.h:350-353 | subwindow lists with the same weights have the same total weight |
| WindowTree.PlaceFromSlots | vicmil_lib/N1_vicmil_std_lib/L9_other.h:355-375 | the running edge of _update_subwindow_positions puts child i in the slot starting after the share of the weights before it |
| WindowTree.PlaceShape | vicmil_lib/N1_vicmil_std_lib/L9_other.h:219-222 | set_window_position gives the window the new rectangle, keeps id, weight and direction, and places each child in its slot, recursively (also lines 349-376) |
| WindowTree.PlaceLaysOut | vicmil_lib/N1_vicmil_std_lib/L9_other.h:219-222 | after set_window_position every window of the tree is tiled by its subwindows (also lines 349-376) |
| WindowTree.TiledAcross | vicmil_lib/N1_vicmil_std_lib/L9_other.h:363-374 | each child spans the parent fully across the split direction |
| WindowTree.TiledAlong | vicmil_lib/N1_vicmil_std_lib/L9_other.h:355-375 | the first child starts at the parent's edge and each next child starts where the previous one ends |
| WindowTree.TiledEnds | vicmil_lib/N1_vicmil_std_lib/L9_other.h:355-375 | with a nonzero total weight the last child ends at the parent's far edge |
| WindowTree.ModifyFirstLaidOut | vicmil_lib/N1_vicmil_std_lib/L9_other.h:252-296 | an edit at the first match that keeps a window laid out, its position and weight keeps the whole tree laid out |
| WindowTree.AppendChildShape | vicmil_lib/N1_vicmil_std_lib/L9_other.h:254-257 | add_subwindow appends one child with the given weight and direction and lays the children out again, leaving the window's own fields unchanged |
| WindowTree.AppendChildIds | vicmil_lib/N1_vicmil_std_lib/L9_other.h:254-257 | appending adds exactly the new id and leaves the window laid out |
| WindowTree.PlaceIds | vicmil_lib/N1_vicmil_std_lib/L9_other.h:349-376 | laying out never changes the tree's ids |
| WindowTree.FindIds | vicmil_lib/N1_vicmil_std_lib/L9_other.h:234-245 | the depth-first search finds a window exactly when the id is in the tree, and the window it finds has that id |
| WindowTree.AnyNodeIsFound | vicmil_lib/N1_vicmil_std_lib/L9_other.h:234-245 | with unique ids, the first match for id x is the window the search finds |
| WindowTree.ModifyFirstFind | vicmil_lib/N1_vicmil_std_lib/L9_other.h:252-296 | with unique ids, after an edit at window x the search finds the edited window |
| WindowTree.PlaceUnique | vicmil_lib/N1_vicmil_std_lib/L9_other.h:349-376 | laying out keeps ids unique |
| WindowTree.AppendChildUnique | vicmil_lib/N1_vicmil_std_lib/L9_other.h:254-258 | appending a child with a fresh id keeps ids unique |
| WindowTree.ModifyFirstDrops | vicmil_lib/N1_vicmil_std_lib/L9_other.h:309-326 | an edit that removes id x at the first match removes it from the tree |
| WindowTree.AddSubwindowFound | vicmil_lib/N1_vicmil_std_lib/L9_other.h:252-267 | add_subwindow returns the new id exactly when the target is -1 or an id of the tree, and -1 otherwise |
| WindowTree.AddSubwindowIds | vicmil_lib/N1_vicmil_std_lib/L9_other.h:252-267 | a successful add_subwindow adds exactly the new id and keeps ids unique |
| WindowTree.AddSubwindowLaidOut | vicmil_lib/N1_vicmil_std_lib/L9_other.h:252-267 | add_subwindow keeps the tree laid out and the root's position |
| WindowTree.AddSubwindowFind | vicmil_lib/N1_vicmil_std_lib/L9_other.h:252-267 | after add_subwindow on window x, window x has the new child appended, laid out again |
| WindowTree.ModifyFirstKeeps | vicmil_lib/N1_vicmil_std_lib/L9_other.h:269-296 | an edit that keeps ids (and the layout) keeps them for the whole tree |
| WindowTree.FirstChildWeightShape | vicmil_lib/N1_vicmil_std_lib/L9_other.h:270-275 | set_weight on a window with subwindows sets the weight of its first subwindow (the loop returns at i = 0) and lays the children out again |
| WindowTree.FirstChildWeightKeeps | vicmil_lib/N1_vicmil_std_lib/L9_other.h:270-275 | setting the first child's weight keeps ids, uniqueness, the layout, and the window's own fields |
| WindowTree.SetWeightFound | vicmil_lib/N1_vicmil_std_lib/L9_other.h:269-283 | set_weight returns 0 exactly when the window exists and has subwindows; otherwise -1 and nothing changes |
| WindowTree.SetWeightKeeps | vicmil_lib/N1_vicmil_std_lib/L9_other.h:269-283 | set_weight keeps the ids, their uniqueness and the layout |
| WindowTree.SetWeightFind | vicmil_lib/N1_vicmil_std_lib/L9_other.h:269-283 | after a successful set_weight, window x's first child has the new weight and every other field of window x is kept |
| WindowTree.SetWeightOnLeafFails | vicmil_lib/N1_vicmil_std_lib/L9_other.h:270-276 | set_weight on a window without subwindows fails with -1 even though the window exists |
| WindowTree.RedirectKeeps | vicmil_lib/N1_vicmil_std_lib/L9_other.h:285-288 | set_split_window_horizontal changes the direction, relays the children and keeps ids and the window's position and weight |
| WindowTree.SetSplitEffect | vicmil_lib/N1_vicmil_std_lib/L9_other.h:284-296 | set_split_window_horizontal returns 0 exactly when the target is -1 or in the tree, and keeps the ids |
| WindowTree.SetSplitFind | vicmil_lib/N1_vicmil_std_lib/L9_other.h:284-296 | after it, window x has the new direction |
| WindowTree.DeleteAllSubwindowsFound | vicmil_lib/N1_vicmil_std_lib/L9_other.h:297-308 | delete_all_subwindows returns 0 exactly when the window exists, and changes nothing otherwise |
| WindowTree.DeleteAllSubwindowsKeeps | vicmil_lib/N1_vicmil_std_lib/L9_other.h:297-308 | it keeps ids unique, removes ids only, and keeps the layout |
| WindowTree.DeleteAllSubwindowsFind | vicmil_lib/N1_vicmil_std_lib/L9_other.h:297-308 | afterwards window x has no subwindows and its other fields are kept |
| WindowTree.ChildIndexFirst | vicmil_lib/N1_vicmil_std_lib/L9_other.h:310-316 | the scan stops at the first subwindow with the id, or at the end |
| WindowTree.AnyNodeHasChild | vicmil_lib/N1_vicmil_std_lib/L9_other.h:309-326 | some window has x as a direct subwindow exactly when x is below the root |
| WindowTree.DeleteSubwindowFound | vicmil_lib/N1_vicmil_std_lib/L9_other.h:309-326 | delete_subwindow returns 0 exactly when x is a subwindow somewhere below the root, and changes nothing otherwise; the root itself cannot be deleted |
| WindowTree.RemoveAtIds | vicmil_lib/N1_vicmil_std_lib/L9_other.h:313 | removing child k removes its subtree's ids and adds none |
| WindowTree.RemoveChildKeeps | vicmil_lib/N1_vicmil_std_lib/L9_other.h:310-316 | removing the subwindow with id x removes x and keeps ids unique |
| WindowTree.DeleteSubwindowKeeps | vicmil_lib/N1_vicmil_std_lib/L9_other.h:309-326 | delete_subwindow keeps ids unique and, when it succeeds, x is gone |
| WindowTree.WindowExistsIds | vicmil_lib/N1_vicmil_std_lib/L9_other.h:327-344 | window_exists holds exactly for the ids of the tree |
| WindowTree.PositionOfEffect | vicmil_lib/N1_vicmil_std_lib/L9_other.h:234-245 | get_window_position succeeds exactly when window_exists holds, and then reports the position of the window with that id; on failure the output is unchanged |
| WindowTree.TestFirstAdd | vicmil_lib/N1_vicmil_std_lib/L9_other.h:382-384 | the first add_subwindow under the root gives the child the whole 1000 × 800 rectangle |
| WindowTree.TestSecondAdd | vicmil_lib/N1_vicmil_std_lib/L9_other.h:385 | adding a second child with weight 3 splits the height 1 : 3, giving 200 and 600 |
| WindowTree.TestLayoutValues | vicmil_lib/N1_vicmil_std_lib/L9_other.h:379-399 | the test's values: the control window is (0, 0, 1000, 200) and the game view (0, 200, 1000, 600) |
| WindowTree.TestChain | vicmil_lib/N1_vicmil_std_lib/L9_other.h:379-399 | the test's steps chain into those values, whatever the root's id |
| WindowTree.AddSubwindowIssued | vicmil_lib/N1_vicmil_std_lib/L9_other.h:94-110 | with the instance counter at n, add_subwindow hands out id n + 1 exactly when it succeeds, and all ids stay issued and unique (also lines 252-267) |
| WindowTree.AddCounted | vicmil_lib/N1_vicmil_std_lib/L9_other.h:94-110 | the counter is bumped exactly when a new window is created (also line 254) |
| WindowTree.InstanceCounter.constructor | vicmil_lib/N1_vicmil_std_lib/L9_other.h:95-101 | the static count starts at the given value |
| WindowTree.InstanceCounter.NextId | vicmil_lib/N1_vicmil_std_lib/L9_other.h:95-102 | _get_instance_count(true) increments the count and returns it as the new id |
| WindowTree.WindowLayout.constructor | vicmil_lib/N1_vicmil_std_lib/L9_other.h:210-218 | a new WindowLayout has weight 1, a vertical split, no subwindows and the next id |
| WindowTree.WindowLayout.SetWindowPosition | vicmil_lib/N1_vicmil_std_lib/L9_other.h:223-229 | the whole tree is laid out from (min_x, min_y, max_x - min_x, max_y - min_y) and keeps its ids |
| WindowTree.WindowLayout.GetWindowPosition | vicmil_lib/N1_vicmil_std_lib/L9_other.h:234-245 | returns 0 and the window's position exactly when the id is in the tree |
| WindowTree.WindowLayout.AddSubwindow | vicmil_lib/N1_vicmil_std_lib/L9_other.h:252-267 | the tree and returned id are those of add_subwindow with the counter's next id |
| WindowTree.WindowLayout.SetWeight | vicmil_lib/N1_vicmil_std_lib/L9_other.h:269-283 | the tree and code are those of set_weight, ids kept |
| WindowTree.WindowLayout.SetSplitWindowHorizontal | vicmil_lib/N1_vicmil_std_lib/L9_other.h:284-296 | the tree and code are those of set_split_window_horizontal, ids kept |
| WindowTree.WindowLayout.DeleteAllSubwindows | vicmil_lib/N1_vicmil_std_lib/L9_other.h:297-308 | the tree and code are those of delete_all_subwindows |
| WindowTree.WindowLayout.DeleteSubwindow | vicmil_lib/N1_vicmil_std_lib/L9_other.h:309-326 | the tree and code are those of delete_subwindow; on success x is gone |
| WindowTree.WindowLayout.WindowExists | vicmil_lib/N1_vicmil_std_lib/L9_other.h:327-344 | window_exists is true exactly for the ids of the tree |
| WindowTree.TestWindowLayout | vicmil_lib/N1_vicmil_std_lib/L9_other.h:379-399 | TEST_WindowLayout: the control window is (0, 0, 1000, 200) and the game view (0, 200, 1000, 600) |
| WindowTree.PlaceLeaf | vicmil_lib/N1_vicmil_std_lib/L9_other.h:349-376 | a window without subwindows is laid out by taking the given position and nothing else |
| WindowTree.PlaceTwoLeaves | vicmil_lib/N1_vicmil_std_lib/L9_other.h:355-375 | a window with two leaf subwindows puts them side by side (or stacked) in slots proportional to their weights |
| WindowTree.ReplaceChildLaidOut | vicmil_lib/N1_vicmil_std_lib/L9_other.h:349-376 | re-laying out one subwindow in its old place with its old weight keeps the whole tree laid out |
| WindowTree.AppendUnique | vicmil_lib/N1_vicmil_std_lib/L9_other.h:254-257 | appending a subwindow whose ids are unique and new keeps every id in the tree unique |
| WindowTree.RemoveAtUnique | vicmil_lib/N1_vicmil_std_lib/L9_other.h:310-316 | erasing a subwindow keeps the ids of the tree unique |
| LayoutSizes.Trunc | vicmil_lib/N1_vicmil_std_lib/L9_user_interface.h:245 | the conversion of the double share to int truncates toward zero: within one of the real value, on the side of zero |
| LayoutSizes.ShareBound | vicmil_lib/N1_vicmil_std_lib/L9_user_interface.h:245 | a child's share of a non-negative size by a non-negative weight is non-negative and at most its exact proportional part (also lines 268, 286) |
| LayoutSizes.SharesWithin | vicmil_lib/N1_vicmil_std_lib/L9_user_interface.h:240-252 | every share computed in one pass is within its exact proportional part |
| LayoutSizes.PassProgress | vicmil_lib/N1_vicmil_std_lib/L9_user_interface.h:236-255 | a pass over the children never unfixes a child, and a pass that does not stop fixes at least one more child, so both loops end (also lines 259-278) |
| LayoutSizes.BrokenBoundIsSize | vicmil_lib/N1_vicmil_std_lib/L9_user_interface.h:246-270 | a child that breaks the maximum bound has a real maximum, never the -1 meaning unbounded |
| LayoutSizes.FixLowersOpen | vicmil_lib/N1_vicmil_std_lib/L9_user_interface.h:248-271 | fixing an open child lowers the number of open children by one |
| LayoutSizes.MinMaxPhase | vicmil_lib/N1_vicmil_std_lib/L9_user_interface.h:234-278 | each of the two while loops computes the fixed point of its passes: every child whose share breaks its bound gets the bound, until a pass fixes none or the size or weight runs out |
| LayoutSizes.GetElementSizes | vicmil_lib/N1_vicmil_std_lib/L9_user_interface.h:221-289 | _get_element_sizes runs the minimum loop, then the maximum loop, then gives each open child its share of what is left |
| LayoutSizes.PassFromBounds | vicmil_lib/N1_vicmil_std_lib/L9_user_interface.h:240-252 | a pass only fixes children at their minimum or their maximum (also lines 263-275) |
| LayoutSizes.PhaseFromBounds | vicmil_lib/N1_vicmil_std_lib/L9_user_interface.h:234-278 | after either loop every fixed child sits at its minimum or its maximum |
| LayoutSizes.ElementSizesClassified | vicmil_lib/N1_vicmil_std_lib/L9_user_interface.h:221-289 | every returned size is the child's minimum, its maximum, or its weighted share of the size left after both loops |
| LayoutSizes.FixUpdates | vicmil_lib/N1_vicmil_std_lib/L9_user_interface.h:248-273 | fixing a child moves its bound from the open sums to the fixed sum and its weight out of the open weight |
| LayoutSizes.OpenWeightNonNegative | vicmil_lib/N1_vicmil_std_lib/L9_user_interface.h:233 | with non-negative weights the weight of the open children is non-negative |
| LayoutSizes.PassConserves | vicmil_lib/N1_vicmil_std_lib/L9_user_interface.h:238-254 | a pass keeps size_left equal to the total size minus the fixed sizes, and weight_left equal to the weight of the open children |
| LayoutSizes.PassKeepsRoom | vicmil_lib/N1_vicmil_std_lib/L9_user_interface.h:259-278 | during the maximum loop the size left stays at least the open children's share of it |
| LayoutSizes.RoomStep | vicmil_lib/N1_vicmil_std_lib/L9_user_interface.h:269-273 | fixing a child whose share exceeds its maximum keeps room for the others |
| LayoutSizes.RoomLeft | vicmil_lib/N1_vicmil_std_lib/L9_user_interface.h:259-278 | room for the open children means the size left is non-negative |
| LayoutSizes.MinPhaseFacts | vicmil_lib/N1_vicmil_std_lib/L9_user_interface.h:234-255 | the minimum loop conserves size and weight, and the size left still covers the open children's minimums |
| LayoutSizes.MaxPhaseFacts | vicmil_lib/N1_vicmil_std_lib/L9_user_interface.h:257-278 | the maximum loop conserves size and weight and never drives the size left negative |
| LayoutSizes.FixedPlusOpen | vicmil_lib/N1_vicmil_std_lib/L9_user_interface.h:226 | the fixed sizes plus the open children's bounds add up to the sum of all bounds (also lines 234-278) |
| LayoutSizes.OpenSumNonNegative | vicmil_lib/N1_vicmil_std_lib/L9_user_interface.h:226 | non-negative bounds give a non-negative open sum |
| LayoutSizes.SumAssigned | vicmil_lib/N1_vicmil_std_lib/L9_user_interface.h:281-287 | the result sums to the fixed sizes plus the shares given to the open children |
| LayoutSizes.OpenSharesBound | vicmil_lib/N1_vicmil_std_lib/L9_user_interface.h:281-287 | the shares given to the open children are within their exact proportional part of the size left |
| LayoutSizes.BoundsAdd | vicmil_lib/N1_vicmil_std_lib/L9_user_interface.h:281-287 | within-part bounds add up |
| LayoutSizes.OpenSharesZeroWeight | vicmil_lib/N1_vicmil_std_lib/L9_user_interface.h:236 | with no open weight the final loop hands out nothing to open children (also lines 259, 286) |
| LayoutSizes.AfterPhasesFacts | vicmil_lib/N1_vicmil_std_lib/L9_user_interface.h:221-278 | given Assert(total_size >= sum of minimums), after both loops size and weight are conserved, the size left is non-negative and every fixed child is at a bound |
| LayoutSizes.AssignedFits | vicmil_lib/N1_vicmil_std_lib/L9_user_interface.h:280-288 | the final assignment never exceeds the total size and gives open children non-negative sizes |
| LayoutSizes.CancelWeight | vicmil_lib/N1_vicmil_std_lib/L9_user_interface.h:286 | a positive weight factor cancels from both sides of a bound |
| LayoutSizes.ElementSizesFit | vicmil_lib/N1_vicmil_std_lib/L9_user_interface.h:221-289 | the returned sizes are non-negative and add up to at most total_size |
| LayoutSizes.OpenStart | vicmil_lib/N1_vicmil_std_lib/L9_user_interface.h:229-233 | at the start every child is open (-1), nothing is fixed and the open weight is vec_sum(weight) |
| LayoutSizes.InsertByPriority | vicmil_lib/N1_vicmil_std_lib/M1_std_lib_general/L7_vector.h:103-111 | inserting a pair into the hiding order adds exactly that pair |
| LayoutSizes.SortByPriority | vicmil_lib/N1_vicmil_std_lib/M1_std_lib_general/L7_vector.h:103-111 | the sort is a permutation of its input |
| LayoutSizes.InsertOrdered | vicmil_lib/N1_vicmil_std_lib/M1_std_lib_general/L7_vector.h:103-111 | inserting a new pair into a strictly ordered list keeps it strictly ordered |
| LayoutSizes.BeforeTransitive | vicmil_lib/N1_vicmil_std_lib/M1_std_lib_general/L7_vector.h:103-111 | the hiding order is transitive |
| LayoutSizes.SortOrdered | vicmil_lib/N1_vicmil_std_lib/M1_std_lib_general/L7_vector.h:103-111 | sorting distinct pairs gives a strictly ordered list |
| LayoutSizes.PriorityOrderPairs | vicmil_lib/N1_vicmil_std_lib/M1_std_lib_general/L7_vector.h:81-111 | each pair of the sorted list is (priorities[k], k) for a valid index k |
| LayoutSizes.PriorityOrderCovers | vicmil_lib/N1_vicmil_std_lib/M1_std_lib_general/L7_vector.h:81-111 | every index of the priorities appears in the sorted list |
| LayoutSizes.PriorityOrderFacts | vicmil_lib/N1_vicmil_std_lib/M1_std_lib_general/L7_vector.h:103-111 | the sorted list is strictly ordered, holds valid (priority, index) pairs and covers every index |
| LayoutSizes.PriorityOrderIsDescending | vicmil_lib/N1_vicmil_std_lib/M1_std_lib_general/L7_vector.h:103-111 | vec_sort_descend_and_get_indecies: the list is a permutation of vec_to_pair_with_indecies and its priorities do not increase |
| LayoutSizes.HideOn | vicmil_lib/N1_vicmil_std_lib/L9_user_interface.h:297-329 | the hiding keeps both vectors' lengths |
| LayoutSizes.HideFrom | vicmil_lib/N1_vicmil_std_lib/L9_user_interface.h:319-328 | the loop from position i never ends with more kept than i |
| LayoutSizes.HideElementsIfAllDoesntFit | vicmil_lib/N1_vicmil_std_lib/L9_user_interface.h:297-329 | _hide_elements_if_all_doesnt_fit updates size_min and size_max to the values of the hiding rule |
| LayoutSizes.HideWalk | vicmil_lib/N1_vicmil_std_lib/L9_user_interface.h:316-328 | the while loop from the back of the sorted list computes the hiding rule |
| LayoutSizes.SumUpdate | vicmil_lib/N1_vicmil_std_lib/L9_user_interface.h:324-325 | zeroing one entry lowers the sum by that entry |
| LayoutSizes.ZeroSum | vicmil_lib/N1_vicmil_std_lib/L9_user_interface.h:319-328 | all-zero minimums sum to 0 |
| LayoutSizes.AllHiddenSumZero | vicmil_lib/N1_vicmil_std_lib/L9_user_interface.h:319-328 | when every child is hidden the minimum sum is 0, so the loop's Assert(i >= 0) never fails when total_size >= 0 |
| LayoutSizes.HideFromFacts | vicmil_lib/N1_vicmil_std_lib/L9_user_interface.h:319-328 | the loop keeps min_size_sum equal to the sum of size_min, hides exactly the children after the kept position and stops once the sum fits |
| LayoutSizes.HiddenAfterStep | vicmil_lib/N1_vicmil_std_lib/L9_user_interface.h:323-327 | one loop step hides exactly one more child, from the back |
| LayoutSizes.PriorityOrderDistinct | vicmil_lib/N1_vicmil_std_lib/M1_std_lib_general/L7_vector.h:81-111 | the sorted list names each index once |
| LayoutSizes.HideFacts | vicmil_lib/N1_vicmil_std_lib/L9_user_interface.h:297-329 | when the minimums fit nothing changes; otherwise the minimums afterwards fit, and exactly the children after the kept position in the sorted order are hidden, the others unchanged |
| LayoutSizes.HideOnHides | vicmil_lib/N1_vicmil_std_lib/L9_user_interface.h:302-328 | when the minimums do not fit, the result is the loop's from the back of the sorted list |
| LayoutSizes.HidePriorityRule | vicmil_lib/N1_vicmil_std_lib/L9_user_interface.h:291-296 | every hidden child has lower priority than every kept child (ties broken by index) (also lines 316-328) |
| LayoutSizes.HideFromKeptOrZeroed | vicmil_lib/N1_vicmil_std_lib/L9_user_interface.h:324-326 | each child either keeps both sizes or has both set to 0 |
| LayoutSizes.HideKeptOrZeroed | vicmil_lib/N1_vicmil_std_lib/L9_user_interface.h:291-329 | hiding means setting both the minimum and the maximum to 0, and the other children keep theirs |
| WindowLayoutMap.Touch | vicmil_lib/N1_vicmil_std_lib/L9_user_interface.h:124 | reading an element through std::map's operator[] inserts a default element when the key is missing and leaves every other entry as it was |
| WindowLayoutMap.DistinctAt | vicmil_lib/N1_vicmil_std_lib/L9_user_interface.h:116 | a children list without repeats has different indices at different positions |
| WindowLayoutMap.WfSameShape | vicmil_lib/N1_vicmil_std_lib/L9_user_interface.h:124-125 | changing only positions and size settings keeps the layout well-formed |
| WindowLayoutMap.ChildMins | vicmil_lib/N1_vicmil_std_lib/L9_user_interface.h:336-350 | get_min_size_of_all_children gives one minimum per child, along the split direction |
| WindowLayoutMap.ChildMaxs | vicmil_lib/N1_vicmil_std_lib/L9_user_interface.h:357-381 | get_max_size_of_all_children gives one maximum per child, the parent's extent standing for -1 |
| WindowLayoutMap.ChildPriorities | vicmil_lib/N1_vicmil_std_lib/L9_user_interface.h:452-457 | one priority per child |
| WindowLayoutMap.Ones | vicmil_lib/N1_vicmil_std_lib/L9_user_interface.h:113 | every child weighs 1 (also lines 452-457) |
| WindowLayoutMap.ChildSizes | vicmil_lib/N1_vicmil_std_lib/L9_user_interface.h:449-484 | _update hides what does not fit and shares the extent, one size per child |
| WindowLayoutMap.SplitSizes | vicmil_lib/N1_vicmil_std_lib/L9_user_interface.h:463-470 | one size per child for every element |
| WindowLayoutMap.WindowLayout.constructor | vicmil_lib/N1_vicmil_std_lib/L9_user_interface.h:583-589 | WindowLayout(): element 0 is a default element and the counter is 1 |
| WindowLayoutMap.WindowLayout.UpdateAt | vicmil_lib/N1_vicmil_std_lib/L9_user_interface.h:434-499 | _update lays out element k's children one after another from its start, updating each in turn, and changes nothing when k is missing; ok is false exactly when Assert(total_size >= 0) at line 470 fails for k or an element its update reaches (UpdateOk) |
| WindowLayoutMap.WindowLayout.PlaceChildrenFrom | vicmil_lib/N1_vicmil_std_lib/L9_user_interface.h:493-496 | the for-loop of _update places and updates the children in order, each starting where the previous one ends; ok is false exactly when an update it reaches fails the assertion on the extent |
| WindowLayoutMap.WindowLayout.SetChildPosition | vicmil_lib/N1_vicmil_std_lib/L9_user_interface.h:404-431 | _set_child_position writes the child's rectangle, then updates the child; ok reports whether that update's assertion holds |
| WindowLayoutMap.WindowLayout.ChildSizesOf | vicmil_lib/N1_vicmil_std_lib/L9_user_interface.h:449-484 | the sizes _update hands its children are those of the hiding and sharing rules |
| WindowLayoutMap.WindowLayout.GetMinSizeOfAllChildren | vicmil_lib/N1_vicmil_std_lib/L9_user_interface.h:336-350 | the loop's result is each child's minimum along the split direction |
| WindowLayoutMap.WindowLayout.GetMaxSizeOfAllChildren | vicmil_lib/N1_vicmil_std_lib/L9_user_interface.h:357-381 | the loop's result is each child's maximum along the split direction, the parent's extent for -1 |
| WindowLayoutMap.WindowLayout.SetVerticalSplit | vicmil_lib/N1_vicmil_std_lib/L9_user_interface.h:147-153 | split_horizontal becomes false and 0 is returned when the element exists; otherwise -1 and nothing changes |
| WindowLayoutMap.WindowLayout.SetHorizontalSplit | vicmil_lib/N1_vicmil_std_lib/L9_user_interface.h:154-160 | split_horizontal becomes true and 0 is returned when the element exists; otherwise -1 and nothing changes |
| WindowLayoutMap.WindowLayout.SetSizeLimits | vicmil_lib/N1_vicmil_std_lib/L9_user_interface.h:163-173 | set_size(min_width, max_width, min_height, max_height) stores the four limits, -1 when the element is missing |
| WindowLayoutMap.WindowLayout.SetFixedSize | vicmil_lib/N1_vicmil_std_lib/L9_user_interface.h:174-176 | set_size(width, height) sets minimum and maximum to the same width and height |
| WindowLayoutMap.WindowLayout.SetWidth | vicmil_lib/N1_vicmil_std_lib/L9_user_interface.h:177-183 | set_width stores the width limits and keeps the height limits |
| WindowLayoutMap.WindowLayout.SetHeight | vicmil_lib/N1_vicmil_std_lib/L9_user_interface.h:184-190 | set_height stores the height limits and keeps the width limits |
| WindowLayoutMap.WindowLayout.SetPriorityLevel | vicmil_lib/N1_vicmil_std_lib/L9_user_interface.h:194-200 | set_priority_level stores the priority, -1 when the element is missing |
| WindowLayoutMap.WindowLayout.Update | vicmil_lib/N1_vicmil_std_lib/L9_user_interface.h:383-402 | update(): the parent's _update, then the element's own; the layout stays well-formed; ok is false exactly when either update fails the extent assertion |
| WindowLayoutMap.WindowLayout.SetSize | vicmil_lib/N1_vicmil_std_lib/L9_user_interface.h:592-596 | WindowLayout::set_size puts element 0 at (0, 0, width, height) and updates it; ok is false exactly when the update fails the extent assertion (a negative width, say) |
| WindowLayoutMap.WindowLayout.CreateChildElement | vicmil_lib/N1_vicmil_std_lib/L9_user_interface.h:553-564 | create_child_element numbers a default child with the counter, appends it to the parent's children and bumps the counter; -1 when the element is missing |
| WindowLayoutMap.WindowLayout.GetChildren | vicmil_lib/N1_vicmil_std_lib/L9_user_interface.h:565-575 | get_children lists the children in order, none when the element is missing |
| WindowLayoutMap.WindowLayout.Erase | vicmil_lib/N1_vicmil_std_lib/L9_user_interface.h:501-512 | erase() removes the element and its whole subtree, then updates its former parent; -1 when missing; ok reports the parent update's extent assertion |
| WindowLayoutMap.WindowLayout.EraseAt | vicmil_lib/N1_vicmil_std_lib/L9_user_interface.h:529-550 | _erase unlinks the element from its parent, erases its children, then removes it |
| WindowLayoutMap.WindowLayout.EraseChildren | vicmil_lib/N1_vicmil_std_lib/L9_user_interface.h:514-527 | erase_children removes the children from the back, each with its subtree, and keeps the element |
| WindowLayoutMap.SubtreeAbove | vicmil_lib/N1_vicmil_std_lib/L9_user_interface.h:116-117 | every element below k is numbered above k (also line 557) |
| WindowLayoutMap.ChildrenSubtreesAbove | vicmil_lib/N1_vicmil_std_lib/L9_user_interface.h:116-117 | every element below k's children is numbered above k (also line 557) |
| WindowLayoutMap.ChildSubtreeIn | vicmil_lib/N1_vicmil_std_lib/L9_user_interface.h:116 | a child's subtree is part of the subtrees below its parent |
| WindowLayoutMap.SubtreeFrame | vicmil_lib/N1_vicmil_std_lib/L9_user_interface.h:116 | a subtree depends only on the children lists inside it |
| WindowLayoutMap.ChildrenSubtreesFrame | vicmil_lib/N1_vicmil_std_lib/L9_user_interface.h:116 | the subtrees below k depend only on the children lists inside them |
| WindowLayoutMap.SubtreeSameShape | vicmil_lib/N1_vicmil_std_lib/L9_user_interface.h:116 | layouts of the same shape have the same subtrees |
| WindowLayoutMap.SubtreeParent | vicmil_lib/N1_vicmil_std_lib/L9_user_interface.h:116-117 | every element below k has its parent in k's subtree, numbered below it |
| WindowLayoutMap.ChildrenSubtreesParent | vicmil_lib/N1_vicmil_std_lib/L9_user_interface.h:116-117 | every element below k's children has parent k or a parent inside those subtrees |
| WindowLayoutMap.SiblingOutside | vicmil_lib/N1_vicmil_std_lib/L9_user_interface.h:116-117 | a sibling is never inside another sibling's subtree |
| WindowLayoutMap.SameShapeTrans | vicmil_lib/N1_vicmil_std_lib/L9_user_interface.h:124 | having the same shape is transitive |
| WindowLayoutMap.PlaceDone | vicmil_lib/N1_vicmil_std_lib/L9_user_interface.h:490-493 | after the last child the loop changes nothing more |
| WindowLayoutMap.PlaceUnfold | vicmil_lib/N1_vicmil_std_lib/L9_user_interface.h:490-493 | each turn of the loop places one child and moves pos by its size |
| WindowLayoutMap.PlaceOneShape | vicmil_lib/N1_vicmil_std_lib/L9_user_interface.h:404-431 | placing a child changes positions only and keeps the layout well-formed |
| WindowLayoutMap.UpdateOnShape | vicmil_lib/N1_vicmil_std_lib/L9_user_interface.h:434-499 | _update changes positions only |
| WindowLayoutMap.PlaceChildrenShape | vicmil_lib/N1_vicmil_std_lib/L9_user_interface.h:490-493 | the loop changes positions only |
| WindowLayoutMap.UpdateOnFrame | vicmil_lib/N1_vicmil_std_lib/L9_user_interface.h:434-499 | _update(k) leaves k itself and everything outside its subtree unchanged |
| WindowLayoutMap.PlaceOneFrame | vicmil_lib/N1_vicmil_std_lib/L9_user_interface.h:404-431 | placing a child changes nothing outside the child's subtree |
| WindowLayoutMap.PlaceChildrenFrame | vicmil_lib/N1_vicmil_std_lib/L9_user_interface.h:490-493 | the remaining loop changes nothing outside the remaining children's subtrees |
| WindowLayoutMap.PlaceOnePos | vicmil_lib/N1_vicmil_std_lib/L9_user_interface.h:404-431 | the child's own update never moves the child |
| WindowLayoutMap.PlaceChildrenLayout | vicmil_lib/N1_vicmil_std_lib/L9_user_interface.h:490-493 | each later child is still at the position the loop will compute for it |
| WindowLayoutMap.PlaceChildPlaced | vicmil_lib/N1_vicmil_std_lib/L9_user_interface.h:490-493 | once placed, child i keeps its position to the end of the loop |
| WindowLayoutMap.PlaceLaterChild | vicmil_lib/N1_vicmil_std_lib/L9_user_interface.h:490-493 | a later child is placed after the sizes of all the earlier ones |
| WindowLayoutMap.ShiftedPosition | vicmil_lib/N1_vicmil_std_lib/L9_user_interface.h:490-493 | moving pos by one size gives the next child's start |
| WindowLayoutMap.UpdateLaysOutChildren | vicmil_lib/N1_vicmil_std_lib/L9_user_interface.h:434-499 | after _update(k), child i of k sits at k's start plus the sizes of the children before it, with the size the rules gave it |
| WindowLayoutMap.RemoveFirst | vicmil_lib/N1_vicmil_std_lib/L9_user_interface.h:537-542 | removing the first occurrence shortens the list by one exactly when the index is in it |
| WindowLayoutMap.RemoveFirstMultiset | vicmil_lib/N1_vicmil_std_lib/L9_user_interface.h:537-542 | the loop with vec_remove and break removes exactly one occurrence of the index |
| WindowLayoutMap.RemoveFirstAt | vicmil_lib/N1_vicmil_std_lib/L9_user_interface.h:537-542 | it removes position i when i is the first occurrence |
| WindowLayoutMap.RemoveFirstAbsent | vicmil_lib/N1_vicmil_std_lib/L9_user_interface.h:537-542 | a missing index leaves the list unchanged |
| WindowLayoutMap.RemoveFirstDistinct | vicmil_lib/N1_vicmil_std_lib/L9_user_interface.h:537-542 | on a list without repeats it removes the index and keeps the rest, still without repeats |
| WindowLayoutMap.DistinctAppend | vicmil_lib/N1_vicmil_std_lib/L9_user_interface.h:562 | appending a new index keeps the children list without repeats |
| WindowLayoutMap.ChildOf | vicmil_lib/N1_vicmil_std_lib/L9_user_interface.h:116 | every element below k lies below one of k's children |
| WindowLayoutMap.SubtreesDisjoint | vicmil_lib/N1_vicmil_std_lib/L9_user_interface.h:116-117 | the subtrees of two different siblings are disjoint |
| WindowLayoutMap.UnlinkedWf | vicmil_lib/N1_vicmil_std_lib/L9_user_interface.h:537-542 | unlinking an element from its parent keeps the layout well-formed |
| WindowLayoutMap.ErasedWf | vicmil_lib/N1_vicmil_std_lib/L9_user_interface.h:529-550 | _erase keeps the layout well-formed |
| WindowLayoutMap.PrunedNone | vicmil_lib/N1_vicmil_std_lib/L9_user_interface.h:520-524 | before the loop erase_children has removed nothing |
| WindowLayoutMap.PrunedLast | vicmil_lib/N1_vicmil_std_lib/L9_user_interface.h:520-524 | with n children left, the last one and its subtree are still as they were |
| WindowLayoutMap.ChildrenSplit | vicmil_lib/N1_vicmil_std_lib/L9_user_interface.h:520-524 | the subtrees below the first n children are those below the first n - 1 plus the n-th child's |
| WindowLayoutMap.UnlinkLast | vicmil_lib/N1_vicmil_std_lib/L9_user_interface.h:520-542 | unlinking the last child drops it from the end of the list |
| WindowLayoutMap.PrunedStep | vicmil_lib/N1_vicmil_std_lib/L9_user_interface.h:520-524 | one turn of erase_children erases the last child and its subtree |
| WindowLayoutMap.ErasedByPruning | vicmil_lib/N1_vicmil_std_lib/L9_user_interface.h:529-550 | _erase is unlink, then erase_children, then removal of the element |
| WindowLayoutMap.WithChildWf | vicmil_lib/N1_vicmil_std_lib/L9_user_interface.h:553-564 | create_child_element keeps the layout well-formed with the counter bumped |
| WindowLayoutMap.CreateThenErase | vicmil_lib/N1_vicmil_std_lib/L9_user_interface.h:529-564 | erasing a child just created gives back the layout before |
| WindowLayoutMap.PrunedRoot | vicmil_lib/N1_vicmil_std_lib/L9_user_interface.h:520-524 | with n children left, element k lists its first n children |
| WindowLayoutMap.UpdateKeepsValid | vicmil_lib/N1_vicmil_std_lib/L9_user_interface.h:434-499 | _update keeps the layout well-formed |
| WindowLayoutMap.SettingKeepsWf | vicmil_lib/N1_vicmil_std_lib/L9_user_interface.h:147-200 | changing fields other than children and parent keeps the layout well-formed |
| WindowLayoutTests.SizesHalf | vicmil_lib/N1_vicmil_std_lib/L9_user_interface.h:608-610 | two unbounded children share a width of 1000 as 500 and 500 |
| WindowLayoutTests.SizesHalfVertical | vicmil_lib/N1_vicmil_std_lib/L9_user_interface.h:612-616 | split vertically they share a height of 800 as 400 and 400 |
| WindowLayoutTests.SizesCapped | vicmil_lib/N1_vicmil_std_lib/L9_user_interface.h:624-628 | a child fixed at 200 gets 200 and the other the remaining 800 |
| WindowLayoutTests.SizesWide | vicmil_lib/N1_vicmil_std_lib/L9_user_interface.h:630-634 | a child fixed at 600 gets 600 and the other 400 |
| WindowLayoutTests.SizesSecondHidden | vicmil_lib/N1_vicmil_std_lib/L9_user_interface.h:637-641 | with the second child hidden, the sizes are 600 and 0 |
| WindowLayoutTests.SizesFirstHidden | vicmil_lib/N1_vicmil_std_lib/L9_user_interface.h:644-649 | with the first child hidden, the sizes are 0 and 600 |
| WindowLayoutTests.SizesSingle | vicmil_lib/N1_vicmil_std_lib/L9_user_interface.h:652-654 | a lone child fixed at 600 gets 600 |
| WindowLayoutTests.UpdateLeaf | vicmil_lib/N1_vicmil_std_lib/L9_user_interface.h:434-499 | updating an element without children changes nothing |
| WindowLayoutTests.UpdateOne | vicmil_lib/N1_vicmil_std_lib/L9_user_interface.h:434-499 | updating an element with one leaf child places that child at the start |
| WindowLayoutTests.UpdateTwo | vicmil_lib/N1_vicmil_std_lib/L9_user_interface.h:434-499 | updating an element with two leaf children places them one after the other |
| WindowLayoutTests.ChildSizesFit | vicmil_lib/N1_vicmil_std_lib/L9_user_interface.h:297-303 | when the minimums fit nothing is hidden and the sizes are those of _get_element_sizes (also lines 449-484) |
| WindowLayoutTests.UpdateTwoLeaves | vicmil_lib/N1_vicmil_std_lib/L9_user_interface.h:434-499 | the entire window with two leaf children puts them at the sizes computed |
| WindowLayoutTests.Test1Sizes | vicmil_lib/N1_vicmil_std_lib/L9_user_interface.h:608-616 | the two children of TEST1 get 500 each side by side and 400 each one above the other |
| WindowLayoutTests.Test1Update | vicmil_lib/N1_vicmil_std_lib/L9_user_interface.h:608-616 | TEST1's positions: (0, 0, 500, 800) and (500, 0, 500, 800), then (0, 0, 1000, 400) and (0, 400, 1000, 400) |
| WindowLayoutTests.CreatedTwo | vicmil_lib/N1_vicmil_std_lib/L9_user_interface.h:604-607 | two create_child_element calls give children 1 and 2 of element 0 |
| WindowLayoutTests.Test1Steps | vicmil_lib/N1_vicmil_std_lib/L9_user_interface.h:604-613 | set_size and set_vertical_split change only element 0's position and direction |
| WindowLayoutTests.Test2ChildUpdate | vicmil_lib/N1_vicmil_std_lib/L9_user_interface.h:631-645 | updating a child of the entire window is updating the entire window |
| WindowLayoutTests.Test2OrderTied | vicmil_lib/N1_vicmil_std_lib/L9_user_interface.h:636-641 | with equal priorities the hiding order keeps the index order, so the right child is hidden first |
| WindowLayoutTests.Test2OrderRaised | vicmil_lib/N1_vicmil_std_lib/L9_user_interface.h:643-649 | with priority 2 on the right child the left one comes last |
| WindowLayoutTests.Test2HideTied | vicmil_lib/N1_vicmil_std_lib/L9_user_interface.h:636-641 | two 600 minimums in 1000 with equal priority hide the right child |
| WindowLayoutTests.Test2HideRaised | vicmil_lib/N1_vicmil_std_lib/L9_user_interface.h:643-649 | with the right child's priority raised the left child is hidden |
| WindowLayoutTests.Test2Sizes | vicmil_lib/N1_vicmil_std_lib/L9_user_interface.h:626-634 | the sizes are 200 and 800, then 600 and 400 |
| WindowLayoutTests.Test2SecondHidden | vicmil_lib/N1_vicmil_std_lib/L9_user_interface.h:637-641 | the sizes are 600 and 0 |
| WindowLayoutTests.Test2FirstHidden | vicmil_lib/N1_vicmil_std_lib/L9_user_interface.h:644-649 | the sizes are 0 and 600 |
| WindowLayoutTests.Test2Steps | vicmil_lib/N1_vicmil_std_lib/L9_user_interface.h:623-645 | each setter changes only the child it is called on |
| WindowLayoutTests.Test2Erased | vicmil_lib/N1_vicmil_std_lib/L9_user_interface.h:652 | erasing the right child leaves the entire window with the left child only |
| WindowLayoutTests.Test2Regrown | vicmil_lib/N1_vicmil_std_lib/L9_user_interface.h:652-654 | after the erase the left child is back at (0, 0, 600, 600) |
| WindowLayoutTests.Test2Update1 | vicmil_lib/N1_vicmil_std_lib/L9_user_interface.h:626-628 | positions (0, 0, 200, 200) and (200, 0, 800, 800) |
| WindowLayoutTests.Test2Update2 | vicmil_lib/N1_vicmil_std_lib/L9_user_interface.h:630-634 | positions (0, 0, 600, 600) and (600, 0, 400, 800) |
| WindowLayoutTests.Test2Update3 | vicmil_lib/N1_vicmil_std_lib/L9_user_interface.h:637-641 | positions (0, 0, 600, 600) and (0, 0, 0, 0) |
| WindowLayoutTests.Test2Update4 | vicmil_lib/N1_vicmil_std_lib/L9_user_interface.h:644-649 | positions (0, 0, 0, 0) and (0, 0, 600, 600) |
| Widgets.Find | vicmil_lib/N1_vicmil_std_lib/M2_std_lib_other/L1_user_interface.h:40-42 | a handle is live exactly when some entry of the list has its identity, and then Find gives that entry |
| Widgets.FindUnique | vicmil_lib/N1_vicmil_std_lib/M2_std_lib_other/L1_user_interface.h:85 | with distinct identities an entry is the one found for its identity |
| Widgets.TopWidget | vicmil_lib/N1_vicmil_std_lib/M2_std_lib_other/L1_user_interface.h:117-128 | the widget the mouse selects is an entry of the list |
| Widgets.TopWidgetIsEarliestLowest | vicmil_lib/N1_vicmil_std_lib/M2_std_lib_other/L1_user_interface.h:117-132 | nothing is selected exactly when no widget contains the mouse; otherwise the selected widget contains the mouse, has the lowest depth of those that do, and comes first among those of that depth |
| Widgets.TopWidgetSameGeometry | vicmil_lib/N1_vicmil_std_lib/M2_std_lib_other/L1_user_interface.h:117-128 | the selection depends only on positions and depths |
| Widgets.ResetAll | vicmil_lib/N1_vicmil_std_lib/M2_std_lib_other/L1_user_interface.h:98-109 | resetting keeps the number of widgets |
| Widgets.Updated | vicmil_lib/N1_vicmil_std_lib/M2_std_lib_other/L1_user_interface.h:133-137 | update keeps the number of widgets |
| Widgets.UpdatedFlags | vicmil_lib/N1_vicmil_std_lib/M2_std_lib_other/L1_user_interface.h:98-137 | after update, a widget is selected exactly when it is the top widget under the mouse; on a click it is clicked and last-clicked exactly when it is that widget; without a click nothing is clicked and last-clicked is kept; position and depth never change |
| Widgets.UpdatedAt | vicmil_lib/N1_vicmil_std_lib/M2_std_lib_other/L1_user_interface.h:98-137 | each widget is reset, and the top one then made selected |
| Widgets.UpdatedSelectsAtMostOne | vicmil_lib/N1_vicmil_std_lib/M2_std_lib_other/L1_user_interface.h:117-132 | at most one widget is selected after update |
| Widgets.WithPosition | vicmil_lib/N1_vicmil_std_lib/M2_std_lib_other/L1_user_interface.h:52-56 | set_position keeps every widget's identity |
| Widgets.WithPositionReadBack | vicmil_lib/N1_vicmil_std_lib/M2_std_lib_other/L1_user_interface.h:46-56 | get_position after set_position reads the new position back for a live widget, (0, 0, 0, 0) for an expired one |
| Widgets.WithPositionKeepsOthers | vicmil_lib/N1_vicmil_std_lib/M2_std_lib_other/L1_user_interface.h:52-56 | set_position changes no other widget's position |
| Widgets.CreateWidgetAsWrittenAliases | vicmil_lib/N1_vicmil_std_lib/M2_std_lib_other/L1_user_interface.h:80-82 | Widget::create_widget returns a second handle to the same widget, so moving the "new" widget moves the original |
| Widgets.WidgetManager.constructor | vicmil_lib/N1_vicmil_std_lib/M2_std_lib_other/L1_user_interface.h:84-85 | a new manager has no widgets |
| Widgets.WidgetManager.CreateWidget | vicmil_lib/N1_vicmil_std_lib/M2_std_lib_other/L1_user_interface.h:86-90 | create_widget pushes a default widget at the back with a fresh identity |
| Widgets.WidgetManager.CreateWidgetFrom | vicmil_lib/N1_vicmil_std_lib/M2_std_lib_other/L1_user_interface.h:80 | a new default widget in the same list, with an identity different from every live one; -1 when the handle has expired |
| Widgets.WidgetManager.Remove | vicmil_lib/N1_vicmil_std_lib/M2_std_lib_other/L1_user_interface.h:43-45 | remove takes the entry out of the list, keeping the order of the others, and every handle to it expires |
| Widgets.WidgetManager.IsSelected | vicmil_lib/N1_vicmil_std_lib/M2_std_lib_other/L1_user_interface.h:62-67 | is_selected is true only for a live widget whose flag is set |
| Widgets.WidgetManager.IsLastClickedWidget | vicmil_lib/N1_vicmil_std_lib/M2_std_lib_other/L1_user_interface.h:68-73 | is_last_clicked_widget is true only for a live widget whose flag is set |
| Widgets.WidgetManager.WasClicked | vicmil_lib/N1_vicmil_std_lib/M2_std_lib_other/L1_user_interface.h:74-79 | was_clicked is true only for a live widget whose flag is set |
| Widgets.WidgetManager.SetPosition | vicmil_lib/N1_vicmil_std_lib/M2_std_lib_other/L1_user_interface.h:52-56 | set_position stores the position of a live widget and changes nothing else |
| Widgets.WidgetManager.SetDepth | vicmil_lib/N1_vicmil_std_lib/M2_std_lib_other/L1_user_interface.h:57-61 | set_depth stores the depth of a live widget and changes nothing else |
| Widgets.WidgetManager.Update | vicmil_lib/N1_vicmil_std_lib/M2_std_lib_other/L1_user_interface.h:133-140 | update resets all widgets, then selects the top widget under the mouse |
| Widgets.WidgetManager.GetFlaggedSubwidget | vicmil_lib/N1_vicmil_std_lib/M2_std_lib_other/L1_user_interface.h:648-679 | get_selected_subwidget and get_last_clicked_subwidget return the path the search defines |
| Widgets.RemoveEntry | vicmil_lib/N1_vicmil_std_lib/M2_std_lib_other/L1_user_interface.h:43-45 | removing one entry keeps identities distinct and shifts the later entries down |
| Widgets.ResetWidgetStates | vicmil_lib/N1_vicmil_std_lib/M2_std_lib_other/L1_user_interface.h:98-109 | the loop clears selected and clicked on every widget, and last-clicked only on a click |
| Widgets.SelectedWidget | vicmil_lib/N1_vicmil_std_lib/M2_std_lib_other/L1_user_interface.h:117-128 | the loop keeps the first widget with the lowest depth among those containing the mouse |
| Widgets.SetPositionIdempotent | vicmil_lib/N1_vicmil_std_lib/M2_std_lib_other/L1_user_interface.h:188-193 | setting the same position twice is the same as once: the second call sees no change and notifies nothing |
| Widgets.SetPositionReadBack | vicmil_lib/N1_vicmil_std_lib/M2_std_lib_other/L1_user_interface.h:182-193 | get_position after set_position on a live rectangle reads the new position |
| Widgets.SetPositionKeepsOthers | vicmil_lib/N1_vicmil_std_lib/M2_std_lib_other/L1_user_interface.h:188-193 | set_position changes no other rectangle's position |
| Widgets.ScreenEvents | vicmil_lib/N1_vicmil_std_lib/M2_std_lib_other/L1_user_interface.h:238-242 | set_screen_size notifies every rectangle, in list order |
| Widgets.SetPositionsOn | vicmil_lib/N1_vicmil_std_lib/M2_std_lib_other/L1_user_interface.h:419-432 | a run of set_position calls keeps every rectangle's identity and entire window |
| Widgets.SetPositionsLand | vicmil_lib/N1_vicmil_std_lib/M2_std_lib_other/L1_user_interface.h:419-432 | after the run each of the distinct live rectangles has the position given for it |
| Widgets.SameIdsFind | vicmil_lib/N1_vicmil_std_lib/M2_std_lib_other/L1_user_interface.h:85 | lists with the same identities find the same entries (also line 221) |
| Widgets.SplitFrom | vicmil_lib/N1_vicmil_std_lib/M2_std_lib_other/L1_user_interface.h:416-432 | _SizeSplit::update gives one position per element |
| Widgets.SplitFromTiles | vicmil_lib/N1_vicmil_std_lib/M2_std_lib_other/L1_user_interface.h:416-432 | with non-negative sizes every position lies inside the layout, the first starts where the layout does, and each next one starts where the previous one ends |
| Widgets.LayoutsOf | vicmil_lib/N1_vicmil_std_lib/M2_std_lib_other/L1_user_interface.h:407-414 | the rectangles of the split elements, in order |
| Widgets.LayoutRectManager.constructor | vicmil_lib/N1_vicmil_std_lib/M2_std_lib_other/L1_user_interface.h:223-233 | a new manager holds only the entire-screen rectangle at (0, 0, 0, 0), its own entire window |
| Widgets.LayoutRectManager.EntireWindow | vicmil_lib/N1_vicmil_std_lib/M2_std_lib_other/L1_user_interface.h:194-199 | entire_window of an expired rectangle is the null handle |
| Widgets.LayoutRectManager.CreateNew | vicmil_lib/N1_vicmil_std_lib/M2_std_lib_other/L1_user_interface.h:173-181 | create_new pushes a rectangle at (0, 0, 0, 0) sharing the entire window, with a fresh identity; -1 when the handle has expired |
| Widgets.LayoutRectManager.Remove | vicmil_lib/N1_vicmil_std_lib/M2_std_lib_other/L1_user_interface.h:161-163 | remove takes the rectangle out of the list and notifies its update object (also lines 212-214) |
| Widgets.LayoutRectManager.SetPosition | vicmil_lib/N1_vicmil_std_lib/M2_std_lib_other/L1_user_interface.h:188-193 | set_position stores a changed position of a live rectangle and notifies its update object; otherwise nothing happens |
| Widgets.LayoutRectManager.SetScreenSize | vicmil_lib/N1_vicmil_std_lib/M2_std_lib_other/L1_user_interface.h:234-244 | set_screen_size does nothing when the screen already has that size; otherwise it sets the entire screen to (0, 0, w, h) and notifies every rectangle of the resize |
| Widgets.LayoutRectManager.UpdateSizeSplit | vicmil_lib/N1_vicmil_std_lib/M2_std_lib_other/L1_user_interface.h:416-432 | _SizeSplit::update sets each element's rectangle to its position in the split |
| Widgets.LayoutRectManager.PlaceSplit | vicmil_lib/N1_vicmil_std_lib/M2_std_lib_other/L1_user_interface.h:419-431 | the loop moves the element rectangles, in order, to the places of the split (each cut to the layout and put after the previous one), exactly as set_position would one at a time |
| Widgets.SplitFromStep | vicmil_lib/N1_vicmil_std_lib/M2_std_lib_other/L1_user_interface.h:419-431 | each turn of the loop cuts the element to the layout and moves on by its size |
| Widgets.SetPositionsStep | vicmil_lib/N1_vicmil_std_lib/M2_std_lib_other/L1_user_interface.h:419-431 | each turn of the loop is one more set_position |
| Widgets.FirstFlagged | vicmil_lib/N1_vicmil_std_lib/M2_std_lib_other/L1_user_interface.h:649-669 | the first loop finds the first direct sub-layout whose widget is flagged |
| Widgets.SubwidgetPathFinds | vicmil_lib/N1_vicmil_std_lib/M2_std_lib_other/L1_user_interface.h:648-679 | the returned path leads to a flagged widget; it is empty exactly when no widget below is flagged |
| Widgets.NoneFlaggedFrom | vicmil_lib/N1_vicmil_std_lib/M2_std_lib_other/L1_user_interface.h:649-653 | when the first loop finds nothing, no direct sub-layout is flagged |
| Widgets.FirstPathFromFinds | vicmil_lib/N1_vicmil_std_lib/M2_std_lib_other/L1_user_interface.h:654-677 | the second loop's path leads to a flagged widget, empty exactly when none is flagged below the remaining sub-layouts |
| LayoutElements.UpdateTwice | vicmil_lib/N1_vicmil_std_lib/M2_std_lib_other/L1_user_interface_implementation.h:36-41 | writing an element twice keeps only the second write |
| LayoutElements.PartsIssuedAppend | vicmil_lib/N1_vicmil_std_lib/M2_std_lib_other/L1_user_interface_implementation.h:76-78 | appending a newly pushed part keeps every part handle issued by the pool |
| LayoutElements.OnlyFreedTrans | vicmil_lib/N1_vicmil_std_lib/M2_std_lib_other/L1_user_interface_implementation.h:42-55 | erasures compose: slots freed in two steps are slots freed overall |
| LayoutElements.OnlyFreedKeepsExpired | vicmil_lib/N1_vicmil_std_lib/M2_std_lib_other/L1_user_interface_implementation.h:42-47 | an expired handle stays expired after more erasures |
| LayoutElements.OnlyFreedKeepsExpiredFrom | vicmil_lib/N1_vicmil_std_lib/M2_std_lib_other/L1_user_interface_implementation.h:64-69 | dropped parts stay expired after more erasures |
| LayoutElements.OnlyFreedKeepsIssued | vicmil_lib/N1_vicmil_std_lib/M2_std_lib_other/L1_user_interface_implementation.h:42-47 | erasing keeps every part handle issued |
| LayoutElements.OnlyFreedShrinks | vicmil_lib/N1_vicmil_std_lib/M2_std_lib_other/L1_user_interface_implementation.h:52-55 | erasing a live element frees its slot, so the recursion through parts ends |
| LayoutElements.OnlyFreedLiveShrinks | vicmil_lib/N1_vicmil_std_lib/M2_std_lib_other/L1_user_interface_implementation.h:42-47 | erasing never adds live slots |
| LayoutElements.ErasedOrDyingStep | vicmil_lib/N1_vicmil_std_lib/M2_std_lib_other/L1_user_interface_implementation.h:43-45 | after part i is erased, parts 0..i are expired or being erased further up |
| LayoutElements.OnlyDeletedTrans | vicmil_lib/N1_vicmil_std_lib/M2_std_lib_other/L1_user_interface_implementation.h:52-55 | erasures only append deleted alerts, in two steps as in one |
| LayoutElements.FreshPartsStep | vicmil_lib/N1_vicmil_std_lib/M2_std_lib_other/L1_user_interface_implementation.h:72-79 | each part the growing loop pushes is a new default element with the next allocation number |
| LayoutElements.PushFrame | vicmil_lib/N1_vicmil_std_lib/M2_std_lib_other/L1_user_interface_implementation.h:76-78 | pushing a part changes only the new slot and the owner's parts list |
| LayoutElements.GrownStep | vicmil_lib/N1_vicmil_std_lib/M2_std_lib_other/L1_user_interface_implementation.h:72-82 | one more turn of the growing loop keeps the loop's invariant |
| LayoutElements.GrownOutcome | vicmil_lib/N1_vicmil_std_lib/M2_std_lib_other/L1_user_interface_implementation.h:80-83 | after growing, the first part is the old first part, live exactly as before, or a fresh live part when there were none |
| LayoutElements.SetPartsCountFrame | vicmil_lib/N1_vicmil_std_lib/M2_std_lib_other/L1_user_interface_implementation.h:56-89 | set_parts_count revives no expired handle and leaves every other live element unchanged |
| LayoutElements.FirstPartCheckAsWritten | vicmil_lib/N1_vicmil_std_lib/M2_std_lib_other/L1_user_interface_implementation.h:83 | the final Assert reads parts[0]: it is defined only when there is a part, and then holds exactly when that part is live |
| LayoutElements.ZeroCountReadsEmptyParts | vicmil_lib/N1_vicmil_std_lib/M2_std_lib_other/L1_user_interface_implementation.h:56-89 | set_parts_count(elem, 0) leaves no parts, so the Assert on parts[0] reads past the end of an empty vector |
| LayoutElements.TopElement | vicmil_lib/N1_vicmil_std_lib/M2_std_lib_other/L1_user_interface_implementation.h:100-130 | the element the scan ends on is under the mouse |
| LayoutElements.TopElementIsLowestLatest | vicmil_lib/N1_vicmil_std_lib/M2_std_lib_other/L1_user_interface_implementation.h:100-130 | nothing is found exactly when no element is under the mouse; otherwise the top element has the lowest widget_depth of those under the mouse and, among equal depths, the highest allocation number |
| LayoutElements.Scanned | vicmil_lib/N1_vicmil_std_lib/M2_std_lib_other/L1_user_interface_implementation.h:103-130 | the scan keeps the number of elements |
| LayoutElements.UpdatedElements | vicmil_lib/N1_vicmil_std_lib/M2_std_lib_other/L1_user_interface_implementation.h:99-159 | update keeps the number of elements |
| LayoutElements.TopHandle | vicmil_lib/N1_vicmil_std_lib/M2_std_lib_other/L1_user_interface_implementation.h:132-137 | the handle built for the top element is live, and null when nothing was found |
| LayoutElements.UpdatedAt | vicmil_lib/N1_vicmil_std_lib/M2_std_lib_other/L1_user_interface_implementation.h:99-159 | after update the top element is reset and marked, other elements under the mouse are only reset, and elements elsewhere are untouched |
| LayoutElements.UpdatedFlags | vicmil_lib/N1_vicmil_std_lib/M2_std_lib_other/L1_user_interface_implementation.h:99-159 | the top element is selected, clicked on a click, and last-clicked on a click or if it was; the others under the mouse lose selected and clicked, and last-clicked on a click; elements elsewhere keep their flags |
| LayoutElements.UpdatedSelectsTopOnly | vicmil_lib/N1_vicmil_std_lib/M2_std_lib_other/L1_user_interface_implementation.h:99-159 | some element under the mouse is selected exactly when some element is under the mouse, and only one is |
| LayoutElements.SetElementPosition | vicmil_lib/N1_vicmil_std_lib/M2_std_lib_other/L1_user_interface_implementation.h:36-41 | set_position stores the position, leaves every other element and field unchanged, and raises moved only when the position changed |
| LayoutElements.SetElementPositionIdempotent | vicmil_lib/N1_vicmil_std_lib/M2_std_lib_other/L1_user_interface_implementation.h:36-41 | setting the same position twice is the same as once |
| LayoutElements.LayoutElementManager.WriteElement | vicmil_lib/N1_vicmil_std_lib/M2_std_lib_other/L1_user_interface_implementation.h:26 | writing an element through a live handle changes that slot only |
| LayoutElements.LayoutElementManager.MoveElement | vicmil_lib/N1_vicmil_std_lib/M2_std_lib_other/L1_user_interface_implementation.h:36-41 | set_position on a live element is the position rule |
| LayoutElements.LayoutElementManager.constructor | vicmil_lib/N1_vicmil_std_lib/M2_std_lib_other/L1_user_interface_implementation.h:163-167 | the manager pushes the window element and moves it to (0, 0, 1000, 1000); nothing is selected or clicked |
| LayoutElements.LayoutElementManager.SetPosition | vicmil_lib/N1_vicmil_std_lib/M2_std_lib_other/L1_user_interface_implementation.h:160-162 | set_position moves the window element; failure when it has been erased |
| LayoutElements.LayoutElementManager.ScanElements | vicmil_lib/N1_vicmil_std_lib/M2_std_lib_other/L1_user_interface_implementation.h:100-130 | the while loop resets the elements under the mouse and ends on the top element |
| LayoutElements.LayoutElementManager.ScanLoop | vicmil_lib/N1_vicmil_std_lib/M2_std_lib_other/L1_user_interface_implementation.h:100-130 | the loop itself: slot by slot it leaves the elements as the scan turns them and its pick as the top element, without touching keys or the allocation count |
| LayoutElements.LayoutElementManager.Update | vicmil_lib/N1_vicmil_std_lib/M2_std_lib_other/L1_user_interface_implementation.h:99-159 | update resets and marks the elements, sets last_selected and last_clicked to the top element, and raises deselected, not_last_clicked, selected and clicked alerts in the source's order |
| LayoutElements.LayoutElementManager.PushElement | vicmil_lib/N1_vicmil_std_lib/M2_std_lib_other/L1_user_interface_implementation.h:76 | push gives a live handle to the element with the next allocation number and changes no other live slot |
| LayoutElements.LayoutElementManager.DropLastPart | vicmil_lib/N1_vicmil_std_lib/M2_std_lib_other/L1_user_interface_implementation.h:64-69 | one turn of the shrinking loop erases the last part and pops it |
| LayoutElements.LayoutElementManager.TrimParts | vicmil_lib/N1_vicmil_std_lib/M2_std_lib_other/L1_user_interface_implementation.h:63-69 | the shrinking loop leaves the first count parts and erases the rest |
| LayoutElements.LayoutElementManager.AddPart | vicmil_lib/N1_vicmil_std_lib/M2_std_lib_other/L1_user_interface_implementation.h:75-79 | one turn of the growing loop pushes a new element and appends it as a part |
| LayoutElements.LayoutElementManager.GrowParts | vicmil_lib/N1_vicmil_std_lib/M2_std_lib_other/L1_user_interface_implementation.h:71-82 | the growing loop appends fresh parts up to count; it fails when the first part has expired |
| LayoutElements.LayoutElementManager.SetPartsCount | vicmil_lib/N1_vicmil_std_lib/M2_std_lib_other/L1_user_interface_implementation.h:56-89 | set_parts_count on a live element keeps its first count parts, erases the rest, pushes fresh ones up to count; success exactly when the element survives and, when count > 0, its first part is live; an expired element is left alone |
| LayoutElements.LayoutElementManager.EraseElement | vicmil_lib/N1_vicmil_std_lib/M2_std_lib_other/L1_user_interface_implementation.h:52-55 | erasing an element frees its slot, raises deleted, then erases every part |
| LayoutElements.LayoutElementManager.EraseParts | vicmil_lib/N1_vicmil_std_lib/M2_std_lib_other/L1_user_interface_implementation.h:42-47 | delete_all_parts erases every part in order |
| LayoutMovers.MovesOnlyStep | vicmil_lib/N1_vicmil_std_lib/M2_std_lib_other/L1_user_interface_implementation.h:36-41 | a set_position followed by more moves only moves elements |
| LayoutMovers.AlignFrom | vicmil_lib/N1_vicmil_std_lib/M2_std_lib_other/L1_user_interface_implementation.h:174-189 | the _PartsAlign loop keeps the number of elements |
| LayoutMovers.AlignFromMovesOnly | vicmil_lib/N1_vicmil_std_lib/M2_std_lib_other/L1_user_interface_implementation.h:174-189 | _PartsAlign::update only moves elements and raises only moved alerts |
| LayoutMovers.AlignFromFails | vicmil_lib/N1_vicmil_std_lib/M2_std_lib_other/L1_user_interface_implementation.h:177-187 | the loop stops on a failed dereference exactly when some aligned part within the sizes given has expired |
| LayoutMovers.AlignFromKeeps | vicmil_lib/N1_vicmil_std_lib/M2_std_lib_other/L1_user_interface_implementation.h:177-187 | elements that are not parts are left unchanged |
| LayoutMovers.AlignFromPlaces | vicmil_lib/N1_vicmil_std_lib/M2_std_lib_other/L1_user_interface_implementation.h:177-187 | a part with NO_ALIGNMENT is left alone; any other part gets the given width and height aligned in the parent by align_rect |
| LayoutMovers.DividedRect | vicmil_lib/N1_vicmil_std_lib/M2_std_lib_other/L1_user_interface_implementation.h:198-229 | a placed part with non-negative size is cut to lie inside the parent |
| LayoutMovers.DivideFrom | vicmil_lib/N1_vicmil_std_lib/M2_std_lib_other/L1_user_interface_implementation.h:196-231 | the _PartsDivideBySize loop keeps the number of elements |
| LayoutMovers.DivideFromMovesOnly | vicmil_lib/N1_vicmil_std_lib/M2_std_lib_other/L1_user_interface_implementation.h:196-231 | _PartsDivideBySize::update only moves elements and raises only moved alerts |
| LayoutMovers.DivideFromFails | vicmil_lib/N1_vicmil_std_lib/M2_std_lib_other/L1_user_interface_implementation.h:201-230 | the loop stops on a failed dereference exactly when one of the first min(parts, widths) parts still ahead has expired |
| LayoutMovers.DivideFromInsideParent | vicmil_lib/N1_vicmil_std_lib/M2_std_lib_other/L1_user_interface_implementation.h:198-229 | every part the loop moves ends up inside the parent (when its size is non-negative) |
| LayoutMovers.PrefixSumStep | vicmil_lib/N1_vicmil_std_lib/M2_std_lib_other/L1_user_interface_implementation.h:212 | the running x grows by each width in turn |
| LayoutMovers.SumNonNegative | vicmil_lib/N1_vicmil_std_lib/M2_std_lib_other/L1_user_interface_implementation.h:212 | non-negative widths have a non-negative sum |
| LayoutMovers.DivideRowPlaces | vicmil_lib/N1_vicmil_std_lib/M2_std_lib_other/L1_user_interface_implementation.h:203-213 | in a forward horizontal divide whose widths fit, part k sits at the parent's x plus the widths before it, at the parent's y, with its own width and height |
| LayoutMovers.DivideFromKeeps | vicmil_lib/N1_vicmil_std_lib/M2_std_lib_other/L1_user_interface_implementation.h:201-230 | elements that are not parts still ahead are left unchanged |
| LayoutMovers.AlignPart | vicmil_lib/N1_vicmil_std_lib/M2_std_lib_other/L1_user_interface_implementation.h:178-187 | one turn of the _PartsAlign loop is one step of the fold |
| LayoutMovers.RunPartsAlign | vicmil_lib/N1_vicmil_std_lib/M2_std_lib_other/L1_user_interface_implementation.h:174-189 | _PartsAlign::update on the pool leaves the scene the fold computes, failing where it fails |
| LayoutMovers.RunPartsDivideBySize | vicmil_lib/N1_vicmil_std_lib/M2_std_lib_other/L1_user_interface_implementation.h:196-231 | _PartsDivideBySize::update on the pool leaves the scene the fold computes, failing where it fails |
| LayoutApi.ElementAt | vicmil_lib/N1_vicmil_std_lib/M2_std_lib_other/L2_user_interface.h:8 | dereferencing a handle succeeds exactly when it is live, and gives the element in its slot |
| LayoutApi.IsDeleted | vicmil_lib/N1_vicmil_std_lib/M2_std_lib_other/L2_user_interface.h:112 | is_deleted is true exactly when the handle has expired |
| LayoutApi.PartCount | vicmil_lib/N1_vicmil_std_lib/M2_std_lib_other/L2_user_interface.h:92 | part_count is the number of parts of a live element, and fails on a deleted one |
| LayoutApi.GetPart | vicmil_lib/N1_vicmil_std_lib/M2_std_lib_other/L2_user_interface.h:69-79 | get_part succeeds exactly when the element is live, the index is below part_count and the part is live, and returns that part |
| LayoutApi.GetPosition | vicmil_lib/N1_vicmil_std_lib/M2_std_lib_other/L2_user_interface.h:105 | get_position reads the position of a live element |
| LayoutApi.GetInfo | vicmil_lib/N1_vicmil_std_lib/M2_std_lib_other/L2_user_interface.h:109 | get_info reads the info of a live element |
| LayoutApi.WidgetFlags | vicmil_lib/N1_vicmil_std_lib/M2_std_lib_other/L2_user_interface.h:99-101 | widget_selected, widget_is_clicked and widget_is_last_clicked read the element's three flags |
| LayoutApi.SetPosition | vicmil_lib/N1_vicmil_std_lib/M2_std_lib_other/L2_user_interface.h:104 | set_position writes the position directly, with no moved alert, and get_position reads it back |
| LayoutApi.SetInfo | vicmil_lib/N1_vicmil_std_lib/M2_std_lib_other/L2_user_interface.h:108 | set_info writes the info and get_info reads it back |
| LayoutApi.EnableWidget | vicmil_lib/N1_vicmil_std_lib/M2_std_lib_other/L2_user_interface.h:95-98 | enable_widget writes widget_enabled and widget_depth and nothing else |
| LayoutApi.VecInsert | vicmil_lib/N1_vicmil_std_lib/M2_std_lib_other/L2_user_interface.h:89 | vec_insert puts x at pos and shifts the later elements up by one |
| LayoutApi.RemoveAfterInsert | vicmil_lib/N1_vicmil_std_lib/M2_std_lib_other/L2_user_interface.h:84-89 | removing what was just inserted at pos gives the vector back |
| LayoutApi.InsertAfterRemove | vicmil_lib/N1_vicmil_std_lib/M2_std_lib_other/L2_user_interface.h:84-89 | inserting back what was removed at pos gives the vector back |
| LayoutApi.ExtractPart | vicmil_lib/N1_vicmil_std_lib/M2_std_lib_other/L2_user_interface.h:80-86 | extract_part marks the part orphan, removes it from the parts and returns it |
| LayoutApi.InsertPart | vicmil_lib/N1_vicmil_std_lib/M2_std_lib_other/L2_user_interface.h:87-91 | insert_part succeeds exactly when the part is a live orphan and the element is live; it inserts the part at index and clears its orphan flag |
| LayoutApi.PartsDeleteAll | vicmil_lib/N1_vicmil_std_lib/M2_std_lib_other/L2_user_interface.h:66-68 | parts_delete_all erases every part and leaves the element with none |
| LayoutApi.PartsAlign | vicmil_lib/N1_vicmil_std_lib/M2_std_lib_other/L2_user_interface.h:11-27 | parts_align fails when the three vectors differ in length or the element is deleted; otherwise it sets the parts count and runs the _PartsAlign mover |
| LayoutApi.PartsDivideBySize | vicmil_lib/N1_vicmil_std_lib/M2_std_lib_other/L2_user_interface.h:28-45 | parts_divide_by_size fails when the vectors differ in length or the element is deleted; otherwise it sets the parts count and runs the _PartsDivideBySize mover |
| ElementPoolGrowth.EraseHandles | vicmil_lib/N1_vicmil_std_lib/M2_std_lib_other/L1_user_interface_implementation.h:42-47 | delete_all_parts on a destroyed copy only frees slots, leaves every part handle expired, and changes nothing when no part was live (also lines 120-127 of L11_data_structures.h) |
| ElementPoolGrowth.DestroyCopies | vicmil_lib/N1_vicmil_std_lib/M2_std_lib_other/L1_user_interface_implementation.h:52-55 | destroying the old copies only frees slots and only appends deleted alerts; every part held by an element in use is expired afterwards and each such element has fired deleted; with no live held parts the keys are unchanged |
| ElementPoolGrowth.AssertFreeExistsAsWritten | vicmil_lib/N1_vicmil_std_lib/M1_std_lib_general/L11_data_structures.h:38-63 | _assert_free_exists as written: an empty pool or a full one grows to the doubled capacity with free new slots, next_free at the old size and a positive free count; otherwise nothing changes; the old data are kept, the old keys only lose live slots, and only deleted alerts are added |
| ElementPoolGrowth.GrowthErasesHeldParts | vicmil_lib/N1_vicmil_std_lib/M1_std_lib_general/L11_data_structures.h:47-62 | a growth of a full pool keeps every copy's data but expires every part held by an element in use, and each element in use fires deleted |
| ElementPoolGrowth.GrowthWithoutHeldPartsKeepsKeys | vicmil_lib/N1_vicmil_std_lib/M1_std_lib_general/L11_data_structures.h:47-62 | when no element in use holds a live part, the growth as written agrees with the corrected growth: the old keys are kept and the new half is free with allocation number 1 |
| ElementPoolGrowth.PushAsWritten | vicmil_lib/N1_vicmil_std_lib/M1_std_lib_general/L11_data_structures.h:64-79 | push as written (also lines 129-139): on success the allocation count goes up by one, the new handle is live and holds the value, every other slot keeps its data, and only deleted alerts are added; a push into an empty or full pool always succeeds |
| ElementPoolGrowth.GrowPartsAsWritten | vicmil_lib/N1_vicmil_std_lib/M2_std_lib_other/L1_user_interface_implementation.h:72-82 | the growing loop as written: on success the element is live with at least count parts, and when the loop ran its first part is live; an expired element and the two Asserts are failures |
| ElementPoolGrowth.NewManagerPush | vicmil_lib/N1_vicmil_std_lib/M2_std_lib_other/L1_user_interface_implementation.h:163-167 | the constructor's push into the empty pool puts the window element in slot 0 with allocation number 1 |
| ElementPoolGrowth.FirstPushAsWritten | vicmil_lib/N1_vicmil_std_lib/M1_std_lib_general/L11_data_structures.h:47-62 | the first part's push on a new manager doubles the pool to 2 slots, fires deleted for the window, and gives part 1 the handle (1, 2) |
| ElementPoolGrowth.SecondGrowthDestroys | vicmil_lib/N1_vicmil_std_lib/M2_std_lib_other/L1_user_interface_implementation.h:52-55 | destroying the window's old copy erases part 1, and deleted fires for the window and for part 1 |
| ElementPoolGrowth.SecondGrowthAsWritten | vicmil_lib/N1_vicmil_std_lib/M1_std_lib_general/L11_data_structures.h:47-62 | the second part's growth doubles the pool to 4 slots with part 1's slot freed |
| ElementPoolGrowth.SecondGrowthLosesSlotOne | vicmil_lib/N1_vicmil_std_lib/M1_std_lib_general/L11_data_structures.h:55-61 | after that growth slot 1 is marked free but the free list is 2, 3, 4: slot 1 is lost to later pushes |
| ElementPoolGrowth.SecondPushAsWritten | vicmil_lib/N1_vicmil_std_lib/M1_std_lib_general/L11_data_structures.h:64-79 | the second part takes slot 2 with allocation number 3 |
| ElementPoolGrowth.FirstRoundAsWritten | vicmil_lib/N1_vicmil_std_lib/M2_std_lib_other/L1_user_interface_implementation.h:72-82 | the first round of the growing loop gives the window element the live part 1 and goes on |
| ElementPoolGrowth.FirstPartLostInRound | vicmil_lib/N1_vicmil_std_lib/M2_std_lib_other/L1_user_interface_implementation.h:72-81 | a round of the growing loop whose push succeeds and keeps the element live but expires its first part fails the Assert on parts[0] |
| ElementPoolGrowth.TwoPartsFailAsWritten | vicmil_lib/N1_vicmil_std_lib/M2_std_lib_other/L1_user_interface_implementation.h:81 | set_parts_count(window, 2) on a new manager fails the Assert on parts[0] in the second round of the loop |

## Left out

- Amplitudes: the complex arithmetic of `hadamar`, `phase_shift_pi_over_4`, `normalize` and `measure` is passed in as functions on an opaque amplitude type, because floating point is not modelled. Which basis state a random measurement hits is a parameter, because randomness is not modelled.
- QuantumSim.QubitSystem.constructor: requires `qubitCount < 24`. The source instead `Assert`s it at `N1_quantum_simulation.h:60`, which throws in a debug build, so that error path is not modelled.
- BasicMath.UpperPowerOfTwo: requires `x <= 2^30`. Beyond that the source's `int power` overflows while doubling, and signed overflow is undefined behaviour.
- AppConsole.TextConsole.Log: `total_line_count` is an unbounded integer here. The source's `int` would overflow after 2^31 lines, and that wrap-around is not modelled.
- AppConsole.TextConsole.GetBufferIndex: requires a buffer of at least one slot. A zero `buffer_size` divides by zero in the source.
- PlotCircuit.PlotCircuitInterface.UpdateQubitCount: the program calls `get_qubit_count()`, `set_qubit_setting(qubit, op, s)`, `slim()`, `run_operation` and `MAX_QUBIT_COUNT` from a later circuit API than `N2_circuit.h` provides. `get_qubit_count()` is modelled as the highest used qubit plus one over the `N2_circuit.h` circuit, and `MAX_QUBIT_COUNT` is a constructor parameter.
- PlotCircuit.PlotCircuitInterface.Click: `circuit.slim()` and `run_system()`, which `main.cpp` calls after the handlers, are not modelled. Their definitions are not in the shipped sources. `run_system` also simulates, logs and draws, none of which belongs to the editor's state.
- WindowTree.Share: the share of a window whose siblings weigh 0 in total is 0 here. The source divides by `tot_weight` (`L9_other.h:364,371`) and gets infinite or NaN positions.
- Weights and proportions are exact reals, truncated toward zero where the source converts a double to `int`. IEEE rounding is not modelled.
- The legacy `WindowLayout` of `L9_other.h` is modelled on values: a recursive datatype held by a class. The subwindow vectors are not updated in place, so aliasing between subwindows is not modelled.
- `_WindowLayoutElement`'s weight is fixed at 1, because nothing in `L9_user_interface.h` assigns it after construction.
- `std::sort` leaves the order of equal priorities unspecified. The model sorts equal priorities by index, lowest first, so the hiding order among tied priorities is an assumption.
- `set_attached_element`, the `AttachedElement` callbacks and the `_Anchor` classes (`L9_user_interface.h:211,659-814`) are not modelled. They are virtual callbacks into user code.
- The update objects of `L1_user_interface.h` are not modelled: `_Copy`/`Copy`, `_WidgetRect`/`WidgetRect`, `_PropSplit`/`PropSplit`, `_AlignRect`/`AlignRect`, and `LayoutRectWidget`'s split, align and copy calls. The same goes for `Directory`, `_DropDown` and the `__layout2__` namespace. A layout rectangle's notification of its update object is recorded in an event log instead. `_SizeSplit::update`, which places rectangles, is modelled (`Widgets.LayoutRectManager.UpdateSizeSplit`). `_PropSplit` divides by floating-point proportions.
- `_PartsDivideByProportion` and `parts_divide_by_proportion` (`L1_user_interface_implementation.h:233-262`, `L2_user_interface.h:46-65`) are not modelled. They divide by double proportions.
- `LayoutElementAlert` callbacks are recorded as an alert log instead of being called.
- `LayoutElement::set_alert` replaces a user object and is not modelled. The `LayoutElementManager` wrapper of `L2_user_interface.h:116-140` is not modelled either: it only forwards to `_LayoutElementManager` (modelled) or returns one of its fields.
- LayoutApi.ExtractPart: requires the index to be in range. The source's `vec_remove` on an index out of range is undefined behaviour.
- LayoutApi.InsertPart: requires the index to be in range, for the same reason.
- LayoutApi.VecInsert: `vec_insert` is not in the shipped sources. It is assumed to insert the element before position `pos`.
- `list_ptr` handles and `weak_ptr` expiry are modelled by the identity of the list entry or pool slot. Destructors that unlink an entry are explicit `Remove`/`Erase` calls The destruction of the old copies when the element pool grows is not such a call; it is modelled separately in `ElementPoolGrowth`.
- LayoutElements.PushFrame: the push it states leaves every other live element and its parts as they were: the corrected pool growth is assumed, which keeps the old copies whole. The source's growth destroys the old copies, which erases the parts of every element in use (see the findings and `ElementPoolGrowth`).
- LayoutElements.GrownStep: the loop invariant it keeps, with the first part staying live, holds for the corrected growth only. As written, a push that grows the pool expires the parts already added (see the findings).
- LayoutElements.GrownOutcome: the first part stays live only under the corrected growth. As written, the second part's push on a new manager expires the first part (`ElementPoolGrowth.TwoPartsFailAsWritten`).
- LayoutElements.SetPartsCountFrame: that every other live element is unchanged holds for the corrected growth only. As written, a growth during the loop erases the parts of every element in use.
- LayoutElements.LayoutElementManager.PushElement: the push changes no other live slot only because the pool's growth keeps the old copies whole, as the code evidently means. The source's growth destroys the old copies, which erases the parts of every element in use (see the findings and `ElementPoolGrowth`).
- LayoutElements.LayoutElementManager.AddPart: it relies on the corrected growth through `PushElement`, so a turn that grows the pool keeps the parts already added. The source's turn erases them.
- LayoutElements.LayoutElementManager.GrowParts: its success and its live first part hold for the corrected growth. As written, the loop fails the Assert on parts[0] as soon as a push grows the pool while the element already holds a part.
- LayoutElements.LayoutElementManager.SetPartsCount: its success condition is stated for the corrected growth. As written, `set_parts_count(window, 2)` on a new manager throws at `L1_user_interface_implementation.h:81` (`ElementPoolGrowth.TwoPartsFailAsWritten`).
- LayoutApi.PartsAlign: it sets the parts count through the corrected growth, so a call that needs two or more new parts succeeds here where the source throws on the first growth (see the findings).
- LayoutApi.PartsDivideBySize: the same as `PartsAlign`: the parts count is set through the corrected growth.
- ElementPoolGrowth: the model of the growth as written leaves out three things. The second destruction of a part's copy is left out: the erase in a destroyed copy's `delete_all_parts` destroys the part in place, and the vector destroys it again, which is undefined behaviour. The deleted alerts of the temporary and by-value `_LayoutElement` arguments of `push` are left out. So are the links the erasures write into `_next_free_vec`, which the growth then overwrites. The order of the deleted alerts follows the slots.
- WindowLayoutMap.WindowLayout.UpdateAt: a negative extent is `ok == false`. The source then throws at the `Assert` of `L9_user_interface.h:470` part-way through the update, while the model skips that element's children and carries on, so the layout left behind by a failed update is the model's. The same holds for `SetChildPosition`, `Update`, `SetSize` and `Erase`, which return that `ok`.
- `vec_remove`, `vec_extend`, `align_rect*` and `cut_rect_to_fit` write through references in the source. Here they are functions that return the new value, so aliasing of the written object is not modelled.
- ImagePacking.GetAsciiImages: a character's key is its non-negative code. The source converts a signed `char` to `int`, so codes of 128 and above would give negative keys there; that case is not modelled.
- `GPUTexture` (OpenGL), `TexturePacking` and `TextDrawer` are foreign calls or floating point and are not modelled.
- ModelLoading: `std::stof` is not modelled, so numbers keep their tokens. The regex tokenizer is a parameter that gives each line's tokens, and reading a file is a `readLines` parameter.
- An `Assert` or `ThrowError` in the source is a `Failure` result, a `false` ok flag where the entry names it above (`UpdateAt`), or a `requires` clause where the entry names it above.
- `Print`, `Debug` and the trace macros write to the console only and are not modelled. Timers and the clock are not modelled either.

## Findings

| source | as written | input that shows it | evidently intended | confidence | as-written member | corrected member |
|---|---|---|---|---|---|---|
| releases/N1_plot_quantum_circuit/main.cpp:139 | `in_range(char_x, 0, gate_settings.size()*4)` is inclusive at both ends, so column 20 passes and selects setting 20 / 4 = 5 | a click at column 20 of the settings line; there are only settings 0 to 4 | accept only the columns of the 18-character settings line, so the selection is a valid setting | high (not executed) | PlotCircuit.PlotSelectionAsWrittenOutOfRange | PlotCircuit.PlotCircuitInterface.CheckSettingSelectionPressed |
| source/N2_circuit.h:264 | the same inclusive bound in the earlier editor | a click at column 20 of the settings line gives setting 5 | the selection stays a valid setting | high (not executed) | Circuit.SettingSelectionAsWrittenOutOfRange | Circuit.QuantumCircuitInterface.CheckSettingSelectionPressed |
| vicmil_lib/N3_vicmil_opengl/M1_opengl_general/L6_data_layout.h:21 | `ColorF3(glm::dvec3)` sets `g = color.b`, so a colour read from an MTL `Kd` line loses its green channel | `Kd 0 1 0` is read as (0, 0, 0) | each channel from its own token, so a colour reads back as written | high (not executed) | ModelLoading.GreenIsLostAsWritten | ModelLoading.ColorRoundTrip |
| vicmil_lib/N3_vicmil_opengl/M3_opengl_app/L3_image_packing.h:16-17 | `_set_image_pixels` asserts `max_x < width`, but `rect_packing_pow2_sq` can place an image whose right edge is the packed image's edge | one 8×1 image: the grid is 8, the image sits at x = 0 and ends at 8 | a rectangle may end at the packed image's edge (`<=`) | high (not executed) | ImagePacking.OneWideImageFailsStrictCheck | ImagePacking.PackedPlacementsPassChecks |
| vicmil_lib/N1_vicmil_std_lib/M2_std_lib_other/L1_user_interface_implementation.h:83 | `set_parts_count` ends by checking `parts[0]`, also when the count is 0 and `parts` is empty | `parts_align({}, {}, {})`, which sets the part count to 0 | check the first part only when there is one | high (not executed) | LayoutElements.ZeroCountReadsEmptyParts | LayoutElements.LayoutElementManager.SetPartsCount |
| vicmil_lib/N1_vicmil_std_lib/M2_std_lib_other/L1_user_interface.h:80-82 | `Widget::create_widget` returns `Widget(_ptr)`, a second handle to the same widget, although its comment promises a new widget | moving the "created" widget moves the original one | create a new widget in the same manager | medium (not executed) | Widgets.CreateWidgetAsWrittenAliases | Widgets.WidgetManager.CreateWidgetFrom |
| vicmil_lib/N1_vicmil_std_lib/M1_std_lib_general/L11_data_structures.h:47-62 | `_assert_free_exists` grows the vectors with `resize`; `_LayoutElement` has a user-declared destructor and so is copied, and destroying the old copies fires deleted and erases every part held by an element in use | `set_parts_count(window, 2)` on a new `_LayoutElementManager`: the second part's push grows the pool from 2 to 4 slots, which expires the first part, so `Assert(!parts[0].expired())` at `L1_user_interface_implementation.h:81` throws | growing the pool keeps the elements and their parts, so pushing a part never expires another | medium (not executed); the exact alerts depend on `std::vector`'s reallocation, and the double destruction is undefined behaviour | ElementPoolGrowth.TwoPartsFailAsWritten | LayoutElements.LayoutElementManager.GrowParts |
