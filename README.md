# Programming Rust exercises, modelled in Dafny

The repository is a set of chapter-by-chapter exercises from *Programming
Rust*. Most of each chapter prints library behaviour. What has logic of its
own is modelled here, one Dafny module per chapter:

- **Mandelbrot, 02_concurrency** (`mandelbrot.dfy`, `render.dfy`):
  - `parse_pair`, instantiated with Rust's integer `from_str`.
  - `escape_time` over an abstract orbit: an uninterpreted step, an uninterpreted "exceeds the bound" test and a starting point. Its two iterator variants are related to it.
  - `pixel_to_point` on exact reals.
  - The `render` loop over a flat pixel buffer.
  - The band partition in `main`: `rows / threads + 1` rows per band, then `chunks_mut`. Each band is rendered with its own viewport corners.
- **Queue and extrema, 09_structs** (`structs.dfy`): the two-vector FIFO `Queue<T>` as a class, the `find_extrema*` scans, and `chob`.
- **Search tree, 10_enums** (`enums.dfy`): `BinaryTree<T>::add`, with `T` the string type used in `main`.
  - On values, a `Tree` datatype with `Insert`.
  - In place, `BinaryTree`/`TreeNode` objects whose `Add` rewrites the tree and is proved to agree with `Insert`.
- **Line parsing, 06_error_handling** (`error_handling.dfy`): `read_numbers` over a sequence of line-read results, and the display of `ParseLineError`.
- **Image rows, 12_overloading** (`overloading.dfy`): `Image::new` and the row slices that `Index`/`IndexMut` hand out.
- **Utility traits, 13_utility_traits** (`utility_traits.dfy`):
  - `Selector`, which dereferences to its current value
  - the `Default` values
  - the saturating `try_into` fallback
- **Closures, 14_closures** (`closures.dfy`): the stable descending sort, `call_twice` and the `update_population` closure.
- **Iterators, 15_iterators** (`iterators.dfy`):
  - `MyRange`
  - the two Fibonacci generators
  - the four sums of `main`
  - the `lines`/`trim`/`filter` pipeline
  - `by_ref().take_while(..)`
- **Vote counting, 16_collections** (`collections.dfy`): the two `entry` loops.
- **Minimum and sub-slice, 05_reference_safety** (`reference_safety.dfy`): `smallest`, and writing through `&mut w[1..]`.
- **Work lists and pipeline, 19_conc_par** (`conc_par.dfy`):
  - `get_filenames`
  - the work-list split of `process_files_handles` and its threads, run one after another
  - the channel pipeline as its sequential result
- **Shared modules:**
  - `Wrappers`: `Option` and `Result`.
  - `Decimal`: integer `from_str`, with its error kinds and messages, and `{}` formatting of naturals.
  - `Slices`: `slice::chunks` and the division facts about it.

Threads and channels are modelled by their sequential result. A thread
becomes a method call; a channel becomes the sequence of values sent on it.
The reader of `read_numbers` and the `read_file` of the pipeline are
parameters.

## Model

| member | source | states |
|---|---|---|
| Mandelbrot.Find | 02_concurrency/src/main.rs:14 | `str::find`: `None` exactly when the character is absent; otherwise the character index of its first occurrence |
| Mandelbrot.ParsePair | 02_concurrency/src/main.rs:13-21 | with no separator in the string the result is `None` |
| Mandelbrot.ParsePairAt | 02_concurrency/src/main.rs:16-19 | splitting at the first separator: `Some((l, r))` exactly when both halves parse, `None` otherwise |
| Mandelbrot.ParsePairExamples | 02_concurrency/src/main.rs:25-28 | the four test vectors: `""` and `"10,"` give `None`; `"10,20"` and `"10x20"` with `'x'` give `Some((10, 20))` |
| Mandelbrot.ParsePairMissingSecond | 02_concurrency/src/main.rs:26 | `"10,"` has nothing after the separator, so it gives `None` |
| Mandelbrot.ParsePairBoth | 02_concurrency/src/main.rs:27-28 | `"10"`, a separator other than a digit, `"20"` gives `Some((10, 20))` |
| Mandelbrot.ParseBounds | 02_concurrency/src/main.rs:215 | parsed image dimensions are `usize` values |
| Mandelbrot.ParsePairRange | 02_concurrency/src/main.rs:215 | any pair parsed as `usize` lies in `0..=usize::MAX` |
| Mandelbrot.FirstEscapeFromSpec | 02_concurrency/src/main.rs:84-93 | the search from step `from` finds the escape step when there is one below the limit, and otherwise finds no escape before the limit |
| Mandelbrot.EscapeIndexSpec | 02_concurrency/src/main.rs:84-93 | `Some(i)` exactly when `i < limit`, z_{i+1} exceeds the bound and no earlier z_{j+1} does; `None` exactly when no z_{i+1} with `i < limit` does |
| Mandelbrot.EscapesAtUnique | 02_concurrency/src/main.rs:84-93 | the escape step, when there is one, is unique |
| Mandelbrot.EscapeTime | 02_concurrency/src/main.rs:84-93 | the `for i in 0..limit` loop returns the first escape step, or `None` when the orbit stays bounded for `limit` steps |
| Mandelbrot.TakeSuccessors | 02_concurrency/src/main.rs:120-121 | `successors(..).take(n)` yields exactly `n` values |
| Mandelbrot.TakeSuccessorsOrbit | 02_concurrency/src/main.rs:120-121 | element k of `successors(Some(zero), step).take(n)` is z_k of the orbit |
| Mandelbrot.Position | 02_concurrency/src/main.rs:122 | `Iterator::position`: the index of the first element satisfying the predicate, `None` when there is none |
| Mandelbrot.Enumerate | 02_concurrency/src/main.rs:147 | `enumerate` pairs each element with its index |
| Mandelbrot.OrbitPrefixAt | 02_concurrency/src/main.rs:145-146 | the taken prefix holds z_0 .. z_{limit-1} |
| Mandelbrot.FindFirstEnumerate | 02_concurrency/src/main.rs:147-148 | `enumerate().find(p on the value)` returns the pair at `position(p)`, and `None` when `position` does |
| Mandelbrot.FindFirstEnumerateFrom | 02_concurrency/src/main.rs:147-148 | the same for an enumeration that starts at any offset |
| Mandelbrot.IterVariantsAgree | 02_concurrency/src/main.rs:118-150 | `escape_time_iter` and `escape_time_iter_other` return the same result for every point and limit |
| Mandelbrot.IterVersusLoop | 02_concurrency/src/main.rs:118-124 | the iterator variants equal `escape_time` except when the first escape is at the last step `limit - 1`, where they return `None` |
| Mandelbrot.IterMissesLastStep | 02_concurrency/src/main.rs:143-150 | for c = 2 with limit 2, `escape_time` gives `Some(1)` but both iterator variants give `None` |
| Mandelbrot.IterCorrectedAgrees | 02_concurrency/src/main.rs:143-150 | with `take(limit + 1)` the iterator formulation equals `escape_time` for every point and limit |
| Mandelbrot.EscapeTimeOfTwo | 02_concurrency/src/main.rs:96-103 | for the quadratic map on exact complex numbers, c = 2 escapes at step 1 within 10 steps, in all three formulations |
| Mandelbrot.OrbitOfTwo | 02_concurrency/src/main.rs:98-102 | the orbit of c = 2 reaches 2 and then 6 |
| Mandelbrot.SmallOrbit | 02_concurrency/src/main.rs:104-113 | the orbit of c = 0.00011 stays in a small real interval |
| Mandelbrot.SmallStep | 02_concurrency/src/main.rs:104-113 | one step from that interval stays in it, and no point of it exceeds the bound |
| Mandelbrot.EscapeTimeNearCardioid | 02_concurrency/src/main.rs:104-113 | c = 0.00011 gives `None` within 10 steps, in all three formulations |
| Mandelbrot.NearCardioidStaysSmall | 02_concurrency/src/main.rs:104-113 | c = 0.00011 never escapes, whatever the limit |
| MandelbrotRender.PixelToPointExample | 02_concurrency/src/main.rs:68-82 | pixel (25, 175) of a 100x200 image of the square from -1+1i to 1-1i maps to -0.5-0.75i |
| MandelbrotRender.BandViewport | 02_concurrency/src/main.rs:243-245 | a band's own corners map its local pixel (c, r) to the point of global pixel (c, top + r) |
| MandelbrotRender.BandImage | 02_concurrency/src/main.rs:242-248 | the picture `render` draws for a band, with its own bounds and corners, is the whole image's picture from row `top` on |
| MandelbrotRender.IntensityOfPoint | 02_concurrency/src/main.rs:177-182 | a pixel is 0 exactly when the point does not escape within 255 steps, and `255 - i` when it escapes at step i |
| MandelbrotRender.IntensityMonotone | 02_concurrency/src/main.rs:181 | a later escape gives a darker, but non-zero, pixel |
| MandelbrotRender.PictureRow | 02_concurrency/src/main.rs:175-183 | one row of the picture has `columns` bytes |
| MandelbrotRender.Picture | 02_concurrency/src/main.rs:174-184 | the whole picture has `columns * rows` bytes |
| MandelbrotRender.PictureAt | 02_concurrency/src/main.rs:177 | index `row * columns + column` is in bounds and holds the shade of pixel (column, row) |
| MandelbrotRender.PictureIndex | 02_concurrency/src/main.rs:177 | every index k holds the shade of pixel (k % columns, k / columns), so each index is written exactly once |
| MandelbrotRender.PictureExt | 02_concurrency/src/main.rs:176 | two pixel-to-point maps that agree on the grid render the same picture |
| MandelbrotRender.PictureSplit | 02_concurrency/src/main.rs:174 | the first `top + height` rows are the first `top` rows followed by the next `height` rows |
| MandelbrotRender.Render | 02_concurrency/src/main.rs:167-186 | the nested loop writes the picture into its window of the buffer and leaves every byte outside the window unchanged |
| MandelbrotRender.RowsPerBand | 02_concurrency/src/main.rs:226 | `rows / threads + 1` is positive and `rows_per_band * threads > rows` |
| MandelbrotRender.BandArithmetic | 02_concurrency/src/main.rs:240 | a band that starts inside the buffer starts at a row below `rows`, and its length is `columns` times its height |
| MandelbrotRender.BandShape | 02_concurrency/src/main.rs:236-242 | band i starts at row `rows_per_band * i < rows`; its height `band.len() / columns` is exact and positive |
| MandelbrotRender.BandSlice | 02_concurrency/src/main.rs:233-242 | band i is the buffer slice of rows `[top, top + height)` |
| MandelbrotRender.BandsCoverRows | 02_concurrency/src/main.rs:226-233 | the bands together reach every row |
| MandelbrotRender.BandCountBound | 02_concurrency/src/main.rs:226-233 | there are at most `threads` bands |
| MandelbrotRender.TwelveRowsSixBands | 02_concurrency/src/main.rs:220-233 | with 12 threads a 12-row image has 2 rows per band and only 6 bands |
| MandelbrotRender.RenderBand | 02_concurrency/src/main.rs:243-249 | rendering one band with its own corners extends the finished prefix of the picture by that band's rows and leaves every byte after the band unchanged |
| MandelbrotRender.BandsAccumulate | 02_concurrency/src/main.rs:236-250 | a finished prefix followed by the next band's rows is the longer finished prefix |
| MandelbrotRender.NextBand | 02_concurrency/src/main.rs:239-242 | the next band starts where this one ends, or at the last row |
| MandelbrotRender.RenderBands | 02_concurrency/src/main.rs:225-253 | rendering every band from the partition leaves the same buffer as one `render` over the whole image |
| MandelbrotRender.RenderImage | 02_concurrency/src/main.rs:218-253 | single-threaded or banded, the buffer ends as the whole picture; a zero-width image on several threads is the `chunks_mut(0)` panic, as an `Err` |
| Slices.Chunks | 19_conc_par/src/main.rs:59 | `chunks` yields no chunks exactly for an empty slice |
| Slices.FlattenChunks | 02_concurrency/src/main.rs:233 | the chunks concatenate back to the slice |
| Slices.ChunkAt | 02_concurrency/src/main.rs:233 | chunk k is the slice from `k * size` to `min(k * size + size, len)` |
| Slices.ChunkLength | 02_concurrency/src/main.rs:231-233 | every chunk is non-empty and at most `size` long; all but the last are exactly `size` long |
| Slices.ChunkCount | 19_conc_par/src/main.rs:57-59 | there are `(len + size - 1) / size` chunks |
| Slices.ChunksCover | 02_concurrency/src/main.rs:233 | the chunk count times `size` reaches the slice length |
| Slices.ChunkCountBound | 19_conc_par/src/main.rs:57-59 | a slice of at most `size * m` elements gives at most `m` chunks |
| Slices.ChunkElement | 02_concurrency/src/main.rs:233 | element j is element `j % size` of chunk `j / size`, so each element lies in exactly one chunk |
| Slices.ChunkPosition | 02_concurrency/src/main.rs:233 | element r of chunk k is element `k * size + r` of the slice |
| Decimal.NatToString | 19_conc_par/src/main.rs:17 | `{}` of a natural number is a non-empty string of decimal digits |
| Decimal.ParseInteger | 06_error_handling/src/main.rs:28 | integer `from_str` returns only values of the target type, and the `Empty` error exactly for the empty string |
| Decimal.ParseNatToString | 06_error_handling/src/main.rs:28 | parsing the decimal form of a number in range gives the number back |
| Decimal.ParseNegatedNatToString | 06_error_handling/src/main.rs:28 | the same for `-` followed by the decimal form, on a signed type |
| Decimal.ParseRejectsNonDigit | 06_error_handling/src/main.rs:28-32 | a character that is not a digit (other than a leading sign) makes parsing fail |
| Decimal.AccumulateAppend | 06_error_handling/src/main.rs:28 | parsing digits `a + b` continues from the value reached after `a`, or stops with `a`'s error |
| Structs.Reverse | 09_structs/src/main.rs:76 | `Vec::reverse`: element i becomes element `len - 1 - i` |
| Structs.Queue.constructor | 09_structs/src/main.rs:50-55 | `new` makes both vectors, and so the queue, empty |
| Structs.Queue.Push | 09_structs/src/main.rs:58-60 | `push` appends to the back of the queue; `older` is unchanged |
| Structs.Queue.IsEmpty | 09_structs/src/main.rs:63-65 | `is_empty` is true exactly when the queue holds no element |
| Structs.Queue.Pop | 09_structs/src/main.rs:68-81 | on an empty queue, `None` and no change. Otherwise it returns and removes the front (FIFO). With `older` empty, `younger` moves over reversed and `younger` becomes empty |
| Structs.Queue.Split | 09_structs/src/main.rs:83-85 | `split` returns the two stored vectors unchanged; `older` reversed, then `younger`, is the queue |
| Structs.QueueDemo | 09_structs/src/main.rs:195-207 | the trace of `main`: not empty after two pushes; pops give '0', '1', '=' and then `None`; empty at the end |
| Structs.SplitDemo | 09_structs/src/main.rs:212-223 | after pushing '0', '1', '2', one pop and pushing '=', `split` yields (['2', '1'], ['=']) |
| Structs.BoxedQueueDemo | 09_structs/src/main.rs:228-233 | the boxed queue is empty when new and not after a push |
| Structs.FindExtremaRef | 09_structs/src/main.rs:99-114 | on a non-empty slice, the positions of a least and a greatest element; strict comparisons make each the first such position |
| Structs.FindExtrema | 09_structs/src/main.rs:123-138 | on a non-empty slice, `least` and `greatest` occur in it and bound every element |
| Structs.Chob | 09_structs/src/main.rs:28-41 | both halves have height `height / 2` and names `name + " I"` and `name + " II"`; every other field is copied |
| Structs.ChobDemo | 09_structs/src/main.rs:177-190 | chobbing the 60-high "BROOM" gives "BROOM I" and "BROOM II", each 30 high |
| Enums.CmpEqual | 10_enums/src/main.rs:52 | string `cmp` is `Equal` exactly for equal strings |
| Enums.CmpFlip | 10_enums/src/main.rs:52 | `a.cmp(b)` is `Less` exactly when `b.cmp(a)` is `Greater`, and the converse |
| Enums.Insert | 10_enums/src/main.rs:39-60 | `add` leaves a non-empty tree whose elements are the old elements and the value |
| Enums.InsertEmpty | 10_enums/src/main.rs:43-49 | adding to `Empty` gives one node holding the value between two `Empty` children |
| Enums.InsertPresent | 10_enums/src/main.rs:55 | adding a value already in a search tree leaves the tree unchanged |
| Enums.InsertKeepsBst | 10_enums/src/main.rs:52-54 | descending right for a larger value and left for a smaller one keeps the search-tree order |
| Enums.SizeIsElementCount | 10_enums/src/main.rs:16-26 | a search tree has as many nodes as distinct elements |
| Enums.InsertSize | 10_enums/src/main.rs:39-60 | the size grows by one exactly when the value was absent |
| Enums.TreeNode.constructor | 10_enums/src/main.rs:22-26 | a node holds its element and owns its two subtrees |
| Enums.BinaryTree.constructor | 10_enums/src/main.rs:17 | a new tree is `Empty` |
| Enums.BinaryTree.Add | 10_enums/src/main.rs:40-59 | the in-place `add` turns the tree into `Insert(old tree, value)`, allocating only new nodes |
| Enums.PlanetTree | 10_enums/src/main.rs:87-124 | the planet tree is a search tree. "Earth" is added left of Jupiter, and adding it again changes nothing. Its size grows by one |
| Enums.SaturnIsBst | 10_enums/src/main.rs:87-116 | the tree built in `main` satisfies the search-tree order |
| ErrorHandling.ReadNumbers | 06_error_handling/src/main.rs:24-40 | `Ok` with every line's number in order when all lines read and parse. Otherwise the first failing line's error: an I/O error unchanged, a parse error with the parser's message, the line and its 1-based number. Numbers read before it are dropped |
| ErrorHandling.PositionAt | 06_error_handling/src/main.rs:26-36 | the first failing line is the one every earlier line gets past |
| ErrorHandling.NoFailure | 06_error_handling/src/main.rs:26-39 | when no line fails there is no failing line |
| ErrorHandling.ReadNumbersInRange | 06_error_handling/src/main.rs:28-29 | every number read fits an `i32` |
| ErrorHandling.ReadNumbersDemo | 06_error_handling/src/main.rs:24-40 | lines "12", "-7", "0" give `Ok([12, -7, 0])` |
| ErrorHandling.ReadNumbersBadLineDemo | 06_error_handling/src/main.rs:28-36 | with "x1" on line 3, the error is "invalid digit found in string" on line 3, and the unreadable fourth line is never reached |
| ErrorHandling.DisplayBadLine | 06_error_handling/src/main.rs:16 | that error displays as its message in quotes, then ` on line 3: 'x1'`; with the message above, `'invalid digit found in string' on line 3: 'x1'` |
| Overloading.Image.constructor | 12_overloading/src/main.rs:9-15 | `new` stores width and height and makes `width * height` pixels, all the default |
| Overloading.Image.Row | 12_overloading/src/main.rs:21-24 | `image[row]` is the `width` pixels from `row * width` on; it requires the row to lie inside the buffer |
| Overloading.Image.Set | 12_overloading/src/main.rs:30-33 | `image[row][column] = value` changes only pixel `row * width + column`, and so only that cell of that row |
| Overloading.RowsDisjoint | 12_overloading/src/main.rs:21-33 | cells of distinct rows are distinct buffer indices |
| Overloading.ImageDemo | 12_overloading/src/main.rs:37-53 | after `main`'s writes row 0 holds 1..10, the other 90 pixels are still 0, and `image[0][10]` is out of bounds |
| Overloading.FirstRowWritten | 12_overloading/src/main.rs:37-47 | the ten writes `image[0][k] = k + 1` leave the first row 1..10 and the other 90 pixels 0 |
| UtilityTraits.Selector.constructor | 13_utility_traits/src/main.rs:184-187 | a selector holds its current index and its values |
| UtilityTraits.Selector.Deref | 13_utility_traits/src/main.rs:35-37 | `*s` is one of the values. It is `values[current]`, and requires `current` to be in range |
| UtilityTraits.Selector.Assign | 13_utility_traits/src/main.rs:40-42 | `*s = value` replaces `values[current]` only; `current` and the other values are unchanged, and `*s` is then `value` |
| UtilityTraits.SelectorDemo | 13_utility_traits/src/main.rs:184-203 | `*s` is "one", then "two", whose `[1..]` is "wo"; after `*s = "three"` the values are ["one", "three"]; index 10 selects nothing |
| UtilityTraits.DefaultParamsValues | 13_utility_traits/src/main.rs:55-64 | `Params::default()` is "default", active, 640 by 480, depth 1 |
| UtilityTraits.ParamsWith | 13_utility_traits/src/main.rs:215-219 | struct update sets name and width and keeps every other field of the default |
| UtilityTraits.ParamsWithDemo | 13_utility_traits/src/main.rs:215-219 | `Params { name: "Width: 1080", width: 1080, ..default }` keeps active, 480 and 1 |
| UtilityTraits.DefaultValues | 13_utility_traits/src/main.rs:68-73 | the derived default has a, b and c all zero |
| UtilityTraits.TryIntoI16 | 13_utility_traits/src/main.rs:272 | `try_into::<i16>` succeeds exactly for values in the `i16` range, keeping the value |
| UtilityTraits.SaturatingI16Spec | 13_utility_traits/src/main.rs:271-278 | the fallback result is an `i16`: the value itself when it fits, `i16::MAX` when it does not |
| UtilityTraits.TwoTrillionSaturates | 13_utility_traits/src/main.rs:271-279 | 2 000 000 000 000 converts to 32767 |
| ReferenceSafety.Smallest | 05_reference_safety/src/main.rs:1-9 | on a non-empty slice, the position of an element no larger than any other, and the first such position |
| ReferenceSafety.SmallestDemo | 05_reference_safety/src/main.rs:12-17 | the smallest of [1, 2, 3, 4, 5] is 1, and -10 after `v[2] = -10` |
| ReferenceSafety.SubSlice.constructor | 05_reference_safety/src/main.rs:21 | `&mut w[1..]` is a window on `w` starting at index 1 |
| ReferenceSafety.SubSlice.View | 05_reference_safety/src/main.rs:21 | `r[k]` is `w[k + 1]`, and `r` holds the rest of `w` |
| ReferenceSafety.SubSlice.Set | 05_reference_safety/src/main.rs:26 | `r[k] = value` changes `w[k + 1]` only |
| ReferenceSafety.SubSlice.Replace | 05_reference_safety/src/main.rs:22 | `mem::replace(&mut r[k], value)` returns the displaced value and changes `w[k + 1]` only |
| ReferenceSafety.SubSliceDemo | 05_reference_safety/src/main.rs:19-32 | `mem::replace` displaces 2; `r` becomes [10, 20, 4, 5] and `w` [1, 10, 20, 4, 5] |
| Closures.InsertByKey | 14_closures/src/main.rs:12 | inserting one city adds exactly that city to the multiset |
| Closures.SortByKey | 14_closures/src/main.rs:12 | `sort_by_key` returns a permutation of its input |
| Closures.SortIsSorted | 14_closures/src/main.rs:12 | the sorted result is ordered by the key |
| Closures.SortIsStable | 14_closures/src/main.rs:12 | cities with equal keys keep their relative order |
| Closures.InsertKeepsSorted | 14_closures/src/main.rs:12 | inserting into a list ordered by the key keeps it ordered |
| Closures.InsertWithKey | 14_closures/src/main.rs:12 | an inserted city goes in front of every city with the same key |
| Closures.SortByKeyCongruent | 14_closures/src/main.rs:17-19 | two key functions that agree on every city sort every list the same way |
| Closures.SortedCities | 14_closures/src/main.rs:11-13 | a permutation of the input with non-increasing populations, and cities of equal population in their input order |
| Closures.PopulationSorted | 14_closures/src/main.rs:12 | sorting by the key `-population` leaves the populations non-increasing |
| Closures.PopulationStable | 14_closures/src/main.rs:12 | sorting by that key keeps the cities of each population in their input order |
| Closures.SortCities | 14_closures/src/main.rs:11-13 | `sort_cities` sorts the vector in place into that order |
| Closures.StartSortingThread | 14_closures/src/main.rs:16-23 | the thread's `key_fn` sorts the cities into the same order as `sort_cities` |
| Closures.TruncDiv | 14_closures/src/main.rs:58 | Rust's `/` on `i64`: the remainder has the sign of the dividend and is smaller than the divisor |
| Closures.UpdatePopulation | 14_closures/src/main.rs:56-60 | one call of the closure divides every city's population by 100 and changes nothing else |
| Closures.CallTwice | 14_closures/src/main.rs:25-28 | `call_twice` runs the closure twice, so each city is updated twice |
| Closures.ShrunkTwice | 14_closures/src/main.rs:56-61 | two truncating divisions by 100 are one by 10000; names and countries are unchanged |
| Closures.SortedDemo | 14_closures/src/main.rs:31-52 | Dublin, Belfast, London sort to London, Dublin, Belfast |
| Closures.ThreadSortedDemo | 14_closures/src/main.rs:64-68 | the sorting thread, joined, returns London, Dublin, Belfast too |
| Closures.UpdateDemo | 14_closures/src/main.rs:55-62 | after `call_twice(update_population)` the populations are 100, 50 and 1000 |
| Iterators.MyRange.constructor | 15_iterators/src/main.rs:306 | the range holds the given start and end |
| Iterators.MyRange.Next | 15_iterators/src/main.rs:33-41 | below `end`, `Some(start)` and `start` advances by one; otherwise `None` and no change; `end` never changes |
| Iterators.NextTimes | 15_iterators/src/main.rs:26-41 | repeated `next` from `{start: s, end: e}` yields s, s+1, .., e-1 and then `None` for good |
| Iterators.MyRangeDemo | 15_iterators/src/main.rs:306-310 | `{0, 10}` yields 0 and becomes `{1, 10}`; with `start` set to 11 it yields `None` and stays `{11, 10}` |
| Iterators.FibRecurrence | 15_iterators/src/main.rs:15-22 | each generated value is the sum of the two before it |
| Iterators.FibValuesAt | 15_iterators/src/main.rs:17-21 | value k is the second component of the state after k + 1 steps |
| Iterators.FibStateIsLastTwo | 15_iterators/src/main.rs:7-13 | after n values the state is the last two values generated |
| Iterators.Fibonacci.constructor | 15_iterators/src/main.rs:16 | `fibonacci` starts from the state (0, 1) |
| Iterators.Fibonacci.Next | 15_iterators/src/main.rs:17-21 | each call yields `state.0 + state.1` and the state becomes `(state.1, next)` |
| Iterators.FibPair.constructor | 15_iterators/src/main.rs:160 | the caller's state holds the pair it is given |
| Iterators.FibonacciMut.constructor | 15_iterators/src/main.rs:7 | `fibonacci_mut` borrows the caller's state |
| Iterators.FibonacciMut.Next | 15_iterators/src/main.rs:8-12 | the same step, applied to the caller's state |
| Iterators.TakeFibonacci | 15_iterators/src/main.rs:156 | `take(n)` collects the first n values of the sequence |
| Iterators.TakeFibonacciMut | 15_iterators/src/main.rs:159-161 | the same n values, and the caller's state is left n steps on |
| Iterators.FirstTenFibonacci | 15_iterators/src/main.rs:155-161 | from (0, 1), the first ten values are 1, 2, 3, 5, .., 89, the state is left at (55, 89), and nothing overflows a `u64` |
| Iterators.FibonacciDemo | 15_iterators/src/main.rs:155-167 | both generators give [1, 2, 3, 5, 8, 13, 21, 34, 55, 89], and `fibonacci_mut` leaves (55, 89) |
| Iterators.FillWithIndices | 15_iterators/src/main.rs:45-48 | after the loop `a[i] == i` for every index |
| Iterators.SumIndexed | 15_iterators/src/main.rs:52-56 | the indexed `for` loop computes the sum of the array |
| Iterators.FoldFromIsSum | 15_iterators/src/main.rs:60 | folding from index i with the sum so far gives the whole sum |
| Iterators.FoldIsSum | 15_iterators/src/main.rs:60 | the `fold` over the indices, adding `a[i]` to the accumulator, gives the same sum |
| Iterators.SliceIter.constructor | 15_iterators/src/main.rs:73 | `(&a).into_iter()` starts at the front of the array |
| Iterators.SliceIter.Next | 15_iterators/src/main.rs:76 | `next` yields the first remaining element and drops it, or `None` once none remain |
| Iterators.SumExplicitNext | 15_iterators/src/main.rs:66-83 | `for i in &a` and its `while let Some(i) = iterator.next()` expansion compute the same sum |
| Iterators.SumOfIndices | 15_iterators/src/main.rs:45-56 | twice the sum of 0..n is n(n - 1) |
| Iterators.MainSums | 15_iterators/src/main.rs:45-83 | every sum of `main` over the 10 000 indices is 49 995 000 |
| Iterators.SuccessorsAreRange | 15_iterators/src/main.rs:128-130 | `successors` from `from` with the step `i + 1`, taking n values, gives `from, from + 1, ..` |
| Iterators.TrimStart | 15_iterators/src/main.rs:185 | the longest suffix that does not start with whitespace; only whitespace was dropped |
| Iterators.TrimEnd | 15_iterators/src/main.rs:185 | the longest prefix that does not end with whitespace; only whitespace was dropped |
| Iterators.TrimPadded | 15_iterators/src/main.rs:185 | trimming a word padded with whitespace gives the word back |
| Iterators.TrimStartPadded | 15_iterators/src/main.rs:185 | stripping leading whitespace stops at the first non-whitespace character |
| Iterators.TrimEndPadded | 15_iterators/src/main.rs:185 | stripping trailing whitespace stops at the last non-whitespace character |
| Iterators.Lines | 15_iterators/src/main.rs:184 | no line contains a newline |
| Iterators.LinesCons | 15_iterators/src/main.rs:184 | a text starting with a line and `\n` splits into that line, without a `\r` ending, followed by the lines of the rest |
| Iterators.LinesOfCrlfTerminated | 15_iterators/src/main.rs:261-266 | lines each ended by `\r\n` split back into exactly those lines |
| Iterators.MessageLines | 15_iterators/src/main.rs:261-266 | the message of `main` has two header lines, an empty line and two body lines |
| Iterators.Map | 15_iterators/src/main.rs:185 | `map` applies the function to each element, in order |
| Iterators.Filter | 15_iterators/src/main.rs:186 | `filter` keeps only elements of the input that satisfy the predicate, keeps every one that does, and on one element keeps it exactly when it satisfies the predicate |
| Iterators.FilterAppend | 15_iterators/src/main.rs:186 | filtering a concatenation is the concatenation of the filtered parts, so the kept elements stay in input order |
| Iterators.TrimmedLinesLoop | 15_iterators/src/main.rs:191-197 | the explicit `for` loop builds the same vector as the `lines`, `map(str::trim)`, `filter` (dropping "of") pipeline |
| Iterators.TakeWhileNotBlank | 15_iterators/src/main.rs:266-270 | `by_ref().take_while(non-empty)` collects the lines before the first empty line; the iterator resumes after that line, with the empty line consumed |
| Iterators.ByRefDemo | 15_iterators/src/main.rs:261-271 | the headers are "To: jimb" and "From: superego <junk@gmail.com>", and the body is the two lines after the empty one |
| Collections.TallyCounts | 16_collections/src/main.rs:117-124 | the counted names are the names on the ballots, each mapped to its number of occurrences |
| Collections.TallyPositive | 16_collections/src/main.rs:117-132 | every count is at least one |
| Collections.SumCountsRemove | 16_collections/src/main.rs:117-132 | the sum of counts can take any one name's count out first |
| Collections.TallySum | 16_collections/src/main.rs:117-132 | the counts add up to the number of ballots |
| Collections.CountVotesAndModify | 16_collections/src/main.rs:117-124 | the `and_modify(+1).or_insert(1)` loop maps exactly the names that appear to their numbers of occurrences, and the counts sum to `ballots.len()` |
| Collections.CountVotesOrInsert | 16_collections/src/main.rs:127-132 | the `or_insert(0)` then `+= 1` loop gives the same map |
| Collections.BallotNames | 16_collections/src/main.rs:105-112 | the ballots of `main` name bob twice, john once and anna three times, and nobody else |
| Collections.CountingDemo | 16_collections/src/main.rs:105-132 | both loops give {bob: 2, john: 1, anna: 3} |
| ConcPar.FileNameInjective | 19_conc_par/src/main.rs:17 | distinct numbers give distinct `file_{i}.txt` names |
| ConcPar.GetFilenames | 19_conc_par/src/main.rs:10-26 | 100 names; element k is `file_k.txt`, or `file_{99-k}.txt` when reversed |
| ConcPar.FilenamesDistinct | 19_conc_par/src/main.rs:10-26 | the names are pairwise distinct, and the reversed list is the forward list backwards |
| ConcPar.ChunkSize | 19_conc_par/src/main.rs:57-58 | `(n + 7) / 8` is the ceiling of `n / 8`, and zero only for `n == 0` |
| ConcPar.WorklistsPartition | 19_conc_par/src/main.rs:57-59 | the work lists concatenate back to the file names in order; there are at most 8; all are non-empty; all but the last have exactly `chunk_size` names |
| ConcPar.HundredFiles | 19_conc_par/src/main.rs:155-157 | 100 files give a chunk size of 13 and 8 work lists, the last one with 9 names |
| ConcPar.ReadFile | 19_conc_par/src/main.rs:30-32 | `read_file` never fails |
| ConcPar.ProcessFile | 19_conc_par/src/main.rs:34-44 | `process_file` fails with `read_file`'s error, or prints its text |
| ConcPar.FirstFailure | 19_conc_par/src/main.rs:47-52 | the first name that fails to read, with every earlier name read; `None` when all read |
| ConcPar.FirstFailureAt | 19_conc_par/src/main.rs:47-52 | the first failing name is the one every earlier name gets past |
| ConcPar.NoFailure | 19_conc_par/src/main.rs:47-52 | when every name reads there is no failing name |
| ConcPar.ProcessWorklist | 19_conc_par/src/main.rs:47-52 | the names are processed in order, printing each text. Processing stops at the first failure and returns its error; `Ok` when there is none |
| ConcPar.ProcessFilesHandles | 19_conc_par/src/main.rs:55-78 | thread i processes work list i until its first failure; a failing thread does not stop the others, and the result is `Ok` |
| ConcPar.HandlesWithReadFile | 19_conc_par/src/main.rs:30-78 | with the real `read_file` every thread prints `Thread:  i, File: name` for each of its names and succeeds |
| ConcPar.StartFileReadThread | 19_conc_par/src/main.rs:107-123 | the reader thread sends each file's text in order and stops at the first read error |
| ConcPar.StartProcessingThread | 19_conc_par/src/main.rs:126-141 | line k sent on is `proc: k -> ` followed by text k |
| ConcPar.ProcLineNoNewline | 19_conc_par/src/main.rs:133 | a processed line has no newline when its text has none |
| ConcPar.Split | 19_conc_par/src/main.rs:144 | splitting at `\n` yields at least one piece |
| ConcPar.SplitJoin | 19_conc_par/src/main.rs:144 | `join("\n")` of newline-free lines splits back into those lines |
| ConcPar.MergeProcessedTexts | 19_conc_par/src/main.rs:143-147 | the merge always succeeds, and its lines are the received texts in order |
| ConcPar.ChannelsDemo | 19_conc_par/src/main.rs:187-204 | the pipeline over the reversed names succeeds; merged line k is `proc: k -> Thread:  0, File: file_{99-k}.txt` |

## Left out

- Floating point. Complex numbers, `pixel_to_point` and `norm_sqr` are computed on exact reals. `escape_time` and `render` are proved for any step function. Rounding is not modelled.
- `parse_complex` is not modelled, because it parses `f64` values. `ParsePair` is generic and is instantiated with integer parsers only.
- `MandelbrotRender.PixelToPoint` requires both bounds to be positive. The source divides by `bounds as f64`; for a zero bound that gives an infinity or NaN rather than a panic.
- `Mandelbrot.EscapeTimeIter` and `Mandelbrot.EscapeTimeIterOther` require that the starting point does not exceed the bound. Otherwise `position` would return 0 and `(i - 1)` would underflow `usize`. For the quadratic map the start is 0, which never exceeds it.
- `MandelbrotRender.Render` writes `255 - count` for an escape at step `count`. The `count as u8` cast never truncates, because `count < 255`.
- Threads are run one after another, with the order of their writes ignored. This covers the `crossbeam::scope` spawns, `thread::spawn` in 14_closures and 19_conc_par, `JoinHandle::join`, and the `mpsc` channels (a channel's contents are the sequence sent). The bands and work lists are disjoint, so the sequential result is the concurrent one, but that is not proved.
- `ConcPar.Worklists`, `ConcPar.WorklistsPartition`, `ConcPar.ProcessFilesHandles` and `ConcPar.HandlesWithReadFile` require a non-empty list of file names. On an empty list the chunk size is 0 and `chunks(0)` panics; the only caller passes 100 names.
- `ConcPar.StartFileReadThread` and `ConcPar.StartProcessingThread`: the `send(..).is_err()` early exit is not modelled. A send only fails once the receiver has been dropped, and the pipeline never drops it.
- `ConcPar.ProcessFilesHandles` does not model the "Thread panicked" message, only the per-thread results that cause it.
- `process_files_rayon` and `process_files_rayon_map_reduce` are not modelled. They rely on rayon's parallel iterators and always return `Ok(())`.
- I/O:
  - `read_numbers` takes its lines as a sequence of read results, and `read_file` in 19_conc_par is a parameter.
  - stdin, `write_image`/PNG encoding, command-line handling, `env::var` in `get_name`, every `println!`, the colours and `Instant` timing are left out.
- `Iterators.Fibonacci.Next`, `Iterators.FibonacciMut.Next`, `Iterators.TakeFibonacci` and `Iterators.TakeFibonacciMut` require that the sums fit a `u64`. The source panics there in a debug build and wraps in a release build.
- `Overloading.Image.constructor` requires `width * height` to fit a `usize`. The multiplication in `Image::new` would overflow there.
- `Closures.SortCities` and `Closures.StartSortingThread` require that no population is `i64::MIN`, because negating it overflows.
  - The result of `sort_by_key` is computed as a sequence and then written into the array. Std's merge sort is not modelled. A stable sort's result is unique, so the result is the same.
- `ReferenceSafety.Smallest` returns the index of the smallest element in place of the `&i32` reference to it.
- `Structs.FindExtremaRef` returns indices in place of references. `find_extrema` and `find_extrema_ref` are typed over `i64` and `f64` in `main`; the model uses integers, and NaN comparisons are left out.
- `Collections.CountVotesAndModify` also stands for the FNV and AHash loops (16_collections/src/main.rs:155-181), which are the same loop over a map with another hasher. A map's contents do not depend on the hasher, and iteration order is not modelled.
- `Iterators.Lines` follows `str::lines`: a `\r` is dropped only before a `\n`. Offsets count characters, not UTF-8 bytes.
- `Mandelbrot.Find` returns a character index where `str::find` returns a UTF-8 byte offset. `parse_pair` only slices at that offset, so the two halves are the same either way.
- `Enums.Insert`, `Enums.Tree` and `Enums.BinaryTree` fix the element type to strings, the type `main` uses, in place of the generic `BinaryTree<T: Ord>`. `Enums.Cmp` is `Ord::cmp` for strings; another `Ord` type is not modelled.
- The remaining demos of 15_iterators have no logic of their own and are left out: `drain`, `filter_map` over `f64::from_str`, `flat_map`/`flatten` over a `BTreeMap`, `to_uppercase`, `cycle`, `position` on `chars`, the string `fold`, and the "plenty of spaces" text printed by the pipeline.
- 09_structs: `Polynomial::eval` (floating point) and the `Robot`/`Cell`/`Rc` demo are not modelled.
- 10_enums: the `Json` enum and the `Account` pattern-matching demo only print, so they are left out. The "already in the tree" message of `add` is not modelled.
- 13_utility_traits: the `Drop` impl, `describe`/`Cow`, `AsRef`, `Borrow`, the `HashMap` lookups and `ToOwned` are library demos and are left out.
- 16_collections: `less_than_nan`, NaN sorting, `windows` differences, `shuffle` with `thread_rng`, and the `char`/`Cow`/`IpAddr` demos are left out.
- 03_types, 04_ownership, 11_traits, traits and 18_readwriters are not part of this model.

## Findings

| source | as written | input that shows it | evidently intended | confidence | as-written member | corrected member |
|---|---|---|---|---|---|---|
| 02_concurrency/src/main.rs:143-150 | `successors(Some(zero), ..).take(limit as usize)` includes z_0. So the iterator variants see only z_0 .. z_{limit-1}, never z_limit, and miss an escape at the last step `limit - 1` that `escape_time` reports | c = 2 + 0i, limit 2: z_1 = 2 (norm 4, not above 4), z_2 = 6. `escape_time` gives `Some(1)`; `escape_time_iter` and `escape_time_iter_other` give `None` | the same result as `escape_time` for every limit, as the shared test vectors suggest. That needs `take(limit as usize + 1)` | not executed | Mandelbrot.IterMissesLastStep | Mandelbrot.IterCorrectedAgrees |
