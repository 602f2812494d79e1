# Advent of Code 2019, days 3, 4, 6 and 8, in Dafny

This project models four puzzle solvers and proves what they compute.
- **Crossed Wires** (day 3):
  - two wires are traced on an integer grid from a central port;
  - part 1 returns the crossing nearest the port by Manhattan distance;
  - part 2 returns the crossing with the fewest combined steps, counting each cell's first visit.
- **Secure Container** (day 4): counts the integers of a range whose digits never decrease and contain a double. Part 2 also needs some digit that occurs exactly twice.
- **Universal Orbit Map** (day 6):
  - `A)B` lines become a dict from each body to the list of bodies it orbits;
  - direct and indirect orbits are counted recursively;
  - the routes of two objects back to the root give the number of orbital transfers between them.
- **Space Image Format** (day 8):
  - a digit string is cut into layers of `width * height` pixels;
  - a checksum is taken over the layer with the fewest `0` digits;
  - the layers are painted from the bottom up, with `2` transparent.

There is one module per solver: `CrossedWires` (wires.dfy), `SecureContainer` (passwords.dfy), `OrbitMap` (orbits.dfy) and `SpaceImage` (image.dfy). `Wrappers` holds `Option` and a map-over-a-list helper. `Sequences` holds Python's `list.index` and `count`.

How each source construct is modelled:
- **Loops that change state** become methods with loop invariants:
  - the wire tracing;
  - the counting loops of day 4;
  - `parse_input`;
  - `create_image`, `validate` and the painting loop of `draw_image`.
- **Proof against a specification.** Most such methods are proved equal to a specification function, whose meaning is then proved in lemmas. The minimum searches (`ShortestManhattan`, `MinValue`, `CountingSteps`, `Validate`) and `CombinedSteps` are proved instead against contracts that characterise their result, three of them through the predicates `Nearest`, `Fewest` and `FewestAmong`. NearestUnique, FewestSymmetric and FewestUnique show that those predicates leave only one possible result.
- **Pure code** (the recursion and comprehensions of day 6) becomes functions.
- **Containers:**
  - Python sets are Dafny `set`s;
  - dicts are `map`s;
  - an insertion-ordered dict also keeps its key order as a `seq`;
  - the day 8 dict keyed `1..n` is a sequence, where index `k - 1` stands for key `k`.
- **Python exceptions** become `None`:
  - `min` of nothing;
  - `next` on an empty `cycle`;
  - `max` of no keys;
  - a line that does not split in two.

## Model

| member | source | states |
|---|---|---|
| Sequences.IndexOf | day6.py:184 | `list.index`: the result is a position holding the value, and no earlier position holds it |
| Sequences.IndexOfAppend | day6.py:184 | `list.index` on a concatenation: the position in the first part if the value occurs there, otherwise the first part's length plus the position in the second |
| Sequences.Count | day4.py:78 | `s.count(x)`: the occurrences of `x`, counted from the front; its bounds are stated by CountBounds |
| Sequences.CountBounds | day4.py:78 | `count` is at most the length, and it is 0 exactly when the value is absent |
| CrossedWires.MoveShape | day3.py:79-94 | a horizontal move adds only cells of the current row, a vertical move only cells of the current column; the new end point is added, except for a move left or down by 0; any other letter leaves the position and adds nothing |
| CrossedWires.AddMoveCells | day3.py:77-94 | one move updates the position to its end point and adds exactly the cells of its range: the start is left out going left or down and included going right or up |
| CrossedWires.TraceCells | day3.py:76-94 | after a wire's loop, a cell is in the coordinate set exactly when one of the wire's moves added it |
| CrossedWires.CalculateIntersections | day3.py:71-116 | the result holds exactly the cells recorded by both wires |
| CrossedWires.ShortestManhattan | day3.py:119-125 | the result is at most 1000000 and at most the distance of every crossing off both axes; it is 1000000 or the distance of such a crossing, so it is the minimum whenever that is below the cap |
| CrossedWires.NearestUnique | day3.py:119-125 | at most one value meets that description, so the capped minimum is determined by the set |
| CrossedWires.SwapDistance | day3.py:116-127 | calling part 1 with the wires swapped gives the same crossing set and the same distance |
| CrossedWires.SampleDistance | day3.py:127 | for the sample wires, any set and result meeting the contracts of CalculateIntersections and ShortestManhattan give distance 159 |
| CrossedWires.PathSnocIndex | day3.py:174-204 | one more move ends at the move's end point, enters as many cells as its segment has, and the first entry of a cell stays where it was or falls at the move's offset after the earlier cells |
| CrossedWires.SampleWire1Steps | day3.py:60 | the first sample wire first enters (155,4), (155,11), (146,46) and (158,-12) at steps 341, 472, 290 and 206 |
| CrossedWires.SampleWire2Steps | day3.py:61 | the second sample wire first enters them at steps 385, 378, 334 and 404 |
| CrossedWires.SampleSteps | day3.py:247 | for the sample wires, any result meeting the contract of CountingSteps is 610, the combined steps at (158,-12) |
| CrossedWires.SampleWire1Cells | day3.py:60 | the first sample wire records exactly its nine segments, with the range ends of day3.py:79-94 |
| CrossedWires.SampleWire2Cells | day3.py:61 | the second sample wire records exactly its eight segments |
| CrossedWires.StepsLeft | day3.py:177-182 | going left, the step counter rises by the length and the dict gains first visits of the cells `x-1` down to `x-length`, in that order |
| CrossedWires.StepsRight | day3.py:184-189 | going right, the same for the cells `x+1` up to `x+length` |
| CrossedWires.StepsUp | day3.py:191-196 | going up, the same for the cells `y+1` up to `y+length` |
| CrossedWires.StepsDown | day3.py:198-204 | going down, the same for the cells `y-1` down to `y-length` |
| CrossedWires.AddMoveSteps | day3.py:174-204 | one move leaves the position at its end point, and the dict and counter as first visits along the cells the move enters |
| CrossedWires.TraceSteps | day3.py:171-207 | a wire's loop, with the counter starting at 0, leaves the first-visit dict of the wire's cell sequence and a counter equal to that sequence's length |
| CrossedWires.PathLength | day3.py:180 | the step counter after a wire is the sum of the lengths of its moves with a known letter |
| CrossedWires.FirstVisitsMeaning | day3.py:171-182 | the dict holds the origin and every entered cell; the origin keeps 0; every other cell keeps the step of its first visit and is never overwritten |
| CrossedWires.PathIsVisited | day3.py:79-94 | away from the port, the cells of part 2's walk are exactly part 1's coordinate set, so both parts consider the same crossings |
| CrossedWires.CombinedSteps | day3.py:241-244 | the `intersections` dict has exactly the cells in both dicts other than (0,0), each mapped to the sum of its two step counts |
| CrossedWires.MinValue | day3.py:245 | `min` of the values: None exactly when the dict is empty; otherwise a value of the dict that is at most every value |
| CrossedWires.CountingSteps | day3.py:169-245 | None exactly when the wires share no cell besides the port; otherwise the combined first-visit steps of some shared cell, at most those of every shared cell |
| CrossedWires.FewestSymmetric | day3.py:241-245 | the fewest combined steps over two step dicts do not depend on which dict comes first, None included |
| CrossedWires.SwapSteps | day3.py:169-245 | calling part 2 with the wires swapped gives the same answer |
| SecureContainer.Digits | day4.py:44 | `str(i)`: at least one character, all decimal digits, and no leading zero |
| SecureContainer.DigitsRoundTrip | day4.py:44 | the digits of `n` read back as `n` |
| SecureContainer.SearchDoubleFrom | day4.py:44 | the leftmost position from `i` where a digit is followed by the same digit, or None when there is none |
| SecureContainer.SearchDouble | day4.py:44 | `re.search("(\d)\1", s)` succeeds exactly when some digit is followed by the same digit |
| SecureContainer.Insert | day4.py:46 | inserting one character keeps the multiset of characters, plus that character |
| SecureContainer.InsertKeepsSorted | day4.py:46 | inserting into a non-decreasing string keeps it non-decreasing |
| SecureContainer.SortSpec | day4.py:46 | `sorted(s)` is a non-decreasing permutation of `s` |
| SecureContainer.SortKeepsSorted | day4.py:46 | sorting a non-decreasing string changes nothing |
| SecureContainer.EqualsSortedIff | day4.py:46 | a string equals its sorted form exactly when its digits never decrease |
| SecureContainer.CountTwoIffRunOfTwo | day4.py:78 | for digits that never decrease, some digit occurs exactly twice exactly when there is a maximal run of exactly two equal digits |
| SecureContainer.Part1Rule | day4.py:44-46 | a number passes part 1 exactly when its digits never decrease and two adjacent digits are equal |
| SecureContainer.Part2Rule | day4.py:75-79 | a number passes part 2 exactly when its digits never decrease and contain a run of exactly two equal digits |
| SecureContainer.CheckPart1 | day4.py:44-46 | the nested checks of one number in part 1 accept it exactly when it meets the part 1 rule |
| SecureContainer.CheckPart2 | day4.py:75-79 | the nested checks of one number in part 2 accept it exactly when it meets the part 2 rule |
| SecureContainer.TallyIsWindow | day4.py:42-47 | adding 1 per accepted number counts the accepted numbers of the range |
| SecureContainer.Part1 | day4.py:41-48 | `part_1` returns the number of integers in `low..high` (inclusive) that pass part 1 |
| SecureContainer.Part2 | day4.py:72-82 | `part_2` returns the number of integers in `low..high` (inclusive) that pass part 2 |
| SecureContainer.WindowStep | day4.py:43 | extending the range by one number adds 1 exactly when that number passes |
| SecureContainer.WindowBound | day4.py:43 | a range yields at most as many passes as it has numbers |
| SecureContainer.WindowMonotone | day4.py:75-79 | a stricter rule never counts more numbers |
| SecureContainer.PartCountBounds | day4.py:41-82 | part 1 counts at most `high - low + 1`, and part 2 never counts more than part 1 |
| SecureContainer.Example111111 | day4.py:15 | 111111 passes part 1 |
| SecureContainer.Example223450 | day4.py:16 | 223450 fails part 1 (its digits decrease) |
| SecureContainer.Example123789 | day4.py:17 | 123789 fails part 1 (it has no double) |
| SecureContainer.Example112233 | day4.py:59 | 112233 passes part 2 |
| SecureContainer.Example123444 | day4.py:60 | 123444 fails part 2 (444 is a group of three) |
| SecureContainer.Example111122 | day4.py:61 | 111122 passes part 2 (through 22) |
| OrbitMap.TrimStart | day6.py:80 | drops exactly the leading whitespace |
| OrbitMap.TrimEnd | day6.py:80 | drops exactly the trailing whitespace |
| OrbitMap.Strip | day6.py:80 | `strip()` leaves no whitespace at either end |
| OrbitMap.StripKeeps | day6.py:80 | stripping a string that has no whitespace at either end changes nothing |
| OrbitMap.ParseLine | day6.py:80 | `line.strip().split(")")` unpacked into two names, or None when the unpacking would raise; its meaning is stated by ParseLineSpec |
| OrbitMap.ParseLineSpec | day6.py:80 | a line parses exactly when its stripped form has exactly one `)`; the parsed orbit prints back as the stripped line |
| OrbitMap.FormatInjective | day6.py:80 | two orbits whose centers contain no `)` and that print the same are equal |
| OrbitMap.ParseFormat | day6.py:80 | parsing a printed orbit gives the orbit back |
| OrbitMap.Append | day6.py:81 | `galaxy[obj].append(orbiting)` on a `defaultdict(list)`, a missing key entering with an empty list; its effect is stated by AppendSpec |
| OrbitMap.AppendSpec | day6.py:81 | `galaxy[obj].append(orbiting)` adds the body to the keys, at the end of the key order if it is new; appends the center to the body's list; leaves other keys alone; keeps the dict well formed |
| OrbitMap.ParseInput | day6.py:77-82 | the loop fails exactly when some line fails to split; otherwise it builds the galaxy of the parsed lines |
| OrbitMap.ParseAllMeaning | day6.py:79-80 | parsing all lines fails exactly when one line fails; otherwise record `i` is the parse of line `i` |
| OrbitMap.GalaxyOfWellFormed | day6.py:77-82 | the built dict's key order lists every key exactly once and nothing else, and every list is non-empty; that new keys go at the end of the order is AppendSpec's `order` clause |
| OrbitMap.GalaxyOfKeys | day6.py:77-82 | the keys are exactly the bodies named by some line |
| OrbitMap.GalaxyOfLists | day6.py:81 | each body's list is the centers of its lines, in line order, so a repeated child accumulates parents |
| OrbitMap.GalaxyOfTotal | day6.py:77-82 | the lengths of all lists add up to the number of lines |
| OrbitMap.CountTotalOrbits | day6.py:86-95 | a name that is not a key returns `count`; with non-empty lists the result is never below `count`, and for a key it is at least `count` plus the length of its list |
| OrbitMap.SumParents | day6.py:93-95 | the sum over the parent list is at least `count` when the list is not exhausted |
| OrbitMap.CountIsDepth | day6.py:86-95 | when every list has one entry, `count_total_orbits(o, g, c)` is `c` plus the number of steps from `o` to a name that is not a key |
| OrbitMap.SumCounts | day6.py:98 | the counts of the given names, each started from 0: names that are not keys add nothing, and with non-empty lists each key adds at least one |
| OrbitMap.TotalCount | day6.py:97-98 | `total_count`: an empty dict counts 0, and a well-formed dict with non-empty lists counts at least one orbit per key |
| OrbitMap.TotalCountIsDepthSum | day6.py:97-98 | `total_count` sums the depths of the keys only |
| OrbitMap.Route | day6.py:174-179 | the route is empty exactly when `a` is not a key, and otherwise starts with `a` |
| OrbitMap.RouteShape | day6.py:175-177 | every route element is a key, each next element is the first parent of the previous one, and the route stops before the first name that is not a key |
| OrbitMap.TravelBack | day6.py:174-179 | `travel_back(a, g, route)` returns `route` followed by `a`'s route |
| OrbitMap.RouteSuffix | day6.py:177 | the tail of a route from any element is that element's own route |
| OrbitMap.RouteDecreasing | day6.py:174-179 | routes descend in rank, so they never repeat a name and the recursion ends |
| OrbitMap.FirstShared | day6.py:183 | the first position from `i` whose element also lies on the other route |
| OrbitMap.FindClosestIntersection | day6.py:182-184 | None (the IndexError) exactly when the routes share nothing; otherwise the first shared element's position in each route, added, minus 2 |
| OrbitMap.RoutesMeet | day6.py:174-179 | once two routes share an element they coincide from there on |
| OrbitMap.ClosestSymmetric | day6.py:182-184 | on two routes that descend in rank, swapping the arguments gives the same count |
| OrbitMap.TransferSymmetric | day6.py:186-188 | the transfers from YOU to SAN equal those from SAN to YOU |
| OrbitMap.ClosestIsMin | day6.py:182-184 | the count is the fewest transfers: for any name on both routes, at positions `i` and `j`, the result is at most `i + j - 2` |
| OrbitMap.ClosestAt | day6.py:182-184 | when position `i` of the first route holds the first shared name and `j` is its first position in the second route, the result is `i + j - 2` |
| OrbitMap.ParseAllFormat | day6.py:77-80 | writing records out as lines and parsing the lines gives the records back, when every record reproduces its own line |
| OrbitMap.SampleParses | day6.py:61-73 | the eleven sample lines parse into the eleven `A)B` records |
| OrbitMap.SampleBuilds | day6.py:77-82 | appending the sample records one by one builds the sample galaxy, each body with its one center |
| OrbitMap.SampleShape | day6.py:61-73 | the sample galaxy has a rank for every key and one center per key |
| OrbitMap.SampleDepths | day6.py:61-73 | the sample galaxy is acyclic and each key's route has the length of its depth |
| OrbitMap.SampleDepthSum | day6.py:101-102 | the depths of the sample keys add up to 42 |
| OrbitMap.SampleTotal | day6.py:101-102 | a galaxy that `parse_input` may return for the sample is the sample galaxy, and its total count is 42 |
| OrbitMap.SampleRouteYou | day6.py:164-165 | after adding YOU orbiting K, the route from YOU is YOU, K, J, E, D, C, B |
| OrbitMap.SampleRouteSan | day6.py:164-165 | after adding SAN orbiting I, the route from SAN is SAN, I, D, C, B |
| OrbitMap.SampleTransfers | day6.py:186-188 | on the edited sample, the transfers from YOU to SAN number 4 |
| SpaceImage.Layers | day8.py:40-46 | no layers exactly for no data, and no layer holds more than width·height pixels |
| SpaceImage.CursorStep | day8.py:41-45 | advancing the x and y cycles wraps to (0, 0) exactly after the last cell of a layer, and otherwise moves to the next cell number |
| SpaceImage.LayersFlatten | day8.py:40-46 | the layers, joined in key order, give back the input digits |
| SpaceImage.LayersShape | day8.py:40-46 | there are ⌈n / (width·height)⌉ layers; every layer is non-empty and holds at most width·height pixels; all but the last are full |
| SpaceImage.LayersIndex | day8.py:40-46 | pixel `i` of the input is pixel `i % size` of layer key `i / size + 1` |
| SpaceImage.LayersSnoc | day8.py:42-46 | one more pixel opens a new layer exactly when the last layer is full, and is appended to the last layer otherwise |
| SpaceImage.PixelStep | day8.py:41-46 | the cursor and the layers advance together: the cursor wraps exactly when a new layer starts |
| SpaceImage.CreateImage | day8.py:33-48 | None (StopIteration) exactly when there are pixels but `width` or `height` is 0; otherwise no layers for no data, or the consecutive width·height chunks of the data |
| SpaceImage.Validate | day8.py:51-62 | the checksum of the first layer with the fewest `0` digits, or 0 when no layer has fewer than 10000000 zeroes |
| SpaceImage.Checksum | day8.py:62 | the number of `1`s times the number of `2`s, which is 0 exactly when the layer lacks one of the two digits |
| SpaceImage.FewestUnique | day8.py:57 | the strict `<` makes the chosen layer unique: the first of those with the fewest zeroes |
| SpaceImage.Pos | day8.py:124-126 | the cursor of the `j`-th pixel lies on the grid |
| SpaceImage.PosIndex | day8.py:124-126 | within one screenful, pixel `j` lands on the cell numbered `j`, row by row |
| SpaceImage.Ink | day8.py:128-135 | a pixel leaves the cell unchanged exactly when it is not `0` or `1`, or when it repaints the same colour |
| SpaceImage.DrawImage | day8.py:112-136 | None exactly when there are no layers (`max` of nothing), or a non-empty layer on a grid of width or height 0; otherwise a fresh width×height grid with every cell as painted from the last layer to the first |
| SpaceImage.PaintCell | day8.py:123-135 | painting one layer sets a cell from the layer's pixel at that cell's number if the pixel is `0` or `1`, and keeps the colour beneath otherwise |
| SpaceImage.Composite | day8.py:117-135 | when no layer has more than width·height pixels, each cell shows the first layer, from the front, with a `0` or `1` there |
| SpaceImage.TopUnpainted | day8.py:117-135 | a cell stays unpainted exactly when every layer is transparent or missing there |
| SpaceImage.DecodeImage | day8.py:117-135 | drawing the layers that create_image produces shows, at each cell, the front-most non-transparent digit |
| SpaceImage.SampleLayers | day8.py:65 | the sample `123456789012` at 3×2 makes the layers `123456` and `789012` |
| SpaceImage.SampleChecksum | day8.py:65 | in that sample the first layer has the fewest zeroes and its checksum is 1 |
| SpaceImage.DecodeLayers | day8.py:79-91 | `0222112222120000` at 2×2 makes the four layers of the example |
| SpaceImage.SampleDecode | day8.py:93-103 | that example draws black, white / white, black |

## Left out

- Reading the input files (day3.py:51-55, day4.py:24-25, day6.py:104-108, day8.py:67-68). The parsed move lists, bounds, lines and digit strings are parameters instead.
- All `print` and `pprint` calls.
- PIL in `draw_image`: `Image.new`, `save` and the RGBA colour tuples. The image is an `array2<Pixel>`; `Unpainted` stands for the transparent start colour, `Black` for `0` and `White` for `1`.
- The regular-expression engine: `(\d)\1` is specified directly as a digit followed by the same digit. `pattern_2` (day4.py:68) is never used.
- The machinery of `itertools.cycle`: the x and y cycles are counters that wrap to 0.
- Parsing of wire tokens (day3.py:78 and 176):
  - a token is a `Move` of a direction letter and a natural-number length;
  - an empty token (IndexError) is not modelled;
  - a negative length written as `R-3` is not modelled.
- Parsing of `low-high` (day4.py:25): the bounds are parameters, with `low` a natural number.
- The orbit functions require an acyclic galaxy, because on a cycle the source recurses until Python raises RecursionError.
- `Route` and `TravelBack` also require every list to be non-empty. `parse_input` always produces such lists (GalaxyOfWellFormed), and `galaxy[a][0]` on an empty list would raise IndexError.
- OrbitMap.CountTotalOrbits: the exact value is stated only for galaxies where every body has one parent (CountIsDepth). For bodies with several parents, the contract only bounds the result from below.
- OrbitMap.SumParents: the same gap. Its contract only bounds the sum from below.
- The mutable default `route=[]` of `travel_back` is modelled as an explicit parameter. Every call site passes a fresh `[]`.
- The `defaultdict` lookup `layers[""]` in `validate` yields an empty list when no layer has fewer than 10000000 zeroes. It is modelled by its effect, the result 0. The lookup also inserts the key `""` into the caller's dict. That is not modelled, because both calls (day8.py:65 and 70) pass a fresh dict from `create_image` that is not used afterwards.
- SpaceImage.DrawImage: layers with more than width·height pixels wrap the cursor and repaint cells. This is modelled, but the front-to-back reading of Composite is stated only when no layer overflows.
