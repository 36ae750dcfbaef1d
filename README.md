# Visual-element engine of ClientInterface.py, in Dafny

`ClientInterface.py` drives a desktop application through screenshots.
A *client element* pairs a template image with a region of the screen, the
bounding box. The engine:

- matches the template against a capture of that region;
- keeps the positions where the template was found, best first;
- clicks on the element;
- waits for an element, or for one of several alternatives, to appear.

This project models that engine and proves properties of the model. It has
four modules:

- `Wrappers` (`wrappers.dfy`): `Option` and `Result`.
- `Geometry` (`geometry.dfy`): the integer `Point` and `BBox` value types and
  their algebra. This covers translation, scaling, building a box from two
  corners, the floor midpoint, the top-left corner and vertical centring.
- `Matching` (`matching.dfy`): `Match` and its ordering by confidence, and
  the post-processing of `match`. The score map computed by OpenCV is an
  input grid. The module covers thresholding, which is strictly above `conf`
  in multi mode and at least `conf` for the single best cell in single mode.
  It also covers moving the top-left cell position to the template's centre,
  the stable sort by descending confidence, and one result list per template
  for a list of templates. `MatchTemplate` is the imperative loop that
  collects the candidates, proved against the functional `MatchSpec`.
- `ClientInterface` (`client_interface.dfy`):
  - the `ClientElement` class, whose `lastpos`, `lastconf` and `lastcount`
    fields are the cache that `isvisible` replaces and `lastpos(remove=True)`
    pops;
  - the search box and click point resolution;
  - `click`, `clicklast`, `assertvisible` and `assertnotvisible`;
  - the `_waitforelement` polling loop, `WaitForElement`, proved against the
    functional `WaitOutcome`/`WaitPolls`.

The outside world comes in as parameters:

- The pointer position, which `_getpos()` reads, is a `Point`.
- The screen is a `Screen`. It gives the score map of a template against the
  capture of a region, combining `grab` and `cv2.matchTemplate`.
- A wait reads one screen per poll from `screens: nat -> Screen`.
- Time is counted in whole milliseconds. The default poll interval of 0.5 s
  is 500, and the default timeout of 120 s is 120000.

Two details of the code decide cases that are easy to get wrong:

- In multi mode a score must be strictly above `conf` (`result > conf`), so
  a threshold of 0.95 applied to the scores 0.92 and 0.97 keeps the 0.97
  match (`Matching.MultiModeExample`).
- `_currentbbox(at)` uses `at` only for a relative element. An absolute
  element always searches its own box (`ClientInterface.AtIgnoredUnlessRelative`).

## Model

| member | source | states |
|---|---|---|
| Geometry.Point.Add | ClientInterface.py:316-318 | subtracting either summand from the sum gives the other back |
| Geometry.Point.Sub | ClientInterface.py:324-328 | the difference plus the subtrahend is the original point, coordinate by coordinate |
| Geometry.Point.Scale | ClientInterface.py:330-334 | `p * k` is the zero point for k = 0, is `p` for k = 1, and is the additive inverse of `p` for k = -1; with `ScaleAlgebra` this fixes `p * k` for every `k` |
| Geometry.Point.Pair | ClientInterface.py:330-332 | `p * q` is the box whose first corner is `p` and whose second corner is `q`, taken without reordering; its width and height are the coordinate differences |
| Geometry.Point.AddBox | ClientInterface.py:319-320 | `p + box` is the box moved by `p`: subtracting `p` gives the box back, and the top-left corner moves by `p` |
| Geometry.BBox.Add | ClientInterface.py:262-267 | moving a box by `p` is undone by subtracting `p`; both corners move by `p`; width and height are unchanged |
| Geometry.BBox.Sub | ClientInterface.py:269-274 | both corners of `box - p` plus `p` are the original corners |
| Geometry.BBox.Midpoint | ClientInterface.py:276-280 | each coordinate is the floor of the average of the pair; a well-formed box contains its midpoint |
| Geometry.BBox.Width | ClientInterface.py:288-290 | `x1 + width == x2`, and the width is non-negative for a well-formed box |
| Geometry.BBox.Height | ClientInterface.py:292-294 | `y1 + height == y2`, and the height is non-negative for a well-formed box |
| Geometry.BBox.CenterVertically | ClientInterface.py:296-298 | keeps `x1`, `x2` and the height, puts `y1` at `pos - height/2`, and the midpoint lands on row `pos` with its column unchanged |
| Geometry.AddSubRoundTrip | ClientInterface.py:316-328 | `(a + b) - b == a` and `(a - b) + b == a` |
| Geometry.AddAlgebra | ClientInterface.py:316-318 | point addition is associative and commutative, with unit `(0, 0)` |
| Geometry.ScaleAlgebra | ClientInterface.py:333-334 | scaling distributes over addition of points and over addition of factors (`p * (j + k) == p * j + p * k`), and scaling by `j` then by `k` is scaling by `j*k` |
| Geometry.ScaleTwice | ClientInterface.py:333-334 | `p * 2 == p + p` |
| Geometry.BoxTranslation | ClientInterface.py:262-274 | `box + p` shifts all four coordinates by `p`; `(box + p) - p == box` and `(box - p) + p == box`; moving by `p` then `q` is moving by `p + q`; `p + box == box + p` |
| Geometry.MidpointTranslate | ClientInterface.py:262-280 | the midpoint of a moved box is the moved midpoint, in spite of the rounding down |
| Geometry.TranslatePreservesWellFormed | ClientInterface.py:262-267 | moving a box neither creates nor repairs an inverted box |
| Geometry.PairCorners | ClientInterface.py:282-286 | a box is the pair of its top-left corner and its second corner, and `offset()` of `p * q` is `p` |
| Geometry.PairExample | ClientInterface.py:488-492 | `(50,10) * (150,210)` is the box `(50,10,150,210)`, with width 100, height 200 and midpoint `(100,110)` |
| Geometry.PairKeepsOrder | ClientInterface.py:330-332 | corners given in the other order give an inverted box with a negative width; nothing is normalised |
| Matching.RowHitsIff | ClientInterface.py:461-466 | a match is among one row's candidates exactly when some cell of that row scores strictly above `conf` and the match is that cell's |
| Matching.HitsIff | ClientInterface.py:461-466 | a match is among the candidates of the first `k` rows exactly when some cell of those rows scores strictly above `conf` and the match is that cell's |
| Matching.RowHitsDistinct | ClientInterface.py:461-466 | one row never yields the same match twice: distinct cells have distinct centres |
| Matching.HitsDistinct | ClientInterface.py:461-466 | the row-major candidates hold no match twice |
| Matching.RowMax | ClientInterface.py:468 | the column found lies within the row |
| Matching.RowMaxIsFirstMax | ClientInterface.py:468 | the column found holds the row's maximum, and every earlier column scores strictly less |
| Matching.MaxLocIn | ClientInterface.py:468 | a location found is a cell of the map |
| Matching.MaxLocInIsFirstMax | ClientInterface.py:468 | no location exactly when the rows have no cells; otherwise the location holds the maximum, and every earlier cell in row-major order scores strictly less |
| Matching.MaxLoc | ClientInterface.py:468 | a location found is a cell of the map |
| Matching.InsertSorted | ClientInterface.py:472 | inserting into a list sorted by descending confidence keeps it sorted, and the new head is the inserted match or the old head |
| Matching.InsertPermutation | ClientInterface.py:472 | inserting adds exactly the inserted match to the multiset |
| Matching.SortDescSorted | ClientInterface.py:472 | the sorted result is ordered by non-increasing confidence |
| Matching.SortDescPermutation | ClientInterface.py:472 | the sorted result is a permutation of the input |
| Matching.InsertDistinct | ClientInterface.py:472 | inserting a new match into a list without repetitions keeps it without repetitions |
| Matching.SortDescDistinct | ClientInterface.py:472 | sorting a list without repetitions keeps it without repetitions |
| Matching.MatchTemplate | ClientInterface.py:459-472 | the list the loops build, once sorted, is `MatchSpec` (every cell above `conf` in row-major order, or the best cell if it reaches `conf`), and it is sorted by descending confidence |
| Matching.MatchEach | ClientInterface.py:455-458 | a list of templates gives one result list per template, in order, each the single-template result, with nothing merged |
| Matching.MultiModeExact | ClientInterface.py:461-466 | multi mode returns a match exactly when it belongs to a cell scoring strictly above `conf`, placed at the template's centre `(x + w/2, y + h/2)`, and returns each such match once |
| Matching.SingleModeBest | ClientInterface.py:467-471 | single mode returns at most one match, and one exactly when some score is at least `conf`; it carries the maximal score and is the match of a cell |
| Matching.InsertStable | ClientInterface.py:472 | inserting puts the new match ahead of the matches of the same confidence already in the list |
| Matching.WithConfAppend | ClientInterface.py:472 | the matches of one confidence in a concatenation are those of the first part followed by those of the second |
| Matching.SortStable | ClientInterface.py:472 | matches of equal confidence keep their input order, as Python's stable `sorted` keeps them with `reverse=True` |
| Matching.MatchOrdering | ClientInterface.py:116-138 | `<`, `<=`, `>`, `>=` compare confidences only: they are mutual converses, total and transitive, and matches of equal confidence are tied whatever their points |
| Matching.SortedDescByGe | ClientInterface.py:134-138 | sorted by descending confidence is the same as every match being `>=` every later one |
| Matching.SingleModeExample | ClientInterface.py:467-471 | scores 0.92 and 0.97 with a 20x10 template: single mode at 0.95 returns only the 0.97 match, at `(11, 5)` |
| Matching.MultiModeExample | ClientInterface.py:461-466 | the same scores in multi mode at 0.95: only the 0.97 match is strictly above the threshold |
| Matching.RankingExampleHits | ClientInterface.py:461-466 | at 0.90 both cells are candidates, in row-major order |
| Matching.RankingExampleSort | ClientInterface.py:472 | sorting puts the 0.97 match ahead of the 0.92 match found before it |
| Matching.MultiModeRankingExample | ClientInterface.py:461-472 | multi mode at 0.90 returns both matches, 0.97 first |
| ClientInterface.ClientElement.constructor | ClientInterface.py:158-164 | stores the configuration and starts with an empty cache and a count of 0 |
| ClientInterface.ClientElement.CurrentBBox | ClientInterface.py:227-237 | no box exactly when the element has none; otherwise the element's box moved by the search offset (kept size), and the box itself for an absolute element |
| ClientInterface.ClientElement.IsVisible | ClientInterface.py:182-197 | replaces the cache: the count is the number of matches, the positions are the multi-mode matches moved by the capture's top-left corner, the confidences are theirs; returns true exactly when the new cache is non-empty, which is when the element is visible; after an unsuccessful check all three parts of the cache are empty |
| ClientInterface.ClientElement.CheckAndClick | ClientInterface.py:208-214 | unless blind, replaces the whole cache (positions, confidences, count) with what the screen shows; a blind call changes nothing; then skips, raises `ElementError` or clicks as `ClickResult` says |
| ClientInterface.ClientElement.PeekPos | ClientInterface.py:219-225 | fails with `ElementError("Targetposition nicht bekannt.")` exactly when the cache is empty, and otherwise returns its head |
| ClientInterface.ClientElement.MoreVisible | ClientInterface.py:199-200 | true exactly when `lastpos()` would succeed |
| ClientInterface.ClientElement.LastPos | ClientInterface.py:219-225 | returns the head of the cache, or the error on an empty cache; with `remove` the cache becomes its tail, otherwise it is unchanged |
| ClientInterface.ClientElement.ClickPoint | ClientInterface.py:239-246 | an explicit click point comes first, moved by the pointer for a relative element; next the midpoint of the current box when there is a box and the element is not `clickvisible`; otherwise `lastpos()` |
| ClientInterface.ClientElement.Click | ClientInterface.py:202-214 | a wait that times out raises `Timeout`, leaving the cache empty after its polls, or unchanged for a negative `wait` that makes no poll; otherwise the whole cache is the check's result for a non-blind click, the last poll's result for a blind click after a wait, and unchanged for a blind click without a wait; the result is to skip, raise `ElementError` or click at the click point, as `ClickResult` decides |
| ClientInterface.ClientElement.ClickLast | ClientInterface.py:216-217 | clicks at the head of the cache, taking it off with `remove`, and fails on an empty cache |
| ClientInterface.ClientElement.AssertVisible | ClientInterface.py:166-172 | refreshes the cache, and fails with `ElementError("Steuerelement nicht sichtbar")` exactly when the element is not visible |
| ClientInterface.ClientElement.AssertNotVisible | ClientInterface.py:174-180 | refreshes the cache, and fails with `ElementError("Steuerelement unerwartet sichtbar")` exactly when the element is visible |
| ClientInterface.Confidences | ClientInterface.py:195 | one confidence per match, in the same order |
| ClientInterface.FirstVisibleFrom | ClientInterface.py:402-404 | an index found lies in the scanned part of the list |
| ClientInterface.FirstVisibleFromIsFirst | ClientInterface.py:402-404 | the element found is visible and none before it is; nothing is found only when none is visible |
| ClientInterface.WaitOutcome | ClientInterface.py:397-410 | the only error a wait raises is `Timeout("Timeout beim Warten auf Steuerelement: " + name)` |
| ClientInterface.WaitPolls | ClientInterface.py:397-410 | no poll without budget; with budget, at least one poll and at most `Polls(timeout, sleep)` |
| ClientInterface.WaitStep | ClientInterface.py:400-409 | a poll that finds something ends the wait with it after that poll; a poll that finds nothing passes the rest of the budget to the next poll |
| ClientInterface.Poll | ClientInterface.py:400-406 | one poll returns what `PollOnce` describes (the positive element if visible, else the first visible negative one); the whole cache of the positive element and of the element found holds the poll's matches; the positive element and every negative element checked without success are left with an empty cache |
| ClientInterface.WaitForElement | ClientInterface.py:397-410 | returns or raises what `WaitOutcome` says after the number of polls `WaitPolls` says; the whole cache of the positive element, and of the element returned, holds the last poll's matches; after a timeout with a positive budget every element's cache is empty; with no budget nothing changes |
| ClientInterface.PollsIsCeiling | ClientInterface.py:399-409 | the loop allows `ceil(timeout / sleep)` polls, and none for a timeout of 0 or less |
| ClientInterface.DefaultPolls | ClientInterface.py:397 | the defaults allow 240 polls; a 2 s timeout at 0.5 s allows 4 polls, and 2.001 s allows 5 |
| ClientInterface.WaitTimeoutIff | ClientInterface.py:399-410 | the wait times out exactly when every poll the budget allows finds nothing, and it then has made all of them |
| ClientInterface.WaitFound | ClientInterface.py:399-405 | the first poll that finds something decides the outcome, after exactly that many polls |
| ClientInterface.WaitExample | ClientInterface.py:397-410 | with a 2 s timeout, an element first seen on the third poll is returned after 3 polls, and one never seen times out after 4 |
| ClientInterface.PollOnceSpec | ClientInterface.py:400-404 | a poll prefers the positive element; otherwise it returns the first visible negative element in list order; it finds nothing exactly when none is visible |
| ClientInterface.VisibleIff | ClientInterface.py:182-197 | `isvisible` finds matches, and caches positions, exactly when some score of the capture of the current box is strictly above the confidence used |
| ClientInterface.LocatedIff | ClientInterface.py:190-196 | a cached position is exactly the template's centre at some cell scoring above the confidence, moved by the capture's top-left corner |
| ClientInterface.CacheBestFirst | ClientInterface.py:190-196 | the cache holds the best match first: its confidences never increase, and there is one per position |
| ClientInterface.AtIgnoredUnlessRelative | ClientInterface.py:227-237 | for an absolute element `at` changes neither the search box nor the cached positions |
| ClientInterface.CaptureOffsetSpec | ClientInterface.py:227-237 | positions are moved by the box's corner for an absolute element, and by the corner moved by `at` (or by the pointer) for a relative one |
| ClientInterface.ClickPointErrIff | ClientInterface.py:239-246 | the click point is unknown exactly when there is no explicit click point, no usable box midpoint and an empty cache, and the error is then `lastpos()`'s |
| ClientInterface.ClickPointInBox | ClientInterface.py:239-243 | a click at the midpoint of a well-formed box lands inside the current box |
| ClientInterface.ClickResultSpec | ClientInterface.py:208-214 | with a non-empty cache a click always clicks; a non-blind click with an empty cache skips when `ifvisible` and raises `ElementError` otherwise; a blind click fails only when the click point is unknown |

## Left out

- Driving the OS through `autopy` is not modelled: moving the pointer,
  clicking, pressing keys, typing, dragging and capturing the screen. The
  pointer position and the screen are parameters, and `click` returns where
  it would click (`ClickAction`) instead of clicking. The keyword arguments
  that `click` and `clicklast` pass on to `_clickto` belong to this part.
- `cv2.matchTemplate` is a foreign numeric call. Its score map is an input.
  For `cv2.minMaxLoc` the model picks the first maximal cell in row-major
  order, because OpenCV's tie-breaking is not part of the source.
- Confidences are modelled as `real` numbers. They are only compared, never
  computed on, so floating point does not matter.
- `Point.distance` is left out because it uses floating-point `sqrt`.
- `time.sleep` and the `delay` argument of `isvisible` only affect timing
  and are left out.
  - The timeout and sleep of `_waitforelement` are in whole milliseconds, and
    `wait` of `click` is in milliseconds too.
  - `WaitForElement` requires a positive sleep. The only caller in the
    source, `click` (ClientInterface.py:209), uses the default of 0.5 s. With
    a sleep of 0 the source polls until an element shows up, and with a
    negative sleep `time.sleep` raises; neither case is modelled.
- All checks within one poll see the same screen, and the pointer does not
  move during one call. The source reads the pointer anew each time
  `_currentbbox` or `_currentclickpoint` runs.
- The element's template is reduced to its shape (`Template`), because the
  post-processing reads nothing else of it.
- A new element's cache is `None` in the source and the empty list here.
  Both are false and make `lastpos()` raise, so nothing observable differs.
  The source never sets `_lastconf` before the first `isvisible`.
- Configuration parsing, logging, the interactive helpers (`getbbox`,
  `savescreenshot`, `stopwatch`, `debugbbox`) and image file I/O are left
  out, because they are I/O.
- The module-wide registries `templates`, `cal`, `spots`, `bboxes` and
  `elements` are left out. They are filled by calibration code that is not
  part of this model.
- ERSClientInterface.py and main.py are not part of this model. They are
  scenario scripts and a file-driven dispatcher.
- ClientInterface.WaitForElement: on success, states the cache of the positive
  element and of the element returned, not the caches of the other negative
  elements (those checked without success in the last poll are empty, as
  `Poll` states).
- ClientInterface.Poll: does not state that the negative elements after the
  one found keep their caches, because an element may occur twice in the
  list and then is checked anyway.
- The screen is a total function: the exceptions `grab` and
  `cv2.matchTemplate` raise are not modelled. Such exceptions arise for a
  template larger than the capture, or for an inverted box, which gives a
  capture of negative size (ClientInterface.py:432).
- `match` on a list of templates recurses, so nested lists of templates give
  nested result lists (ClientInterface.py:455-458). `MatchEach` covers one
  level: a flat list of templates.
