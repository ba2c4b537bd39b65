# Landing-page animation and population-pyramid logic, in Dafny

This project models the three pieces of the landing page that are plain logic rather than
markup or chart configuration:

- **The rotating headline** (`TextAnimation`, module `TextAnimation`). When the page mounts,
  a one-shot latch is closed. The first word span is shown, and every word span is split into
  one letter span per character, all of class `letter`. Then, every 3000 ms, `changeWord` does
  three things. It registers an `out` timer for every letter of the current word, at i * 80 ms.
  It puts every letter of the next word `behind` at once and shows that word. It registers an
  `in` timer for every letter of the next word, at 340 + i * 80 ms. The index then wraps from
  the last word to the first. The registered timers are a list of pending actions
  (delay, word, letter, class); `Flush` fires them.
- **The hover glow of an application tile** (`AppBox`, module `HoverGlow`). Mounting attaches
  a pointer-move and a pointer-leave listener when the tile exists. A move sets `--opacity` to
  0.3 and `--x`/`--y` to the pointer's offset inside the tile. A leave sets `--opacity` to 0 and
  keeps the offset. The cleanup removes both listeners.
- **The population pyramid and its map** (module `PyramidAndMap`). `aggregateData` sums the
  male and female counts of a list of age groups. It then writes into every group, in place,
  its male share, negated, and its female share. Each share is in percent, rounded to two
  decimals with `Math.round`. Clicking a state polygon does four things: it deactivates the
  previous polygon, activates the clicked one, aggregates that state's groups and writes group
  i into index i of both column series. It then sets the title to the state's name.

Numbers are exact. Counts are naturals, shares are reals of the form k / 100, and
k = Round(count / total * 10000) with Round(r) = floor(r + 1/2). A column whose total is 0
gets `NaN`, which is what 0 / 0 gives the page.

## Edge behaviour

- When the region key of a clicked polygon has no data, the page first deactivates the
  previous polygon and activates the clicked one. It then faults, because
  `aggregateData(undefined)` calls `.map` on `undefined`. `Click` returns `ok == false` after
  the flag update, and nothing else changes.
- When a column's total is 0, the page divides 0 by 0, and the share becomes `NaN`; nothing
  faults. The model writes `NaN`.
- The headline's effect returns no cleanup. Neither its interval nor its letter timers are
  ever cleared, so the model has no teardown for it.
- The first word change runs 3000 ms after setup, and then one runs every 3000 ms. After the
  change at 3000 + 3000 k ms, k + 1 changes have run, and the index is (k + 1) mod 7
  (`TextAnimation.HeadlineAfterSteps` with k + 1 steps).
- With no word span, the setup faults when it shows the first word. The latch is already
  closed by then, and `StartAnimation` returns `ok == false`.

## Model

| member | source | states |
|---|---|---|
| `TextAnimation.SplitLetters` | pages/index.tsx:232-245 | one letter cell per character of the word, in character order, each with its character and class `letter` |
| `TextAnimation.SplitAll` | pages/index.tsx:196-198 | the letter grid has one entry per word, in document order, and entry w spells word w with every letter of class `letter` |
| `TextAnimation.NextIndex` | pages/index.tsx:202 | for an index below the word count, the next index is (current + 1) mod count, so it stays below the count and wraps from the last word to 0 |
| `TextAnimation.AdvanceIsModular` | pages/index.tsx:217 | k word changes from index c lead to index (c + k) mod count |
| `TextAnimation.HeadlineAfterSteps` | pages/index.tsx:262-270 | with the seven headline words, k changes from the first word lead to word k mod 7 |
| `TextAnimation.Advance` | pages/index.tsx:217 | the index after a number of word changes: the wrap-around step applied that many times |
| `TextAnimation.WithClass` | pages/index.tsx:211 | a word's letters with each class replaced: same length, the same characters, and every letter of the given class |
| `TextAnimation.OutActions` | pages/index.tsx:206-208 | the outgoing timers of one change: one per letter of the current word, in letter order, and letter i gets `letter out` after i * 80 ms (lines 220-224) |
| `TextAnimation.InActions` | pages/index.tsx:210-216 | the incoming timers of one change: one per letter of the next word, in letter order, and letter i gets `letter in` after 340 + i * 80 ms (lines 226-230) |
| `TextAnimation.ApplyActions` | pages/index.tsx:221-229 | firing a list of timers, first to last, keeps the number of words, and a word that no timer names is left exactly as it was |
| `TextAnimation.ApplyAction` | pages/index.tsx:220-230 | firing one letter timer changes no word, no letter count and no character, only a class |
| `TextAnimation.ApplyActionsKeepsLetters` | pages/index.tsx:220-230 | firing any list of timers keeps every word and every character |
| `TextAnimation.Sweep` | pages/index.tsx:206-208 | firing timers for consecutive letters of one word with one class gives exactly those letters that class and leaves every other letter and word as it was |
| `TextAnimation.StepOutcome` | pages/index.tsx:200-230 | when the outgoing and incoming words differ, once the timers of one change have fired, every outgoing letter is `letter out`, every incoming letter is `letter in`, and every other word is untouched |
| `TextAnimation.SingleWordOutcome` | pages/index.tsx:202-230 | with a single word the outgoing and incoming word coincide, and once the timers have fired every letter is `letter in`, because the `in` timers are registered last |
| `TextAnimation.WordCycler.constructor` | pages/index.tsx:186-187 | before mounting the latch is open, nothing is split and shown, there are no timers, and the index is 0 |
| `TextAnimation.WordCycler.StartAnimation` | pages/index.tsx:189-198 | the latch is closed whatever happens; with no word the setup faults and nothing else changes; otherwise the first word is shown, every word is split into `letter` cells in order, the index is 0 and the driver is armed |
| `TextAnimation.WordCycler.Mount` | pages/index.tsx:253-257 | the setup runs exactly when the latch was open, and then leaves what the setup leaves: index 0, no pending timer, every cell `letter`, the words split and the first shown (or, with no word, nothing split or shown and the driver not armed); a second mount changes nothing, so letter cells are never duplicated |
| `TextAnimation.WordCycler.ChangeWord` | pages/index.tsx:200-218 | when the current or the next letter list is absent, nothing changes; otherwise the timers `out` at i * 80 ms for the current word and `in` at 340 + i * 80 ms for the next word are registered, the next word's letters are `letter behind` at once, the next word is shown when it has a letter, and the index becomes (old + 1) mod count |
| `TextAnimation.WordCycler.Flush` | pages/index.tsx:221-229 | all pending timers fire in registration order and none stays pending; nothing but letter classes changes |
| `HoverGlow.AppBox.constructor` | pages/index.tsx:137-139 | a rendered tile has no listener and no glow property set |
| `HoverGlow.AppBox.Mount` | pages/index.tsx:139-163 | when the tile is found, the pointer-move and pointer-leave listeners are attached; when it is not found, nothing is registered |
| `HoverGlow.AppBox.Cleanup` | pages/index.tsx:141-144 | the cleanup removes exactly the two listeners the effect added, and touches nothing else |
| `HoverGlow.AppBox.OnPointerMove` | pages/index.tsx:146-153 | with the listener attached, a move sets opacity to 0.3, x to clientX - left and y to clientY - top; without it, nothing changes |
| `HoverGlow.AppBox.OnPointerLeave` | pages/index.tsx:155-159 | with the listener attached, a leave sets opacity to 0; x and y are never changed |
| `PyramidAndMap.Round` | apps/common/components/PyramidAndMap.tsx:38-39 | Math.round gives the integer k with r - 1/2 < k <= r + 1/2: the nearest integer, a half rounded up |
| `PyramidAndMap.SumMale` | apps/common/components/PyramidAndMap.tsx:32-35 | maleTotal, the sum of the male counts, is 0 exactly when every group's male count is 0 (the case that gives `NaN`) |
| `PyramidAndMap.SumFemale` | apps/common/components/PyramidAndMap.tsx:32-35 | femaleTotal, the sum of the female counts, is 0 exactly when every group's female count is 0 (the case that gives `NaN`) |
| `PyramidAndMap.Hundredths` | apps/common/components/PyramidAndMap.tsx:38-39 | Math.round(count / total * 10000) is the integer within half a unit of the exact share in hundredths of a percent |
| `PyramidAndMap.MaleShare` | apps/common/components/PyramidAndMap.tsx:38 | malePercent, -1 * Math.round(male / maleTotal * 10000) / 100, is always written (`NaN` when the total is 0) and, as a number, has at most two decimals |
| `PyramidAndMap.FemaleShare` | apps/common/components/PyramidAndMap.tsx:39 | femalePercent, Math.round(female / femaleTotal * 10000) / 100, is always written (`NaN` when the total is 0) and, as a number, has at most two decimals |
| `PyramidAndMap.WithShares` | apps/common/components/PyramidAndMap.tsx:37-40 | after the write, a group has both percent fields set, and its label and counts are kept |
| `PyramidAndMap.RowWithinTotals` | apps/common/components/PyramidAndMap.tsx:32-35 | no group's count exceeds the total accumulated over the list |
| `PyramidAndMap.HundredthsInRange` | apps/common/components/PyramidAndMap.tsx:38-39 | a rounded share of at most the whole is between 0 and 10000 hundredths |
| `PyramidAndMap.ShareBounds` | apps/common/components/PyramidAndMap.tsx:38-39 | a share is NaN exactly when its total is 0; otherwise a male share is in [-100, 0] and a female share in [0, 100] |
| `PyramidAndMap.ShareIsNearest` | apps/common/components/PyramidAndMap.tsx:38-39 | each written share is within 0.005 of the exact percentage, negated for males |
| `PyramidAndMap.Aggregated` | apps/common/components/PyramidAndMap.tsx:37-42 | aggregation keeps the length, the order and the age, male and female fields of every group |
| `PyramidAndMap.AggregatedInRange` | apps/common/components/PyramidAndMap.tsx:37-40 | every aggregated male share is NaN or in [-100, 0], every female share NaN or in [0, 100], and NaN exactly when that column sums to 0 |
| `PyramidAndMap.AggregatedExample` | apps/common/components/PyramidAndMap.tsx:27-42 | groups (10, 20) and (30, 20) get shares -25 and 50, and -75 and 50 |
| `PyramidAndMap.AggregateData` | apps/common/components/PyramidAndMap.tsx:27-43 | the same list is returned, and its contents become the aggregation of the old contents, written in place |
| `PyramidAndMap.RegionKey` | apps/common/components/PyramidAndMap.tsx:187 | the key is the longest suffix of the id without a '-': it is a suffix, it has no '-', and it is either the whole id or preceded by a '-' |
| `PyramidAndMap.RegionKeyExample` | apps/common/components/PyramidAndMap.tsx:187 | "US-CA" gives "CA", "CA" gives "CA" and "US-" gives the empty key |
| `PyramidAndMap.PyramidMap.constructor` | apps/common/components/PyramidAndMap.tsx:45-179 | the whole-country groups are aggregated in place and loaded into both series, no polygon is active, and the title is 'United States' |
| `PyramidAndMap.PyramidMap.Click` | apps/common/components/PyramidAndMap.tsx:180-197 | after any click the clicked polygon is the only active one, the previous one is inactive and the others are unchanged; `ok` holds exactly when the region key has data; with data, the state's groups are aggregated in place, written over the first entries of both series with the rest kept, and the title is the polygon's name; without data, series and title are unchanged |
| `PyramidAndMap.PyramidMap.Activate` | apps/common/components/PyramidAndMap.tsx:181-185 | the previous active polygon, if any and different, becomes inactive, the clicked one active, and all others keep their flag |
| `PyramidAndMap.PyramidMap.LoadSeries` | apps/common/components/PyramidAndMap.tsx:190-193 | indices below the data's length of both series hold the data's groups; entries from the data's length on are untouched |

## Left out

- All calls into the charting library: the root, themes, axes, series configuration, tooltips,
  states, `appear`, legends and `root.dispose`. Their behaviour is not visible here. The series
  and the polygons' `active` settings are plain arrays.
- The other chart components (radial bar, radar area, column and line, area, bar) and the
  dashboard card. They only configure the library or lay out markup.
- React effect scheduling, dependency arrays and re-renders, including the `Math.random()` id
  that is regenerated on every render.
- Real time. Delays exist only as data on pending timers. The 3000 ms driver is only the flag
  `driverArmed`; one call of `ChangeWord` is one tick.
- The DOM. Element lookups, `innerHTML`, `createElement`, `getBoundingClientRect` and event
  dispatch become fields and parameters. The tile's bounding box is a parameter of
  `OnPointerMove`, and whether the tile exists is a constructor argument.
- Floating point. Shares are exact reals, so the model has no IEEE-754 rounding in
  `male / maleTotal * 10000` and no negative zero for a male share of 0. Style values are
  numbers, not the strings `toString` gives.
- `TextAnimation.WordCycler.Flush`: fires the timers in registration order, not in delay
  order. Within one change, the page fires them by delay, which interleaves the outgoing and
  incoming timers: for "INVEST", in(0) at 340 ms fires before out(5) at 400 ms. The final
  classes are still the same. With at least two words, every timer of a change names a
  different letter (`StepOutcome`). With one word, each letter's `out` timer, at i * 80 ms,
  fires before its `in` timer, at 340 + i * 80 ms, which is also the registration order
  (`SingleWordOutcome`). Timers of different changes fire in registration order only because
  each change's timers have all fired before the next 3000 ms tick. That holds for words of
  at most 34 letters, whose last timer fires at 340 + 33 * 80 = 2980 ms.
- `TextAnimation.SplitLetters`: splits a word into Dafny characters, which are Unicode scalar
  values. The page splits the serialised `innerHTML` into UTF-16 code units (`content.length`,
  `charAt`). The two agree on the seven ASCII headline words. They differ on characters
  outside the Basic Multilingual Plane and on text that `innerHTML` escapes, such as `&`.
- `PyramidAndMap.PyramidMap.Click`: requires that the state's groups fit in the series.
  Writing past the end of a series is the library's business and is not modelled.
- `PyramidAndMap.PyramidMap.LoadSeries`: copies row values into the series arrays. In the
  page, the series hold the very row objects of the aggregated list, so a later in-place
  aggregation of that list also changes what the series show. Every such write recomputes the
  same values from the same counts and totals, so nothing visible differs. The model does not
  capture that sharing.
- `HoverGlow.AppBox.Mount`: listeners are a set, so mounting twice without a cleanup
  attaches each kind once. The page would attach a second pair of fresh closures.
- `PyramidAndMap.MaleShare`: the model handles only the case where the count is part of the
  total, as it always is inside aggregation. It does not model ±Infinity.
- A polygon without an id, and a live `getElementsByClassName` collection that changes after
  setup. The model takes the polygon ids and the word spans as fixed.
