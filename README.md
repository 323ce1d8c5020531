# screentest — a verified model of the audition run and the studio report

screentest is a visual-regression command-line tool. `screentest audition --url <u>`
films the page once per configured *actor* (a named device with a category such as
"Mobile Originals"). It writes each capture to `screentest/current/<name>.png`. When a
baseline `screentest/baseline/<name>.png` exists and `--update` was not given, the tool
compares the capture with the baseline pixel by pixel. The result is **Match** or
**Mismatch**, and on a mismatch it writes a red overlay to `screentest/diff/<name>.png`.
Otherwise the capture is copied over the baseline and the status is **Baseline Created**.
One result record per actor is collected. The reporter then builds an HTML report from
them:
- a hero image, the first Desktop capture, or else the first capture;
- one section per category, in `Object.keys` order;
- one card per result, with a status badge, a difference text and, on a mismatch, the
  diff overlay.

The model has five modules:

- `Audition` (audition.dfy) models the `audition` action of index.js. The screenshot
  folders are a `FileStore`, a map from path to decoded image. A `Studio` object holds
  that store and the result list, and its methods update both in place. `Film` is the
  body of the actor loop and `Audition` is the loop itself. Each method is proved
  against the specification functions `TakeOf` (one actor) and `ProductionOf` (the whole
  run), and the lemmas about those functions state what the run guarantees. The
  mismatch is kept as an exact number of hundredths of a percent.
- `Reporter` (reporter.dfy) models reporter.js on a sequence of results:
  - hero selection and backslash normalisation;
  - grouping by category, as a `CategoryTable` object mutated by a loop like the
    `forEach`/`push`;
  - the section style;
  - the card badge.
  It also holds the prototype-name defect of the grouping test (see Findings).
- `PropertyOrder` (property_order.dfy) models the order in which `Object.keys` lists
  the own keys of an ordinary object. Array-index keys come first, ascending; the other
  keys follow in creation order.
- `Text` (text.dfy) holds the string operations the source relies on:
  - `String.prototype.includes`;
  - `replace(/\\/g, '/')`;
  - the decimal text of `Number.prototype.toFixed(2)` for a value held in hundredths.
- `Wrappers` (wrappers.dfy) defines `Option`.

Parameters in place of the outside world:
- The PNG codec and the browser are opaque: a capture is an `Image` value supplied per
  actor (`shots`, parallel to `actors`).
- `pixelmatch` is a function parameter of the run's `Setting`. It returns the number of
  differing pixels and the diff bytes. The hypothesis `CountsPixels` says that it never
  counts more pixels than the image has, and only the 0–100 % bound uses it.
- The path separator of `path.join` is a parameter: `/` on POSIX, `\` on Windows. This
  is what links index.js's paths to the reporter's backslash replacement.
- `--update` is the boolean `update` of the `Setting`.

Facts of the code that shape the model:
- The status values are exactly `New` (initial, never recorded), `Match`, `Mismatch`
  and `Baseline Created`. The code has no failure status.
- It films the actors one after another.
- It copies the capture over the baseline; there is no atomic rename.
- It takes the image dimensions from the baseline alone (index.js:59).
- index.js adds no size check. What pixelmatch does with images of different sizes is
  not modelled, and the parameter returns a count for any pair.

## Model

| member | source | states |
|---|---|---|
| Audition.ArtifactPathInjective | index.js:45-48 | two artifact paths are equal only when their folders and their actor names are equal |
| Audition.ArtifactPathsDistinct | index.js:46-48 | an actor's baseline, current and diff paths are three different paths |
| Audition.PercentHundredths | index.js:65 | the mismatch in hundredths is the nearest hundredth to 100·n/(w·h), ties rounded up: the true value lies in [h − ½, h + ½) hundredths |
| Audition.PercentBounds | index.js:65 | 0 differing pixels give 0.00; all pixels give 100.00; never more than 100.00 while n ≤ w·h |
| Audition.PercentMonotone | index.js:65 | more differing pixels never give a smaller mismatch |
| Audition.Studio.constructor | index.js:28-36 | a studio starts with the given files and no results |
| Audition.Studio.Film | index.js:45-85 | filming one actor changes the files and appends one result exactly as `TakeOf` of the old files says |
| Audition.Studio.Audition | index.js:28-92 | the run starts from an empty result list; the final files and results are `ProductionOf` the initial files over all actors in order |
| Audition.TakeRecord | index.js:78-85 | the result carries the actor's name, category, current path and diff path, and afterwards the current path holds the capture |
| Audition.StatusFollowsBaseline | index.js:52-76 | the status is Match or Mismatch exactly when a baseline exists and `--update` is off, Baseline Created exactly otherwise, and never the initial `New` |
| Audition.MismatchIffDiffPixels | index.js:64-72 | in the comparing branch, the status is Mismatch iff pixelmatch counts more than zero differing pixels, and Match iff it counts zero |
| Audition.MismatchPercentage | index.js:53-65 | the mismatch is the rounded percentage of differing pixels over the baseline's pixel count, and 0 for Baseline Created; with a counting comparator it is at most 100.00 |
| Audition.BaselineAfterTake | index.js:56-76 | afterwards a baseline exists: on the creating branch it equals the capture (whether or not one existed before), and on the comparing branch it is the old baseline, unchanged |
| Audition.DiffOnlyOnMismatch | index.js:60-68 | a diff file is written, with the baseline's dimensions and pixelmatch's output, exactly when the status is Mismatch; otherwise the diff path keeps its old content |
| Audition.UpdateNeverCompares | index.js:56-76 | with `--update` the status is always Baseline Created with mismatch 0, the baseline becomes the capture, and the diff path is untouched |
| Audition.TakeFrame | index.js:45-76 | filming an actor removes no file and touches no path other than that actor's three artifact paths |
| Audition.TakeKeepsOthers | index.js:45-76 | filming one actor leaves every artifact file of a differently named actor as it was |
| Audition.TakeLocal | index.js:56-76 | the result depends only on the files at the actor's baseline path |
| Audition.OneResultPerActor | index.js:38-85 | a run yields exactly one result per actor, in actor order, with that actor's name, category and paths, and a status other than `New` |
| Audition.BaselinesExistAfterRun | index.js:38-76 | a run removes no file, and afterwards every actor has a baseline file |
| Audition.ProductionFrame | index.js:38-76 | a run leaves every path that is not an artifact of some actor unchanged |
| Audition.ResultsIndependent | index.js:38-85 | with distinct actor names, each actor's result is the one it would get if filmed alone on the initial files |
| Audition.UpdateRun | index.js:38-76 | with `--update` and distinct names, every result is Baseline Created, every baseline is that actor's capture, and no diff file changes; the status part holds for any names (`UpdateAllCreated`) |
| Audition.UpdateAllCreated | index.js:38-76 | with `--update`, for any actor names, every result is Baseline Created with mismatch 0 |
| Audition.FirstRunCreatesBaselines | index.js:38-85 | with distinct names and no baselines yet, every result is Baseline Created with mismatch 0 and every actor ends with a baseline |
| Text.Includes | reporter.js:133-134 | `includes` is true iff the needle occurs at some position of the string |
| Text.Slashes | reporter.js:6 | replacing backslashes keeps the length, maps each backslash to `/`, keeps every other character, and leaves no backslash |
| Text.NatToStringValue | index.js:65 | the decimal text of a number reads back as that number |
| Text.FixedTwo | index.js:65 | the two-decimal text is an integer part, a dot and exactly two digits, and its integer part starts with 0 only when it is the single digit 0 |
| Text.FixedTwoRoundTrip | index.js:65 | the two-decimal text reads back as the same number of hundredths |
| PropertyOrder.OwnKeys | reporter.js:128 | `Object.keys` lists exactly the created keys, each as often as it was created |
| PropertyOrder.OwnKeysShape | reporter.js:128 | the keys are the array-index keys in ascending numeric order, followed by the other keys in creation order |
| PropertyOrder.OwnKeysCreationOrder | reporter.js:128 | when no key is an array index, the order is the creation order |
| Reporter.FindDesktop | reporter.js:5 | the search returns the first index whose category includes "Desktop", or nothing when there is none |
| Reporter.HeroIndex | reporter.js:5 | the hero is the first Desktop result, else the first result, else none when the list is empty |
| Reporter.HeroPath | reporter.js:6 | the hero path is "" for no results; otherwise it is the hero's current path with every backslash turned into `/`, and it contains no backslash |
| Reporter.NormalisedArtifactPath | reporter.js:6 | normalising an artifact path built with `/` or `\` gives the POSIX artifact path of the normalised name |
| Reporter.StyleFor | reporter.js:129-134 | the card class is tablet iff the category includes "Tablet", mobile iff it includes "Mobile" but not "Tablet", and desktop otherwise, with the matching icon |
| Reporter.BadgeFor | reporter.js:142-156 | the badge is status-mismatch / Regression iff the status is Mismatch, status-new / New Baseline / Reference saved iff it is Baseline Created, and status-match / Passing / Pixel Perfect otherwise; a diff overlay is present iff the status is Mismatch, and then it shows the diff path |
| Reporter.MismatchTextSpellsPercentage | reporter.js:150 | the difference text of a mismatch card is the two-decimal percentage, whose integer part starts with 0 only when it is the single digit 0 and which reads back as the recorded mismatch, followed by the suffix |
| Reporter.CategoryTable.constructor | reporter.js:122 | the table starts with no keys and no lists |
| Reporter.CategoryTable.Record | reporter.js:124-125 | recording a result creates its category's list when the category is not yet an own key (adding it to the creation order), then appends the result to that list; the keys stay distinct and match the lists |
| Reporter.CategoryTable.Keys | reporter.js:128 | the table's keys are exactly the categories that have an array |
| Reporter.Recorded | reporter.js:124-125 | after recording, the result's category maps to its old list plus the result, and every other list is unchanged |
| Reporter.GroupByCategory | reporter.js:122-128 | the groups have exactly the categories of the results, each group is the results of its category in input order, and the keys are `Object.keys` of the categories in first-appearance order |
| Reporter.GenerateLayout | reporter.js:121-176 | one section per key: its style from the category and one card per result of the category |
| Reporter.GenerateReport | reporter.js:4-110 | the report's hero path and its layout are as above |
| Reporter.CategoriesExact | reporter.js:124 | the categories are distinct, and a category occurs iff some result carries it |
| Reporter.FilterMembers | reporter.js:122-126 | a group holds exactly the results whose category is its key |
| Reporter.FilterKeepsOrder | reporter.js:123-125 | a group is the results of its category taken at increasing input positions, so input order is kept |
| Reporter.CategoriesPermute | reporter.js:122-126 | concatenating the groups in category order is a permutation of the results |
| Reporter.GroupingPermutes | reporter.js:122-128 | concatenating the groups in `Object.keys` order has the results' length and is a permutation of them: no result is lost or duplicated |
| Reporter.FirstIndexOfCategories | reporter.js:124 | every category's first appearance is a position of the input that carries it |
| Reporter.CategoriesInFirstAppearanceOrder | reporter.js:124 | the categories are listed in the order of their first appearance in the results |
| Reporter.SectionsInFirstAppearanceOrder | reporter.js:128 | when no category is an array-index string, the sections follow the order in which categories first appear |
| Reporter.PrototypeCategoryThrows | reporter.js:124-125 | recording a result whose category is a name inherited from `Object.prototype` (`toString`, `constructor`, `__proto__`, …) and not yet an own key throws instead of grouping it |
| Reporter.RecordAsWrittenAgrees | reporter.js:124-125 | for every category that is not an `Object.prototype` name, the as-written test groups exactly like the corrected one |

## Left out

- The browser session is left out (launch, device emulation, navigation, `waitUntil`, full-page screenshots, closing). It is I/O, and the capture is an opaque `Image` parameter.
- The internals of pixelmatch are left out, with its `threshold: 0.2`, `alpha: 0` and red diff colour. It is a function parameter whose count is only assumed to be bounded by the pixel count.
- The PNG codec is left out: files hold decoded images, so reading back a written file gives the same image.
- Directory creation (index.js:36) and the `fs` existence checks on directories are left out; the store is a map and needs no folders.
- The console output is left out, including the per-actor status line (index.js:87-89), along with chalk colours and commander option parsing. Only `--update` affects the model.
- The HTML template text, styles and fonts of reporter.js are left out, as are writing `report.html` and opening it. The report is the structured `Report` value.
- config.js's device descriptors and viewports are left out; only actor name and category enter the model.
- Audition.PercentHundredths: the source divides in floating point and then calls `toFixed(2)`. The model rounds the exact ratio half up, which can differ from IEEE-754 rounding on the last digit at exact ties.
- Audition.TakeOf: `mismatch` is the number `0` on the Baseline Created path and a string such as "0.00" on the comparing path. The model keeps both as natural hundredths, and the reporter only shows the value on Mismatch cards.
- Audition.TakeOf: index.js adds no size check before calling pixelmatch with the baseline's width and height. What pixelmatch does with images of different sizes (the published library throws, which would end the run) is not modelled: the `Comparator` parameter returns a count for any pair.
- Audition.ArtifactPath: `path.join`'s normalisation of names containing separators, `.` or `..` is left out. The path is the plain concatenation.
- Failures (a navigation timeout, a throwing screenshot) are not modelled; the code has no failure status and such an exception ends the whole run.

## Findings

| source | as written | input that shows it | evidently intended | confidence | as-written member | corrected member |
|---|---|---|---|---|---|---|
| reporter.js:124-125 | `if (!categories[r.category]) categories[r.category] = [];` on `const categories = {}` | a result whose category is "toString" (or "constructor", "valueOf", "__proto__", …): the lookup finds the inherited `Object.prototype` function, which is truthy, so no array is created and `categories[r.category].push(r)` throws a TypeError | create the group whenever the category is not yet an own key of the table, for every category string | not executed | Reporter.PrototypeCategoryThrows | Reporter.CategoryTable.Record |
