# Pattern and designer-search model of the fashion customiser page

The page in `app.js` puts a customisable fabric pattern on a 3D garment and
recommends designers for a style query. This project models the two parts of
it that compute something: the pattern painter and the designer search.

- **Pattern painting** (`drawPattern`, module `Pattern`). An off-screen
  512 x 512 canvas is modelled as the class `Pattern.Context2D`. It has a fill
  colour, a stroke colour, the current path (a list of circles) and the list
  of draw commands issued so far. `Pattern.DrawPattern` is the imperative
  painter. It fills the background, then runs the stripes, checks or dots
  loops, each as its own method with loop invariants. Each method is proved
  to append exactly the commands of a specification function
  (`PatternCommands`). Lemmas about that function give the layout of every
  pattern. The lemmas also use `ColourAt`, which gives the colour a point
  shows after a list of commands (the last command covering the point wins).
  With it they state what the finished picture looks like: plain, horizontal
  bands, a checkerboard, or 100 dots inside the canvas.
- **Designer search** (`recommendDesigners` over the four-profile catalogue,
  module `Designers`). It is modelled with pure functions:
  - A blank query returns a prefix of the catalogue.
  - Any other query is trimmed and lowercased.
  - Every profile gets one point per style tag that contains the query or is
    contained in it, plus 0.5 when its name and bio contain the query.
  - Profiles scoring zero are dropped.
  - The rest are sorted by score, then by rating, both descending. The sort
    is stable, as section 22.1.3.27 of ECMAScript 2019 requires of
    `Array.prototype.sort`.
  - The list is cut to `maxResults`, using the rules of `slice`.

  The catalogue is a constant and every operation is a function of its
  arguments. So the search cannot change the catalogue, and two calls with
  the same arguments give the same answer.
- **String helpers** (module `JsStrings`): `trim`, `toLowerCase` and
  `includes`, as the search uses them.
- `Options` holds the `Option` type. A missing query (`undefined` or `null`)
  is `None`.

Scores, ratings and canvas coordinates are exact `real`s.

## Model

| member | source | states |
|---|---|---|
| JsStrings.TrimStart | app.js:169-170 | the result is the suffix left once leading whitespace is dropped; all of what was dropped is whitespace, and the result does not start with whitespace |
| JsStrings.TrimEnd | app.js:169-170 | the result is the prefix left once trailing whitespace is dropped; all of what was dropped is whitespace, and the result does not end with whitespace |
| JsStrings.Trim | app.js:169-170 | `trim` returns a slice of the input with only whitespace on either side, and the slice neither starts nor ends with whitespace |
| JsStrings.TrimEmptyIffAllWhitespace | app.js:169 | a query trims to the empty string exactly when it is all whitespace |
| JsStrings.Lower | app.js:170-173 | `toLowerCase` keeps the length and maps each character on its own |
| JsStrings.LowerIdempotent | app.js:170-173 | lowercasing twice equals lowercasing once; a string with no capital letter is its own lower case |
| JsStrings.LowerKeepsOthers | app.js:173 | a character that is not a Latin letter occurs in the lowercased string exactly when it occurs in the original |
| JsStrings.Contains | app.js:172-173 | `includes` holds exactly when the query occurs at some offset of the string |
| JsStrings.ContainsSelfAndLength | app.js:172 | every string contains itself, and only strings at most as long are contained in it |
| JsStrings.ContainsFirstChar | app.js:172-173 | a string that lacks the query's first character does not contain the query |
| Designers.MatchCount | app.js:172 | the `reduce` count is at most the number of tags, and it is positive exactly when some tag matches |
| Designers.MatchCountIsMatchingTags | app.js:172 | the `reduce` count equals the number of tag positions where the tag contains the query or the query contains it |
| Designers.Score | app.js:171-175 | a score lies between 0 and the number of tags plus 0.5, and it is positive exactly when a tag or the name-and-bio text matches |
| Designers.ScoreFormula | app.js:171-175 | the score is the number of matching tags plus 0.5 exactly when the lowercased `name + ' ' + bio` contains the query |
| Designers.KeepPositiveSelects | app.js:176 | `filter(s => s.score > 0)` keeps exactly the records with a positive score, each at most as often as before |
| Designers.KeepPositiveLength | app.js:176 | the filtered list is as long as the set of positions whose score is positive |
| Designers.InsertPermutes | app.js:177 | inserting a record into a list adds exactly that record |
| Designers.InsertRanked | app.js:177 | inserting into a ranked list keeps it ranked under the comparator |
| Designers.SortByRankSorts | app.js:177 | the sort returns a permutation of its input, ranked by score descending and then by rating descending |
| Designers.InsertStable | app.js:177 | insertion puts a record after every record with the same score and rating |
| Designers.SortByRankStable | app.js:177 | the sort is stable: for each score and rating, the records with that key keep their input order |
| Designers.WithKeyAppend | app.js:177 | selecting one key from two joined lists equals joining the two selections |
| Designers.KeepPositiveWithKey | app.js:176 | for a positive score, the filter keeps every record with that key, in order |
| Designers.Profiles | app.js:178 | the closing `map(s => s.d)` keeps the length and takes each record's profile |
| Designers.ProfilesOfScoreEach | app.js:171-175 | scoring the catalogue and mapping back to profiles gives back the catalogue |
| Designers.ProfilesCount | app.js:171-178 | among consistently scored records, a profile occurs as often as its scored record does |
| Designers.ProfilesWithKey | app.js:171-175 | selecting one key from the scored catalogue and mapping back gives the catalogue's profiles with that score and rating, in order |
| Designers.RankingSorted | app.js:176-177 | the filtered and sorted list is ranked, and it holds nothing the scored list does not |
| Designers.RankingMembers | app.js:176-177 | a record is in the ranking exactly when it is a scored catalogue record with a positive score |
| Designers.RankingConsistent | app.js:171-177 | every ranked record carries its own profile's score |
| Designers.RecommendBlankQuery | app.js:169 | a missing, empty or whitespace-only query returns the first catalogue profiles, in catalogue order, without scoring; there are `min(maxResults, catalogue length)` of them for `maxResults >= 0`, and for a negative `maxResults` the catalogue length less that many (at least 0), as `slice(0, maxResults)` counts |
| Designers.RecommendFromCatalogue | app.js:170-178 | for a non-blank query, every returned profile comes from the catalogue, at most as often as it appears there |
| Designers.RecommendPositive | app.js:176-178 | for a non-blank query, every returned profile has a positive score |
| Designers.RecommendNoDuplicates | app.js:169-178 | a catalogue without repeated profiles gives a result without repeats, for any query |
| Designers.RecommendLength | app.js:176-178 | for a non-blank query and n the number of positively scored profiles, the result has `min(maxResults, n)` profiles when `maxResults >= 0`, and n less the magnitude of `maxResults` (at least 0) when it is negative |
| Designers.RecommendOrder | app.js:177-178 | no returned profile ranks strictly above one returned before it, by score and then by rating |
| Designers.RecommendStable | app.js:177-178 | the returned profiles with a given positive score and rating are the first profiles of the catalogue with that score and rating, in catalogue order |
| Designers.RecommendTopRanked | app.js:176-178 | a positively scored catalogue profile that is left out ranks above none of the returned ones |
| Designers.RecommendSingle | app.js:176-178 | when exactly one profile scores positively and `maxResults >= 1`, the result is that profile alone |
| Designers.CatalogueDistinct | app.js:161-166 | the catalogue ids are distinct, so no search on the page returns a profile twice |
| Designers.ScoreZero | app.js:171-175 | a profile whose tags, name and bio hold no letter from A to Z, where the query's first character occurs in no tag and not in the name-and-bio text, and no tag's first character occurs in the query, scores 0 |
| Designers.MinimalistFirstScore | app.js:161-175 | for the query "極簡", the first catalogue profile scores 1: one tag matches, and the name and bio do not |
| Designers.MinimalistSecondScore | app.js:161-175 | for "極簡", the second profile scores 0 |
| Designers.MinimalistThirdScore | app.js:161-175 | for "極簡", the third profile scores 0 |
| Designers.MinimalistFourthScore | app.js:161-175 | for "極簡", the fourth profile scores 0 |
| Designers.MinimalistRanking | app.js:161-177 | for "極簡", the ranking holds the first profile alone, with score 1 |
| Designers.MinimalistSearch | app.js:161-178 | any query that trims and lowercases to "極簡" returns just the first profile, with the default limit of 4 |
| Pattern.Context2D.constructor | app.js:14-16 | a new context has the given size, black fill and stroke colours, an empty path and no drawing |
| Pattern.Context2D.FillRect | app.js:21-31 | `fillRect` appends one rectangle in the current fill colour; nothing else changes |
| Pattern.Context2D.BeginPath | app.js:37 | `beginPath` empties the path; nothing else changes |
| Pattern.Context2D.Arc | app.js:37 | a full-circle `arc` with a radius of at least 0 adds a circle to the path; nothing else changes |
| Pattern.Context2D.Fill | app.js:37 | `fill` appends the current path as one filled shape in the current fill colour; nothing else changes |
| Pattern.CreatePatternCanvas | app.js:14-16 | the pattern canvas is fresh, 512 by 512, with nothing drawn |
| Pattern.PaintStripes | app.js:23-27 | the stripes loop appends exactly the 20 stripe rectangles, in order, and changes no other state |
| Pattern.PaintColumn | app.js:30-32 | one pass of the inner checks loop appends the column's cells where (i+j) is even, in order of j |
| Pattern.PaintChecks | app.js:28-33 | the nested checks loops append exactly the checkerboard cells, column by column |
| Pattern.PaintDots | app.js:34-38 | the dots loop appends 100 single-circle fills, drawn from the 3k-th to (3k+2)-th random numbers, and leaves the last circle as the path |
| Pattern.PaintOverlay | app.js:23-39 | the type switch appends the overlay of the named type, and nothing for any other type |
| Pattern.DrawPattern | app.js:18-40 | the painter appends the full-canvas background in c1 and then the type's overlay in c2; both colours end as c2 |
| Pattern.ColourAt | app.js:18-40 | a point has no colour exactly when no command covers it; otherwise it shows the colour of the last command covering it |
| Pattern.ColourOverBackground | app.js:21-22 | over a background covering the point, the point shows c2 when some overlay command covers it, and c1 otherwise |
| Pattern.LaterCoverWins | app.js:18-40 | once a later command covers a point, the colour there does not depend on anything drawn earlier |
| Pattern.PatternRedraw | app.js:21 | after a redraw every canvas point shows what the new pattern alone paints, whatever the canvas held before, because the background fill covers the whole canvas |
| Pattern.PatternShape | app.js:21-39 | the first command fills the whole canvas with c1; there are 20, 50, 100 or 0 further commands, by type, all in c2 |
| Pattern.PlainColour | app.js:21-39 | for `solid` or any unknown type, every canvas point shows c1 |
| Pattern.StripesLayout | app.js:23-27 | there are 20 stripes, each full-width at x = 0 with height h/40, inside the canvas, each starting two stripe-heights below the one before |
| Pattern.StepIndex | app.js:25 | a coordinate lies in step i of size s exactly when its quotient by s rounds down to i |
| Pattern.StripeBand | app.js:24-26 | a row lies in stripe i exactly when it is in band i (of height h/20) and in the upper half of that band |
| Pattern.StripesCover | app.js:23-27 | a canvas point is covered by some stripe exactly when it is in the upper half of its band |
| Pattern.StripesColour | app.js:21-27 | in the stripes pattern, a canvas point shows c2 in the upper half of its band and c1 in the lower half |
| Pattern.ColumnCellsLength | app.js:30-32 | the first j steps of the inner loop draw j/2 cells, rounded up or down by the parity of i |
| Pattern.ColumnCellsForm | app.js:30-32 | the m-th cell a column draws is at row 2m + (i mod 2) |
| Pattern.ChecksUpToForm | app.js:28-33 | after i columns there are 5i cells, and cell k is at column k/5, row 2(k mod 5) + (k/5 mod 2) |
| Pattern.ChecksForm | app.js:28-33 | the checks overlay is, in closed form, the 50 cells in column-major order |
| Pattern.CellInjective | app.js:31 | distinct grid positions give distinct rectangles on a canvas of positive size |
| Pattern.ChecksCells | app.js:28-33 | the cell at (i, j) is drawn exactly when 0 <= i, j < 10 and i + j is even |
| Pattern.ChecksInside | app.js:28-33 | every checks rectangle lies inside the canvas |
| Pattern.CellUnique | app.js:31 | a point lies in at most one grid cell |
| Pattern.ChecksCover | app.js:28-33 | a point in grid cell (i, j) is covered by some checks rectangle exactly when i + j is even |
| Pattern.ChecksColour | app.js:21-33 | in the checks pattern, a point in cell (i, j) shows c2 when i + j is even and c1 otherwise |
| Pattern.DotPlaced | app.js:36 | with random numbers in [0, 1), every dot's centre lies in the canvas and its radius lies in [6, 16) |
| Pattern.DotsLayout | app.js:34-38 | the dots pattern has 100 commands after the background, each one filled circle with its centre in the canvas and a radius in [6, 16) |

## Left out

- The Three.js scene, camera, lights, model loading and orbit controls. Also left out: the animation loop and its wave deformation, resize handling, DOM lookups and event wiring, the designer cards and the profile pop-up, the start-up block, and the texture upload from the pattern canvas. These are browser and library I/O, not computation.
- `Math.random` is a parameter `random: nat -> real`, giving the n-th number drawn. Dot k uses draws 3k, 3k+1 and 3k+2, in the source's order x, y, r. The model does not say which numbers are drawn.
- Floating point: coordinates, scores and ratings are exact reals. Scores are multiples of 0.5, so their differences are exact doubles. Rating differences are not (`4.8 - 4.6` is 0.20000000000000018 in JavaScript), but their signs, which are all the comparator uses, agree with the exact ones. The stripe and cell coordinates (multiples of 25.6, 12.8 and 51.2 on a 512-pixel canvas) are not binary fractions; the model gives the exact values that the doubles approximate, and rounding is not modelled.
- `Math.PI` and the arc angles: the only arc drawn is a full circle, so an arc is modelled as a whole circle. The straight segment a canvas would add between two arcs of one path never arises here, because every path holds one arc.
- Pixel rasterisation and anti-aliasing are not modelled. `ColourAt` is exact point coverage: a rectangle covers [x, x+w) by [y, y+h), and a circle covers its closed disc.
- Pattern.ColourAt: the last covering command decides a point's colour only for opaque colours. A translucent `fillStyle` such as `rgba(0,0,0,0.5)` blends with what lies under it under the canvas's default source-over compositing, and the model does not capture that blending.
- Colour strings are kept as given. The canvas's parsing and normalisation of `fillStyle` are not modelled, and neither is the default colour of a context, beyond the initial black.
- `Pattern.Context2D.Arc` requires a radius of at least 0. The canvas throws an `IndexSizeError` for a negative radius, which the painter never passes.
- `JsStrings.Lower` maps only the letters A to Z. Full Unicode case mapping is not modelled; the catalogue's tags and text are CJK, and lowercasing leaves them unchanged.
- Strings are sequences of Unicode characters, not UTF-16 code units. `trim`, `includes` and the character-by-character lowercasing behave the same either way for the text here.
- A query that is not a string, such as a number, would make `trim` throw. The model takes the query as an optional string.
