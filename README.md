# Portfolio page interactivity, modelled in Dafny

The portfolio page's script (`script.js`) does three things worth stating
exactly, and this project models those three:

- **The scroll compass.** The page tracks four checkpoint sections. On every
  scroll and resize it reads each section's document offset. A missing
  section reads as offset 0. It takes the vertical centre of the viewport as
  the probe and maps it to a pair `(activeIdx, percent)`:
  - up to and including the first offset: checkpoint 0 and 0 %;
  - past the first offset and from the last offset on: the last checkpoint
    and 100 %;
  - in between: the first segment `offsets[i] <= probe < offsets[i+1]` is
    highlighted, and the tick is interpolated linearly inside that segment's
    equal share `100 / (n - 1)` of the scale.

  Module `Compass` has the offsets (`SectionOffsets`), the specification
  function `ProgressAt`, and the handler's loop with its `break` as the
  method `MapScroll`, proved equal to `ProgressAt`.
- **The project info boxes.** A click on a project label closes every other
  open info box and toggles the clicked one. Module `ProjectInfo` has the
  class `InfoBoxes`, which holds an `array<bool>` of `active` flags. Its
  `Click` method is proved against the function `AfterClick`.
- **The resume tabs.** A click on a resume link makes it the only active
  link. If the link's key is `education`, `experience` or `certifications`,
  the click also sets the panel's title and number from two fixed tables.
  Module `Resume` has the class `ResumePanel`, with the link flags and the
  `title` and `number` fields. Its `ClickLink` method is proved against
  `Highlighted` and `HeadingAfterClick`.

Facts the proofs establish about the code as written:

- The division by the segment span on script.js:120 is never a division by
  zero. The guard on script.js:116 only admits segments with
  `offsets[i] < offsets[i+1]`, so equal neighbouring offsets are skipped.
  The verifier checks this at the division in `MapScroll`;
  `BracketedSpanPositive` states it. `100 / (n - 1)` is only reached when
  n ≥ 2.
- The fallback in which no segment brackets the probe and `activeIdx` and
  `percent` keep their initial 0 is unreachable, for ANY offsets, sorted or
  not (`AlwaysBracketed`). Once `offsets[0] < probe < offsets[n-1]`, the last
  index whose offset is at most the probe always starts a bracketing segment.
  The model keeps the fallback branch exactly as written, and the lemma shows
  it is never taken.
- With no offsets at all, every comparison with the missing offsets is false
  in the source and the loop runs zero times, so the result is `(0, 0)`. The
  model follows that. In the page there are always four checkpoints.

`checkpoints.length` and `offsets.length` are the same number in the
source, because the offsets are built by mapping over the checkpoints. The
model uses `|offsets|` for both.

## Model

| member | source | states |
|---|---|---|
| `Compass.DocumentOffset` | script.js:83 | (definition) the rectangle top plus the scroll position when the selector finds an element, and 0 when it finds none |
| `Compass.SectionOffsets` | script.js:80-85 | one offset per checkpoint, in checkpoint order; each is the rectangle top plus the scroll position, or 0 when the selector finds no element |
| `Compass.OffsetsIndependentOfScroll` | script.js:83 | when every section exists, the offsets are the sections' document positions for every scroll position |
| `Compass.MissingSectionBreaksOrder` | script.js:83 | the 0 fallback of a missing section breaks the non-decreasing order of the offsets once an earlier section lies below the document top |
| `Compass.Probe` | script.js:105 | the probe lies within the viewport, between its top and bottom edges |
| `Compass.Brackets` | script.js:116 | the guard `scroll >= offsets[i] && scroll < offsets[i+1]` over the loop's range `0 <= i < n-1`; whenever it holds, the segment has positive length `offsets[i] < offsets[i+1]` |
| `Compass.FirstBracket` | script.js:115-122 | the search returns the first segment at or after `from` with `offsets[i] <= scroll < offsets[i+1]`, or nothing when no such segment exists |
| `Compass.Share` | script.js:120 | each of the n-1 segments gets a positive share, and the n-1 shares add up to exactly 100 |
| `Compass.Interpolate` | script.js:118-120 | a probe inside segment i gets a percentage inside that segment's share `[i·100/(n-1), (i+1)·100/(n-1))` |
| `Compass.ProgressAt` | script.js:103-124 | percent always lies in 0..100; activeIdx < n whenever n ≥ 1; a probe up to and including the first offset gives (0, 0); a probe past the first offset and at or past the last gives (n-1, 100) |
| `Compass.MapScroll` | script.js:106-124 | the loop-with-break computation returns exactly `ProgressAt(offsets, scroll)`; the verifier checks that its division is by a positive span |
| `Compass.UpdateCompassOnScroll` | script.js:103-124 | the handler's result is `ProgressAt` of the section offsets at the viewport-centre probe |
| `Compass.BracketedSpanPositive` | script.js:116-120 | a segment that passes the bracketing test has positive length, and then n ≥ 2 |
| `Compass.BracketFrom` | script.js:115-116 | starting the search at any i with offsets[i] <= probe < offsets[n-1], a bracketing segment is found |
| `Compass.AlwaysBracketed` | script.js:109-123 | strictly between the extremes, activeIdx is the first bracketing segment and percent is its interpolation, for any offsets; the no-match fallback is never taken |
| `Compass.ProgressInterpolates` | script.js:115-121 | strictly between the extremes, percent = (i + (scroll-offsets[i])/(offsets[i+1]-offsets[i])) · 100/(n-1) with i the active index |
| `Compass.BracketOrder` | script.js:116 | for ordered offsets, a lower probe is bracketed by the same or an earlier segment |
| `Compass.BracketUnique` | script.js:116 | for ordered offsets, at most one segment brackets a probe |
| `Compass.SameSegmentMonotone` | script.js:118-120 | inside one segment the interpolated percentage does not decrease as the probe moves down the page |
| `Compass.LaterSegmentHigher` | script.js:120 | a probe in a later segment gets a percentage at least that of a probe in an earlier segment |
| `Compass.MiddleMonotone` | script.js:115-121 | between the extremes, for ordered offsets, percent and activeIdx do not decrease as the probe moves down the page |
| `Compass.ProgressMonotone` | script.js:109-121 | for ordered offsets, including equal neighbours, percent and activeIdx do not decrease as the probe moves down the page |
| `Compass.ProgressAtCheckpoint` | script.js:109-121 | for strictly increasing offsets, a probe exactly at checkpoint j highlights j and puts the tick at j·100/(n-1) |
| `Compass.ContinuousAtCheckpoints` | script.js:118-120 | for strictly increasing offsets, each segment's linear piece meets the mapping's value at both of its ends, so the tick never jumps |
| `Compass.FourSectionExample` | script.js:103-124 | offsets 0, 100, 300, 600: a probe at 150 gives (1, 125/3), at 0 gives (0, 0) and at 700 gives (3, 100) |
| `ProjectInfo.AfterClick` | script.js:13-20 | after a click the open boxes are exactly {target} when the target existed and was closed, and none otherwise; so at most one box is open, and the number of boxes is kept |
| `ProjectInfo.ClickTwiceRestores` | script.js:13-20 | when no other box is open, a second click on the same label undoes the first |
| `ProjectInfo.ClickOtherSwitches` | script.js:13-20 | opening one box and then clicking another label leaves only the second box open |
| `ProjectInfo.InfoBoxes.Click` | script.js:8-23 | the new flags are `AfterClick` of the old ones; the outcome says whether the box opened (the typewriter starts), closed, or did not exist (the handler fails after closing every box) |
| `Resume.HashIndex` | script.js:182 | the index returned is the first '#' in the string, or the length when there is none |
| `Resume.TabTypeOfAnchor` | script.js:182 | the link `#key` stands for `key`, and an href without '#' stands for itself |
| `Resume.TabTypeRemovesFirstHash` | script.js:182 | replacing '#' removes exactly the first '#' and keeps everything else in order |
| `Resume.TabType` | script.js:182 | an href without '#' is its own key; an href with a '#' loses exactly one character |
| `Resume.HeadingAfterClick` | script.js:189-199 | (definition) the heading is unchanged when a detail block is missing (the fade-out fails at line 190), when the key is unknown, or when the title element is missing (line 198 fails); otherwise the title becomes `Titles[key]` and the number `Numbers[key]`, unless the number element is missing (line 199 fails, number unchanged) |
| `Resume.HeadingFollowsKey` | script.js:196-199 | an unknown key leaves the heading unchanged; any change sets the key's title and either its number or the old one; on a page with every element, a known key sets exactly `Titles[key]` and `Numbers[key]`; without the number element, exactly `Titles[key]` and the old number |
| `Resume.HeadingIdentifiesBlock` | script.js:168-177 | no two blocks share a title and number |
| `Resume.Highlighted` | script.js:185-186 | after a click on link k, link k is the one and only active link; the number of links is kept |
| `Resume.ResumePanel.ClickLink` | script.js:180-199 | the link flags become `Highlighted(k)`; the heading becomes `HeadingAfterClick` of the old heading, the link's key and the page's elements: the tables' entries for a known key when every element exists, the title alone when only the number element is missing, and unchanged otherwise; `Valid()` is kept |

## Left out

- All animation done by the GSAP library is left out: the typewriter tween and its `kill()`, the project reveal timeline, the blinking hint, the click-to-scroll `scrollTo`, and the resume fade-out, fade-in and stagger tweens (script.js:24-38, 44-71, 88-100, 189-193, 200-216). It is a third-party library whose behaviour is not visible here. `InfoBoxes.Click` only reports through its `Opened` outcome that the typewriter would start.
- The renderer is left out (script.js:126-133). It runs in `requestAnimationFrame`, moves the tick and toggles the labels' `active` class. This is host scheduling and DOM writing. So are the event-listener registration and `setTimeout` (script.js:137-139, 200).
- Layout queries are inputs of the model: `getBoundingClientRect().top`, `window.scrollY` and `innerHeight` (script.js:83, 105).
- The dark-section colour toggle (script.js:142-156) is left out. It is a ScrollTrigger callback with no logic of its own.
- JavaScript numbers are modelled as exact reals. Floating-point rounding, NaN and infinities are not modelled.
- An info box is named by its position among the boxes rather than by its element id. A position outside the array stands for an id that matches no element. Duplicate ids are not modelled.
- `Resume.TabType` covers only links that have an `href`. A link without the attribute makes `getAttribute` return null, and the handler then fails before it changes anything.
- `Resume.HeadingAfterClick` does not model keys inherited from `Object.prototype`, such as `#constructor`. In the source such a key makes `resumeDetails[type]` truthy.
- The resume detail blocks appear in the model only through the set of keys whose element exists. Their display and opacity are animation state.
- `ProjectInfo.InfoBoxes.Click` assumes that every `data-target` id that matches an element matches a `.project-info` box (script.js:10, 13). In the source, an id that names some other element still gets that element's `active` class toggled at line 20, after every box is closed; the model treats such an id like one that matches nothing (`MissingTarget`, no toggle), and such an element's flag is not part of the model.
