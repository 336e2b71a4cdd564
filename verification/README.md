# Griddezign site widgets in Dafny

This project models the state machines and validators behind the Griddezign
agency site's two scripts.

`grid1.js` contributes:
- the contact form's attachment list, MIME-type icon, step-1 validator,
  message counter and two-step wizard;
- the infinite tools carousel;
- the FAQ accordion;
- the hero typewriter;
- the responsive entrance and stagger classes of the card grids.

`Main.js` contributes:
- the project carousel's `showSlider` rotation;
- the client-review slider: ring index, animation gate, stars, truncation
  and swipe;
- the scroll `throttle`;
- the project image modal: navigation, counter, zoom, pan and keyboard;
- `collectProjects`;
- `updateActiveLink`;
- the rotating hero line.

Every widget is a module of pure functions over immutable datatypes.

- DOM reads become parameters: field values, `innerWidth`, `scrollY`,
  section offsets, pointer coordinates and key names.
- DOM writes become fields of the returned state: the highlighted dot, the
  counter, the hidden chrome and the overlays.
- Each delayed callback is an explicit event:
  - the carousel's 600 ms teleport (`ToolsCarousel.Settle`);
  - the end of the review fade (`Reviews.Event.FadeEnd`);
  - the modal image load (`ImageModal.Event.ImageLoaded`);
  - the pan hint timeout;
  - the simulated submit delay (`ContactForm.SubmitDelayElapsed`).

Where a function is declared more than once, JavaScript keeps the last
declaration, and so does the model. For `grid1.js` that means
`proceedToNextStep` at 1049, `returnToPreviousStep` at 1069,
`validateStepOne` at 1091, `updateMessageCharacterCount` at 1117,
`submitContactForm` at 1273 and `resetContactForm` at 1333.

The shared JavaScript semantics live in `JsText`:
- `\s` and `trim()` use the ECMAScript WhiteSpace and LineTerminator set;
- `startsWith`, `includes` and `repeat` (a negative count throws);
- the truncating `%`;
- decimal printing of integers.

`ModArith` collects the facts about `%` that the ring indices need.

## Model

| member | source | states |
|---|---|---|
| Attachments.HandleFiles | grid1.js:923-952 | A batch is refused whole exactly when it would take the list past 10 files; then the list is unchanged and the reported room is `10 - current`. Otherwise the new list and the per-file verdicts are those of the reference review `ReviewAll`. A list within the limits stays within them: at most 10 files, 50 MB total, 5 MB each, no two with the same name and size. |
| Attachments.ReviewAll | grid1.js:931-949 | Reference reading of the `forEach`: one verdict per file of the batch, the first one judged against the list as it stands, and the list grows by at most the batch. |
| Attachments.ReviewAllAppends | grid1.js:931-949 | Reviewing only appends: the final list is the old list followed by exactly the files judged `Added`, in batch order. |
| Attachments.ReviewAllKeepsLimits | grid1.js:931-949 | A list within the size and uniqueness limits stays within them however the batch is judged. |
| Attachments.AdmitBatch | grid1.js:931-949 | The admission loop, pushing each admitted file as it goes, computes the same list and verdicts as the reference review. |
| Attachments.AdmittedKeepsLimits | grid1.js:931-949 | A file that is not a duplicate by (name, size), is at most 5 MB and fits under the 50 MB total can be appended without breaking the size and uniqueness limits. |
| Attachments.RemoveFile | grid1.js:1003-1006 | `splice(index, 1)`: for an in-range index exactly that entry goes, the others keep their order, and the multiset loses only it. An index past the end changes nothing. A negative index counts from the end, and one below `-length` removes the first entry. |
| Attachments.RemoveFileKeepsWellFormed | grid1.js:1003-1006 | Removing any entry keeps the upload invariant, including the running total. |
| Attachments.RemoveAllFiles | grid1.js:1008-1011 | The emptied list satisfies the invariant, has total 0, and leaves room for any batch of up to 10 files. |
| FileIcons.FileIconIsFirstMatch | grid1.js:1021-1030 | The chain of tests in `getFileIcon` equals first-match over the rule table (image/, video/, audio/ prefixes; pdf; word/document; excel/sheet; zip/compressed; else the generic icon). |
| FileIcons.FirstMatchFrom | grid1.js:1021-1030 | The icon is that of the first matching rule, or the default when no rule matches. |
| FileIcons.DocumentShadowsSheet | grid1.js:1025-1026 | Any non-media, non-PDF type containing `document` gets the Word icon, whatever else it names. |
| FileIcons.XlsxGetsWordIcon | grid1.js:1025-1026 | The `.xlsx` MIME type names a sheet but gets the Word icon. |
| FileIcons.CorrectedIconForSheets | grid1.js:1021-1030 | With the spreadsheet test moved before the Word test, every non-media, non-PDF spreadsheet type gets the Excel icon. Types naming no spreadsheet, or no Word document, keep their old icon. |
| FileIcons.XlsxGetsExcelIconCorrected | grid1.js:1026 | Under the corrected order the `.xlsx` type gets the Excel icon. |
| JsText.Trim | grid1.js:1092-1095 | `trim()` returns a slice of its input that neither starts nor ends with white space; everything cut away is white space. |
| JsText.TrimEmptyIffAllSpace | grid1.js:1097 | A field trims to the empty string exactly when it is all white space. |
| JsText.Includes | grid1.js:1024-1028 | `includes` is true exactly when the pattern occurs at some offset. |
| JsText.Repeat | Main.js:292-293 | `repeat(n)` throws (None) exactly for negative `n`; otherwise it yields `n` copies of the character. |
| JsText.TruncRem | Main.js:317 | JavaScript `%` with a positive divisor: Dafny's `%` for a non-negative dividend, a non-positive remainder above `-b` otherwise. In both cases `a - r` is a multiple of `b`. |
| JsText.ParseNatToString | Main.js:632 | Printing a number in decimal and reading it back gives the number. |
| ContactForm.IsEmailIffPattern | grid1.js:1102-1103 | The executable e-mail check accepts exactly the strings matching `^[^\s@]+@[^\s@]+\.[^\s@]+$`, read as three non-empty runs of non-space, non-@ characters joined by `@` and a dot. |
| ContactForm.EmailExamples | grid1.js:1102-1103 | The pattern accepts `a@b.co` and rejects `a@b`, `a@@b.com` and `plainstring`. |
| ContactForm.ValidateStepOne | grid1.js:1091-1115 | Step 1 is refused as incomplete exactly when some field is blank (all white space). It is refused for the e-mail exactly when all fields are filled but the trimmed e-mail fails the pattern. It passes exactly when all fields are filled, the e-mail matches and the trimmed mobile is non-empty and drawn from `[0-9+\-\s()]`. |
| ContactForm.UpdateCharacterCount | grid1.js:1117-1138 | Over 500 characters the text is cut to its first 500, the counter reads 500 and turns red. Otherwise the text is kept and the counter reads its length, red exactly above 450. The counter always equals the length of the kept prefix. |
| ContactForm.CounterIdempotent | grid1.js:1117-1138 | Running the counter again on the text it left changes nothing. |
| ContactForm.ProceedToNextStep | grid1.js:1049-1067 | The wizard reaches step 2 with a full progress bar exactly when step 1 validates; otherwise nothing changes. |
| ContactForm.ReturnToPreviousStep | grid1.js:1069-1085 | Back to step 1 with an empty progress bar, keeping fields and attachments. |
| ContactForm.ProceedThenReturn | grid1.js:1049-1085 | Forward then back restores the step-1 form exactly. |
| ContactForm.SubmitContactForm | grid1.js:1273-1303 | Sending starts exactly when a subject is chosen and the message is not blank; a missing subject is reported first. A refused submission changes nothing. A started one shows the loading overlay and disables the button. |
| ContactForm.SubmitDelayElapsed | grid1.js:1297-1301 | When the delay ends the success overlay shows; the form's fields and step are untouched. |
| ContactForm.ResetContactForm | grid1.js:1333-1359 | Reset yields step 1, progress 0, blank fields, no attachments, counter 0, no overlay and an enabled button. |
| ContactForm.ResetThenRetry | grid1.js:1333-1359 | Reset returns the initial form from any state. The next step is then refused for missing fields and a submission for the missing subject. |
| ContactForm.TypeMessage | grid1.js:1117-1124 | After typing, the stored message is at most 500 characters and the counter shows its length; text within the limit is stored unchanged. |
| ToolsCarousel.SlideNext | grid1.js:170-184 | While paused nothing changes. Otherwise the index grows by one, a teleport is scheduled exactly when it lands on a clone, and dot `(i + 1) mod n` lights. |
| ToolsCarousel.SlidePrev | grid1.js:186-205 | While paused nothing changes. From index 0 the index becomes `n - 1` but dot 0 stays lit; otherwise the index drops by one with its dot. |
| ToolsCarousel.GoToSlide | grid1.js:162-168 | A dot click moves to that index regardless of the pause flag and lights that dot. |
| ToolsCarousel.Settle | grid1.js:176-180 | A pending teleport snaps the index to 0 and leaves the dots alone. |
| ToolsCarousel.StepKeepsInv | grid1.js:162-205 | Every event keeps the index in `[0, n + pending teleports)`: the index sits on a clone only while a teleport is due. |
| ToolsCarousel.NextThenSettle | grid1.js:170-184 | From a settled index `i`, next followed by the teleport lands on `(i + 1) mod n`. |
| ToolsCarousel.AdvanceIsRing | grid1.js:170-184 | `k` settled steps right from `i` land on `(i + k) mod n`. |
| ToolsCarousel.SettleOverridesDotClick | grid1.js:162-181 | A dot clicked during the teleport window is overridden by the teleport. |
| ToolsCarousel.UpdateDots | grid1.js:156-160 | The lit dot is `index mod n`, a valid dot number. |
| ToolsCarousel.PrevFromFirstLeavesDotStale | grid1.js:186-205 | As written, prev from the first of three items shows the third item with dot 0 lit. |
| ToolsCarousel.CorrectedDotStaysInSync | grid1.js:156-205 | When the deferred index changes also relight the dots, the lit dot always matches the item on screen. |
| Faq.Toggle | grid1.js:685-715 | The clicked panel flips and its chevron follows it; every other panel and chevron closes. |
| Faq.ToggleKeepsSingleOpen | grid1.js:685-715 | After any click at most one panel is open, and every chevron agrees with its panel. |
| Faq.ToggleTwice | grid1.js:685-715 | Clicking a closed panel twice closes all panels. Clicking another panel opens only that one. |
| Typewriter.StepShowsPrefix | grid1.js:557-579 | Each tick keeps the state valid and shows the first `chars` characters of the current word. The delay is 2000 ms exactly after the last character is typed, 50 ms exactly while deleting, 100 ms otherwise. |
| Typewriter.WordCycle | grid1.js:548-579 | Typing a word out and deleting it takes twice its length in ticks and ends on the next word, empty. |
| Stagger.GetDeviceType | grid1.js:69-74 | Laptop from 1024 px, mobile below 768 px, tablet in between. |
| Stagger.EntrancePattern | grid1.js:76-100 | On wide screens cards enter from the left in pairs, `idx mod 4 < 2`. On phones they alternate, even positions from the left. Laptops delay positions `0, 3 (mod 4)`. Every card after the eighth enters from the right without delay. |
| Stagger.GetDevice | grid1.js:349-355 | Grid laptop above 1024 px, tablet in (768, 1024], small phone up to 360 px. |
| Stagger.StaggerPattern | grid1.js:357-378 | Above 1024 px the card at position `idx` enters from `[left, bottom, right][idx mod 3]`, so every three consecutive cards use all three. At 1024 px and below, even positions enter from the left and odd ones from the right, never the bottom. The pattern repeats every six cards. |
| Stagger.BreakpointsDisagree | grid1.js:69-74 | The card and grid classifiers disagree at exactly 768 px and 1024 px, where the cards pick the wider layout. |
| ProjectCarousel.ShowSlider | Main.js:207-220 | "next" on an empty list throws, and "prev" on one changes nothing. Otherwise lengths and multisets are kept. "next" moves the first item and thumbnail to the end and moves every other one up a place in order. "prev" moves the last to the front and every other one down a place in order. |
| ProjectCarousel.ShowSliderKeepsLockstep | Main.js:207-220 | Each position keeps an item and a thumbnail that started together. |
| ProjectCarousel.NextPrevInverse | Main.js:207-220 | "next" then "prev", and "prev" then "next", restore both lists. |
| Reviews.NextIndex | Main.js:316-318 | `(i + 1) % 10` stays in `[0, 10)`, stepping up and wrapping 9 to 0. |
| Reviews.PrevIndex | Main.js:320-322 | `(i - 1 + 10) % 10` stays in `[0, 10)`, stepping down and wrapping 0 to 9. |
| Reviews.NextPrevInverse | Main.js:316-322 | The two steps undo each other. |
| Reviews.GoToReview | Main.js:282-287 | While animating a request is a no-op. Otherwise it records the target and raises the gate. |
| Reviews.Complete | Main.js:289-311 | The end of the fade renders the review at the current index and opens the gate. |
| Reviews.StepKeepsInv | Main.js:282-322 | The index and the rendered review always name one of the ten reviews. |
| Reviews.SecondRequestDropped | Main.js:282-284 | Once a fade has started, further requests before it ends are dropped. |
| Reviews.ForwardThenBack | Main.js:282-322 | Next, fade, prev, fade shows the review one started from. |
| Reviews.Stars | Main.js:292-293 | The star line exists exactly for ratings 0..5: five symbols, filled for the first `rating`. |
| Reviews.EveryReviewHasStars | Main.js:243-254 | Every listed rating renders a star line. |
| Reviews.MaxReviewTextLength | Main.js:261-265 | 80 characters up to 480 px, 120 up to 768 px, 160 above. |
| Reviews.TruncateReviewText | Main.js:267-270 | Text within the limit is unchanged. Longer text becomes its first `max` characters plus an ellipsis. |
| Reviews.TruncationMonotone | Main.js:261-270 | A wider screen never shows less of a review, and truncation adds at most the ellipsis. |
| Reviews.SwipeDecision | Main.js:352-357 | Beyond 80 px to the right goes back, beyond 80 px to the left goes forward, anything shorter does nothing. |
| Reviews.Press | Main.js:341-345 | As written, a press sets `startX` and starts a drag but keeps the `currentX` of the last move. |
| Reviews.PressCorrected | Main.js:341-345 | The corrected press also starts `currentX` at the press point. |
| Reviews.Move | Main.js:347-350 | A move updates `currentX` only during a drag; otherwise nothing changes. |
| Reviews.Leave | Main.js:382-384 | Leaving the slider ends the drag and keeps both coordinates. |
| Reviews.LeaveCancelsSwipe | Main.js:347-384 | After the pointer leaves, moves are ignored and the release navigates nothing, however far the drag had gone. |
| Reviews.Release | Main.js:352-380 | Outside a drag a release does nothing. Otherwise the drag ends and `currentX - startX` decides the navigation. |
| Reviews.TapNavigatesAsWritten | Main.js:341-357 | As written, a tap at x = 300 on a fresh page advances the slider. |
| Reviews.TapIsInertCorrected | Main.js:341-380 | When the press resets `currentX`, a tap never navigates and a drag navigates by its own displacement only. |
| Throttle.Call | Main.js:51-60 | A call at `now` runs exactly when `now - last >= delay`, and only then moves `last` to `now`. |
| Throttle.Run | Main.js:51-60 | Over a sequence of clock readings, each call runs exactly when the reference schedule says it fires. |
| Throttle.RunsAreSpaced | Main.js:51-60 | With a clock that never runs backwards, any two runs are at least `delay` apart. |
| Throttle.DroppedCallIsTooSoon | Main.js:51-60 | A dropped call comes less than `delay` after a call that ran, or after time 0. |
| Projects.CategoryOf | Main.js:561 | A card's category is its `data-category` when non-empty, and "other" otherwise. The result is never empty. |
| Projects.CollectProjects | Main.js:556-576 | Keys are exactly the categories present; a missing or empty category becomes "other". Each group lists that category's cards in page order. |
| Projects.FiledInOrder | Main.js:560-573 | Each group holds only cards of its category, in increasing page order. |
| Projects.FindIndex | Main.js:591 | `findIndex` returns the first position holding the card, or -1 exactly when none does. |
| Projects.ClickedCardIsFound | Main.js:581-596 | A clicked card is always found in its own non-empty category list. |
| ActiveLink.CurrentId | Main.js:150-161 | The current id is that of the first section containing `scrollY + 120`, or "" when none does. |
| ActiveLink.UpdateActiveLink | Main.js:147-166 | A link is highlighted exactly when its `href` minus the first character equals the current id. A link without `href` never is. |
| ActiveLink.HighlightIsExclusive | Main.js:163-166 | Links with different anchors are never highlighted together. |
| ActiveLink.BareHashLinkLitOutsideSections | Main.js:150-166 | When no section contains the reading position, a link whose `href` is `#` is highlighted. |
| RotatingText.Tick | Main.js:192-195 | Each tick moves to the next of the five phrases, wrapping, and shows it. |
| RotatingText.AfterIsMod | Main.js:191-196 | After `k` ticks the phrase shown is number `k mod 5`. |
| ImageModal.OpenModal | Main.js:598-623 | With an empty list nothing happens. Otherwise the modal opens and shows the spinner; zoom and pan wait for the image load. |
| ImageModal.PreviousImage | Main.js:635-640 | On the first image nothing changes. Otherwise the index drops by one and the modal reloads; the zoom waits for the load. |
| ImageModal.NextImage | Main.js:642-647 | On the last image nothing changes. Otherwise the index grows by one and the modal reloads. |
| ImageModal.CounterText | Main.js:631-633 | The counter is digits, " / ", digits: read back, the part before the first space is the one-based position and the part after the separator is the total. |
| ImageModal.CounterTextInjective | Main.js:631-633 | Different positions or totals never give the same counter text. |
| ImageModal.ZoomIn | Main.js:650-659 | Below 3x the zoom becomes `min(z * 1.2, 3)`; at 3x nothing changes. The pan is untouched. |
| ImageModal.ResetPan | Main.js:681-686 | The translation variables `translateX/Y` and the committed `lastTranslateX/Y` go to 0. The image keeps the transform it was last given. |
| ImageModal.ZoomOut | Main.js:661-671 | As written: above 1x the zoom becomes `max(z / 1.2, 1)` and the image is given that zoom with the old translation. Only then, on reaching 1x, are the translation variables `translateX/Y` zeroed and the hint hidden. At 1x nothing changes. |
| ImageModal.ZoomOutKeepsOldTranslation | Main.js:661-671 | As written, a zoom-out that reaches 1x leaves the image showing the translation it had, while the variables read 0. The image matches the variables only if that translation was 0. |
| ImageModal.ZoomOutLeavesImageShifted | Main.js:661-671 | As written, open, zoom in, drag `dx` px sideways and zoom out: the image sits at 1x shifted by `dx`. |
| ImageModal.ZoomOutCorrected | Main.js:661-671 | With the pan reset before the transform is applied, the image shows the current zoom and translation. Reaching 1x shows no translation. |
| ImageModal.ZoomOutCorrectedOnlyFixesImage | Main.js:661-671 | The corrected zoom-out reaches the same state as the one written; only the image's transform differs. |
| ImageModal.ResetZoom | Main.js:673-686 | 1x with the translation variables at 0 and nothing committed. The image is given scale 1 and no translation; chrome shown, hint hidden. |
| ImageModal.CloseModal | Main.js:625-629 | Closing hides the modal and resets zoom and pan. |
| ImageModal.PressPan | Main.js:721-728 | A drag starts only when zoomed, anchored at the pointer minus the committed translation. |
| ImageModal.MovePan | Main.js:730-737 | While dragging and zoomed, the translation follows the pointer from the anchor and the image is given it. |
| ImageModal.DragMovesBy | Main.js:721-746 | A complete drag while zoomed moves the image by the pointer's displacement from the committed translation, and commits it. |
| ImageModal.ReleasePan | Main.js:739-746 | Ending a drag commits the translation. |
| ImageModal.KeyDown | Main.js:789-836 | Keys do nothing while the modal is closed. When it is open, Escape closes and resets it, the arrows behave as `ArrowKey` states, `+`/`=` zoom in, `-`/`_` zoom out, `0` resets, and any other key does nothing. |
| ImageModal.ArrowKey | Main.js:796-823 | Shift+Left and Shift+Right step to the previous and next image within bounds. Otherwise Left and Right, and Up and Down, move the image 20 px and give it the new translation, only when zoomed. They leave the committed translation alone. |
| ImageModal.KeyDownCorrected | Main.js:789-836 | With both fixes, every arrow key on an open modal leaves the committed translation equal to the translation variables. The zoom-out keys use the corrected zoom-out. All other keys behave as written. |
| ImageModal.StepKeepsInv | Main.js:598-843 | Every event, as written or corrected, keeps the zoom within [1, 3] and the image's scale equal to it. At 1x the translation variables `translateX/Y` are 0 with nothing committed; while zoomed the image shows them. The chrome is hidden exactly when zoomed, the hint shows only when zoomed, and the index points into a non-empty list whenever the modal is open. |
| ImageModal.CorrectedKeepsShown | Main.js:598-843 | With the corrected zoom-out, every event keeps the image showing exactly the current zoom and translation variables, so at 1x it shows no translation. |
| ImageModal.SevenZoomOutsReset | Main.js:661-671 | Seven zoom-outs from any valid state return to 1x with the translation variables `translateX/Y` at 0. |
| ImageModal.ZoomInOutRestores | Main.js:650-671 | Zooming in and straight out restores the zoom unless the 3x cap intervened. |
| ImageModal.ArrowPanLostOnDrag | Main.js:796-823 | As written, an arrow-key pan is lost at the next drag: the image jumps back 20 px. |
| ImageModal.CorrectedKeepsPanCommitted | Main.js:721-836 | When arrow keys commit their pan, the committed translation matches the screen whenever no drag is running. |
| ImageModal.CorrectedDragContinues | Main.js:721-737 | With that correction, a press and a move without displacement leave the image where it is. |

## Left out

- DOM rendering is out of scope: class toggles, `innerHTML`, toasts, focus, the shake animation, the step indicators' markup and `updateFileList`'s summary. The model keeps only the state these reflect.
- Timer and animation-frame scheduling is out of scope: auto-advance intervals, `resetAuto` and `resetReviewAuto`, and the hover and tooltip pauses beyond the pause flag. Their effects are the explicit events listed above.
- `formatFileSize` is left out because it relies on floating-point `Math.log` and `toFixed`.
- The particle canvas and confetti are left out because they rely on `Math.random`.
- The tooltip, the video modal, the custom cursor, reveal observers and the tailwind configuration are left out: they are DOM geometry, media or static configuration.
- `fetch("navbar.html")` and initialization order are network and start-up plumbing.
- ToolsCarousel.SlidePrev: the animation-frame callback is taken to run straight after the click. An interleaving where a teleport fires between the jump to `n` and the step back is not modelled.
- ToolsCarousel: `itemWidth` and the pixel transforms are left out; only the index and the dots are modelled.
- ContactForm.UpdateCharacterCount counts Unicode scalar values; JavaScript's `length` counts UTF-16 code units. The two differ for characters outside the Basic Multilingual Plane.
- Reviews.TruncateReviewText counts Unicode scalar values where `slice` counts UTF-16 code units, for the same reason.
- ContactForm.ResetContactForm assumes the subject select's default option has the empty value, so `form.reset()` leaves no subject chosen.
- ContactForm.SubmitContactForm: the simulated network request is only the delay event. The commented-out earlier version with an e-mail service call is left out.
- ProjectCarousel.ShowSlider requires one thumbnail per item, as the markup provides. With fewer thumbnails "prev" would prepend the text "undefined".
- ProjectCarousel.ShowSlider: "prev" on an empty list prepends an `undefined` text node, which is not an item. The model leaves the item lists unchanged in that case.
- ImageModal: pointer coordinates are integers; browsers report fractional touch coordinates.
- ActiveLink.UpdateActiveLink takes `scrollY` as an integer. Browsers can report a fractional scroll position, which could fall between two section bounds.
- Reviews.Press, Reviews.Move: `clientX` is an integer, while touch coordinates can be fractional. Only the comparison with the 80 px threshold depends on it.
- Projects.CollectProjects files every category normally. The source builds a plain object, so a `data-category` of `constructor` or `__proto__` finds an inherited non-array value, and the `push` throws. The model does not capture that.
- ImageModal: mouse and touch drags keep separate anchors but share `isDragging`. The model has one anchor, which is exact unless a mouse drag and a touch drag interleave.
- ImageModal.ZoomOut uses exact real arithmetic. In floating point, repeated `* 1.2` and `/ 1.2` need not return to exactly 1, which the model does not capture.
- ImageModal: title, description and image URL are not modelled; only the index and the counter are.
- Projects: a card is identified by its page position rather than by DOM identity, and only its category is kept.
- Throttle: clock readings are an input sequence instead of `Date.now()`. The `grid1.js` throttle and `rafThrottle` helpers are scheduling plumbing.
- Stagger: viewport widths are integers, as `innerWidth` reports them. The visibility check of the project grid is DOM geometry.

## Findings

| source | as written | input that shows it | evidently intended | confidence | as-written member | corrected member |
|---|---|---|---|---|---|---|
| grid1.js:1025-1026 | The Word test (`word` or `document`) runs before the spreadsheet test. | `application/vnd.openxmlformats-officedocument.spreadsheetml.sheet` (an `.xlsx` file) gets `fas fa-file-word`. | Spreadsheets get `fas fa-file-excel`. | high; not executed | FileIcons.XlsxGetsWordIcon | FileIcons.XlsxGetsExcelIconCorrected |
| grid1.js:186-205 | `updateDots()` runs before the animation-frame step from `n` back to `n - 1`. | Three items, index 0, prev: the third item shows with dot 0 lit. | The dot of the item on screen is lit. | high; not executed | ToolsCarousel.PrevFromFirstLeavesDotStale | ToolsCarousel.CorrectedDotStaysInSync |
| Main.js:341-357 | touchstart and mousedown set `startX` but keep the old `currentX`. | Fresh page, tap at x = 300 without moving: `diff = 0 - 300` and the slider advances. | A tap does not navigate. | high; not executed | Reviews.TapNavigatesAsWritten | Reviews.TapIsInertCorrected |
| Main.js:661-671 | `zoomOut` calls `applyTransform()` before `resetPan()`. | Open, zoom in to 1.2x, drag 50 px right, zoom out: the image is at scale 1 still translated 50 px, with `translateX` reading 0. | At 1x the image shows no translation, as after `resetZoom`. | high; not executed | ImageModal.ZoomOutLeavesImageShifted | ImageModal.CorrectedKeepsShown |
| Main.js:796-823 | Arrow keys change `translateX/Y` without committing `lastTranslateX/Y`. | Zoom to 1.2x, ArrowLeft, then press and move at the same point: the image jumps back 20 px. | A drag continues from where the keys left the image. | high; not executed | ImageModal.ArrowPanLostOnDrag | ImageModal.CorrectedKeepsPanCommitted |
