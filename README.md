# Page widgets of the ladybecca website, modelled in Dafny

The site's page script (`script.js`) sets up several independent widgets
once the page has loaded. Each widget keeps a little state of its own:
an index, a few flags, a stored string. This project models each widget as
a Dafny class that holds that state. The `active` class on a list of
elements becomes an array of booleans; a class on a single element, such as
the back-to-top button's `show`, becomes one boolean field. The handlers become
methods, and the browser's events, timers and observer become explicit
calls. Each method is proved against a specification function, and lemmas
about those functions state what the widget promises.

| file | module | widget |
|---|---|---|
| flags.dfy | `Flags` | shared shapes of a flag list: none on, exactly one on, counting |
| carousel.dfy | `Carousel` | testimonial slider: `showSlide`, `nextSlide`, `prevSlide`, set-up guard |
| cube.dfy | `Cube` | 3D cube banner: face index, rotation table, the interval tick and its delayed face activation |
| faq.dfy | `Faq` | FAQ accordion click handler |
| backtotop.dfy | `BackToTop` | back-to-top visibility on scroll |
| theme.dfy | `Theme` | dark/light switcher and its `theme` slot in `localStorage` |
| lightbox.dfy | `Lightbox` | image lightbox: open from a gallery image, three ways to close |
| reveal.dfy | `Reveal` | scroll reveal: the IntersectionObserver callback |

How the browser is replaced:
- A repeating timer tick is a method call: `Carousel.Slider.NextSlide` for the 8000 ms slideshow and `Cube.Rotator.Tick` for the 6000 ms cube interval.
- The 500 ms timeout that a cube tick arms is a separate call, `Cube.Rotator.ActivateFace`. It receives the face that `Tick` returned.
- An IntersectionObserver callback batch is a sequence of `Reveal.Entry` values. Each entry carries its target's index and its `isIntersecting` flag.
- The `theme` key of `localStorage` is one `Option<string>` field.
- The scroll offset `window.pageYOffset` is a `real`, because browsers report fractional offsets.
- The presence checks on elements become constructor preconditions, such as "at least one slide" or "at least one face". Elements that a selector may not find are modelled as optional (`Cube.Slot`).

## Model

| member | source | states |
|---|---|---|
| `Carousel.NextIndex` | script.js:106-109 | the next index stays in [0, n); it is one further, or 0 after the last slide |
| `Carousel.PrevIndex` | script.js:111-114 | the previous index stays in [0, n); it is one back, or n - 1 before the first slide (the `+ slides.length` keeps it non-negative) |
| `Carousel.NextPrevInverse` | script.js:106-114 | `prevSlide` after `nextSlide`, and `nextSlide` after `prevSlide`, return to the starting index |
| `Carousel.AdvanceIsModular` | script.js:106-109 | k calls of `nextSlide` from index i give (i + k) mod n, so repeated calls visit i, i+1, ..., n-1, 0, ... |
| `Carousel.RetreatIsModular` | script.js:111-114 | k calls of `prevSlide` from index i give (i - k) mod n, so repeated calls visit the slides in reverse |
| `Carousel.FullCycle` | script.js:106-114 | n calls of either button bring the slider back to its starting slide |
| `Carousel.ShowLeavesExactlyOne` | script.js:97-104 | after `showSlide(i)` with i in range, exactly one slide is active, and it is slide i |
| `Carousel.Slider.constructor` | script.js:122-135 | with at least one slide, set-up starts at index 0 with slide 0 the only active one |
| `Carousel.Slider.ShowSlide` | script.js:97-104 | every slide loses `active` and only slide `index` has it afterwards (an out-of-range index leaves none active) |
| `Carousel.Slider.NextSlide` | script.js:106-109 | the index becomes `NextIndex` of the old one, stays valid, and only the new slide is active |
| `Carousel.Slider.PrevSlide` | script.js:111-114 | the index becomes `PrevIndex` of the old one, stays valid, and only the new slide is active |
| `Cube.RotationsAreFourOrientations` | script.js:19 | the rotation table starts at 0 for the front face and names four different orientations: no two angles agree modulo 360 |
| `Cube.NextFace` | script.js:38 | a tick's face index stays in [0, 4); it is one further, or front (0) after left (3) |
| `Cube.FaceAfterIsModular` | script.js:26-38 | starting from front (0), after k ticks the face index is k mod 4 |
| `Cube.FourTicksReturn` | script.js:19-40 | four ticks bring back the same face and the same angle from the table |
| `Cube.TickIsQuarterTurn` | script.js:19-44 | each tick turns the orientation a quarter turn on: the new table angle is the old one minus 90 degrees, modulo a whole turn |
| `Cube.RawAngleSteps` | script.js:19-44 | the raw angle written into the transform changes by -90 on every tick except back to left, where it jumps by +270 |
| `Cube.ActivatedFaceIsTheOnlyOne` | script.js:47-54 | once a tick has cleared every face and its timeout has marked the new face, that face is the only active one |
| `Cube.Rotator.constructor` | script.js:18-33 | with at least one face, the index starts at front, no transform is set, and the front face (if the selector finds it) is made active before any tick |
| `Cube.Rotator.Tick` | script.js:36-50 | the index becomes `NextFace` of the old one, the transform is `rotateY` of `Rotations[index]`, every face loses `active`, and the face to activate later is the one found for the new index |
| `Cube.Rotator.ActivateFace` | script.js:51-55 | the delayed step marks that one face active and leaves every other flag unchanged; nothing happens if no element was found |
| `Faq.AfterClick` | script.js:143-157 | after a click on item k, item k holds the negation of its old flag and every other item is closed |
| `Faq.AtMostOneOpen` | script.js:145-156 | from any starting state, whatever was open, at most one item is open after a click |
| `Faq.ClickOpensOrClosesAll` | script.js:145-156 | a click on a closed item leaves exactly that item open; a click on the open item leaves none open |
| `Faq.ClickTwice` | script.js:143-157 | two clicks on the same item leave it with its own old flag and close every other item |
| `Faq.Accordion.constructor` | script.js:138-142 | the accordion starts from the markup's flags; only items with a question element get a handler |
| `Faq.Accordion.Click` | script.js:143-157 | the click handler's loop and toggle produce exactly `AfterClick` of the old flags |
| `BackToTop.VisibleBoundary` | script.js:165-169 | an offset of 300 hides the button; 300.5 and 301 show it; 0 hides it |
| `BackToTop.VisibleMonotone` | script.js:165 | scrolling further down never hides a shown button |
| `BackToTop.Button.constructor` | script.js:162-163 | when the button exists, it starts with the `show` state the markup gives it, until the first scroll event |
| `BackToTop.Button.OnScroll` | script.js:164-170 | after a scroll event `shown` becomes `Visible(offset)`, the strict `pageYOffset > 300` of script.js:165; the result depends on the offset alone, so repeating an event changes nothing |
| `Theme.Persisted` | script.js:189-193 | the handler writes only "dark" or "light", and writes "dark" exactly when dark mode is on |
| `Theme.ReloadRestoresTheme` | script.js:183-193 | a page whose markup starts light, loaded after any click, starts in the theme that the click left it in |
| `Theme.AnythingButDarkIsLight` | script.js:183-185 | no stored value, "light", or any string other than "dark" does not add dark mode at start-up, the same as an empty slot |
| `Theme.Switcher.constructor` | script.js:181-185 | set-up only adds dark mode: the body is dark if its markup already was, or if `DarkAtStartup` holds of the stored value, which is the exact test `=== 'dark'` of script.js:183 (no stored value counts as not "dark"); the slot is left unchanged |
| `Theme.Switcher.Toggle` | script.js:187-194 | a click flips dark mode and stores the name of the theme now shown |
| `Theme.ToggleTwice` | script.js:187-194 | two clicks restore the theme, and the slot then holds that theme's name |
| `Lightbox.Step` | script.js:226-251 | the modal is shown after an image click, or if it was shown and the event is not one of the three closers (`Closes`: a close-button click, a window click whose target is the modal backdrop, or a key for which `IsCloseKey` holds, which is exactly "Escape" or "Esc"); only an image click changes the image source and caption, and it copies the image's `src` property (the URL the browser resolved) and its `alt` |
| `Lightbox.OpenShowsClickedImage` | script.js:227-231 | opening from image "a.jpg" with alt "Caption A" shows "a.jpg" with caption "Caption A", whatever the earlier state |
| `Lightbox.CloseIsIdempotent` | script.js:235-251 | the close button, a click on the backdrop, and "Escape" or "Esc" each hide the modal; closing an already closed modal changes nothing |
| `Lightbox.OtherEventsChangeNothing` | script.js:240-251 | other keys and clicks on other targets leave the lightbox unchanged |
| `Lightbox.Modal.constructor` | script.js:224 | the lightbox starts in the state the markup gives it |
| `Lightbox.Modal.OpenImage` | script.js:227-231 | a gallery image's handler performs the `Step` of an image click |
| `Lightbox.Modal.CloseButton` | script.js:235-237 | the close button's handler performs the `Step` of a close click |
| `Lightbox.Modal.WindowClicked` | script.js:240-244 | the window click handler performs the `Step` of a click on that target |
| `Lightbox.Modal.KeyPressed` | script.js:247-251 | the keydown handler performs the `Step` of that key |
| `Reveal.Hits` | script.js:68-71 | every target of an intersecting entry in a batch is among the elements the batch reveals |
| `Reveal.Revealed` | script.js:68-70 | after a batch, an element is active exactly when it was active before or the batch hit it |
| `Reveal.HitsExactly` | script.js:67-73 | a batch reveals element t exactly when some intersecting entry in it targets t |
| `Reveal.NoIntersectionNoHits` | script.js:68-69 | a batch of entries that do not intersect reveals nothing |
| `Reveal.RevealIsMonotone` | script.js:68-72 | revealing is one-way: no batch clears an active flag |
| `Reveal.MissesChangeNothing` | script.js:68-73 | a batch of entries that do not intersect leaves every flag unchanged |
| `Reveal.Elements` | script.js:84-86 | the observed set at set-up holds exactly the indices of the `.reveal` elements |
| `Reveal.Revealer.constructor` | script.js:64-86 | with at least one element, every element is observed and the flags are the markup's |
| `Reveal.Revealer.OnEntries` | script.js:67-74 | each intersecting entry's target becomes active and leaves the observed set; nothing else changes; every unobserved element stays active (`Valid`) |

## Left out

- Timers are left out. This covers the intervals (6000 ms for the cube, 8000 ms for the slides), the 500 ms face timeout, the 100 ms preloader delay, and `clearInterval` resetting the slideshow after a button click. The model has ticks and clicks as method calls and does not model real time. A manual click's reset therefore does not show up.
- The IntersectionObserver's geometry (threshold 0.1, the `rootMargin`) and its delivery schedule are browser layout. Only each entry's `isIntersecting` flag is modelled.
- The preloader fade (script.js:5-11) is left out. It is a single timed class addition.
- The particle generator (script.js:198-215) is left out. It draws floats from `Math.random` and creates DOM nodes, so it has no statable behaviour.
- The back-to-top button's click handler (script.js:171-176) is left out. `window.scrollTo` with smooth scrolling is a browser API.
- Rendering is left out: CSS classes and inline styles beyond the flags above, and the text that `innerHTML` produces. The caption holds the `alt` string that is assigned.
- `localStorage` is one field. Its persistence across page loads appears only as the argument of `Theme.Switcher.constructor`.
- `Cube.Rotator.constructor`: each face selector is assumed to find either nothing or one of the `.cube-face` elements. An element that matches a selector but is not in the `.cube-face` list is not modelled.
- Event bubbling is not modelled. A click on a gallery image or on the close button also reaches the window's click listener. There its target is not the modal, so it is a separate `WindowClicked(false)` event, which changes nothing.
- Browser calls are assumed not to throw. Three of them can throw, and the script catches none of them: `new IntersectionObserver` (script.js:82) in a browser without it, and `localStorage.getItem` and `setItem` (script.js:183, 190, 192) when site storage is blocked. A throw during set-up stops the rest of the `load` handler. After line 82 that leaves the carousel, FAQ, back-to-top, theme and lightbox unwired. After line 183 it leaves the theme switcher's click handler (script.js:187), the particles and the lightbox unwired, so on such a page `Theme.Switcher.Toggle` models nothing. The model sets up every widget independently.
- `Theme.Switcher.Toggle`: a `setItem` that throws in the click handler leaves `dark-mode` toggled and the slot unchanged. The model's promise that the slot holds the name of the shown theme assumes the write succeeds.
- The four widgets that use the class `active` (cube faces, `.reveal` elements, slides, FAQ items) each get their own flag array, so the lists are assumed disjoint. An element on two lists is not modelled. For example, a `.faq-item` that is also `.reveal` would lose its revealed flag when another item is clicked. The one-way promise of `Reveal.RevealIsMonotone` holds only for `.reveal` elements that are on no other list.
- `Faq.Accordion.Click`: the source computes `wasActive` and never uses it. The model keeps it only to state the loop invariant.
