# Portfolio page behaviour: a Dafny model

The personal website's `app.js` is mostly DOM wiring. A few of its handlers are
small state machines with exact rules, and this project models those as pure
functions over immutable state:

- **Tech-stack marquee** (`initTechStackCarousel`). The container's items are
  rendered twice back to back. Every animation callback moves the track 0.5
  pixel left and snaps it back to exactly 0 once it has travelled half of the
  doubled track's `scrollWidth`. Hovering cancels the animation and leaving
  restarts it. A touch drag scrubs the track by half the finger's movement.
  The modules are `Marquee` (state and handlers) and `MarqueeProofs`
  (properties over tick, drag and event sequences). Scheduling is modelled
  explicitly. A requestAnimationFrame "chain" is a callback that reschedules
  itself. The page keeps only the id of the callback scheduled last, so
  `Carousel` counts the live chains and records whether that id still names
  one of them.
- **Navigation bar on scroll** (`NavScroll`). The bar's background is solid
  past 50 pixels. The bar is hidden while scrolling down past 100 pixels, and
  the handler remembers the last offset.
- **Active link highlighting** (`ActiveLink`). A probe line 100 pixels below
  the top of the viewport selects the last section that contains it. Exactly
  the links pointing at that section get highlighted.
- **Mobile menu** (`MobileMenu`). This covers the button toggle,
  `aria-expanded` and the hamburger icon, closing on an outside click, and the
  navigation-link click.
- **Hero text splitting** (`HeroText`). Each character of a heading becomes a
  span. A space is shown as U+00A0. Span i fades in after i × 0.05 s.

Positions and delays are Dafny `real`s. Every constant is an exact fraction,
so this is exact rational arithmetic. `scrollWidth` is a `nat` parameter of
every tick, because the page re-reads it on every frame. Each tick's halfWidth
is `scrollWidth / 2`.

An empty track (halfWidth 0) is not special-cased: the animation keeps
ticking, and every tick sets the position to 0 (`Marquee.Advance`). Nothing
in the code keeps one animation chain per running period (see Findings).

## Model

| member | source | states |
|---|---|---|
| `Marquee.Advance` | app.js:455-462 | A tick either moves the track exactly 0.5 left or resets it to exactly 0, never to a remainder. It moves whenever the magnitude after moving stays below halfWidth. Afterwards the magnitude is below halfWidth when the track has width, and the position is 0 when it has none. |
| `Marquee.Init` | app.js:439-469 | Without the container there is no marquee. Otherwise it starts with one animation chain, the one `animationId` names, not dragging, and one tick already taken from the origin. |
| `Marquee.Resume` | app.js:455-466 | A direct `animateCarousel()` call ticks once and adds one chain, whatever is already running; the chain it schedules is the one `animationId` names. Drag state is untouched. |
| `Marquee.Cancel` | app.js:473 | `cancelAnimationFrame(animationId)` stops the named chain only: the chain count drops by one iff a named chain was live, unnamed chains survive, and the position and drag state are untouched. |
| `Marquee.Frame` | app.js:455-466 | One frame ticks the track once per live chain and keeps the number of chains; afterwards `animationId` names a live chain iff one exists. With no chain the frame changes nothing. |
| `Marquee.Start` | app.js:468-469 | Page load's `animateCarousel()` ticks once from the origin and leaves one named chain, not dragging. |
| `Marquee.MouseEnter` | app.js:472-476 | Hovering cancels the named chain and keeps the position, the drag flag and the touch anchor; unnamed chains keep running. |
| `Marquee.MouseLeave` | app.js:478-481 | Leaving ticks once and adds a named chain, on top of any live ones. The drag flag and the touch anchor are untouched. |
| `Marquee.TouchStart` | app.js:487-491 | A touch starts a drag anchored at the finger's x, keeps the position and cancels only the named chain. |
| `Marquee.TouchMove` | app.js:493-502 | Without a drag nothing changes. During a drag the track moves by 0.5 times the finger's movement since the anchor, and the anchor becomes the new x; chains are untouched. |
| `Marquee.TouchEnd` | app.js:504-507 | Lifting the finger ends the drag, ticks once and adds a named chain. |
| `Marquee.ResumeOnce` | app.js:478-507 | The corrected restart starts one chain (and ticks) only when none is live, and otherwise changes nothing. It never creates an unnamed chain. |
| `MarqueeProofs.TicksWithinLoop` | app.js:452-462 | Within the first loop, j ticks from the origin leave the track at exactly -0.5·j. |
| `MarqueeProofs.TicksWholeLoops` | app.js:455-462 | After any whole number of loops (q·scrollWidth ticks) the track is exactly back at 0. |
| `MarqueeProofs.TicksFromOrigin` | app.js:452-462 | From the origin, k uninterrupted ticks leave the track at -0.5·(k mod scrollWidth), that is -0.5·(k mod 2·halfWidth). |
| `MarqueeProofs.FullLoop` | app.js:455-462 | The track returns to the origin after exactly scrollWidth ticks (600 when halfWidth is 300) and not before. |
| `MarqueeProofs.RunFrames` | app.js:455-466 | Frames with no live chain change nothing. With one live chain, each frame ticks once and the chain stays single. |
| `MarqueeProofs.MouseEnterHolds` | app.js:472-476 | Hovering leaves the position unchanged, never adds chains, and a second hover in a row changes nothing more. |
| `MarqueeProofs.HoverPauses` | app.js:472-476 | With the page's handlers, hovering over a marquee with one named chain stops it: any number of frames afterwards leave the state exactly as the hover left it. |
| `MarqueeProofs.ResumeContinues` | app.js:478-481 | Leaving resumes from the paused position with no jump. Mouseleave's tick and the next n frames give exactly the position n+1 ticks from the paused value, with one chain. |
| `MarqueeProofs.DragTelescopes` | app.js:493-502 | Over a drag through x1…xn the track ends at start + 0.5·(xn − anchor), whatever the intermediate points. No wrap is applied, and the animation chains are untouched. This folds touch moves alone; on the page, where frames keep firing, it holds only while no chain survived touchstart (`MarqueeProofs.DragOnPage`). |
| `MarqueeProofs.DragIgnoredWhenIdle` | app.js:493-494 | Touch moves without a drag in progress change nothing. |
| `MarqueeProofs.DragFromTouch` | app.js:487-502 | A touchstart at x0 followed by moves through x1…xn leaves the track at start + 0.5·(xn − x0). Touchstart's cancel stops the named chain; only unnamed chains survive it, and on the page those would keep ticking during the drag. |
| `MarqueeProofs.DragOnPage` | app.js:455-502 | Over the page's event loop, with no live chain and a drag in progress, any mix of touch moves and frames leaves the track at start + 0.5·(last x − anchor): frames do nothing, no wrap is applied, and no chain starts. |
| `MarqueeProofs.TouchGesture` | app.js:487-507 | On a marquee with no unnamed chain, touchstart at x0, any moves and frames, then touchend leave the track one tick past start + 0.5·(last x − x0), not dragging, with exactly one named chain. |
| `MarqueeProofs.FirstTicks` | app.js:452-469 | On a wide enough track, page load's tick plus 299 frames put the track at -150 with one named chain. |
| `MarqueeProofs.HoverScenario` | app.js:452-481 | The sequence 300 ticks, hover, 50 frames, leave, 49 frames ends at -175. The hovered frames contribute no movement. |
| `MarqueeProofs.MultiTouchLeavesLoopRunning` | app.js:478-507 | As written, two touchstarts and two touchends leave two animation chains. A hover afterwards cancels only one of them, and the next frame still moves the track. |
| `MarqueeProofs.OnceAgrees` | app.js:472-507 | The corrected handlers differ from the page's only at a restart while a chain is live. There the page adds a chain and the corrected handler does not. |
| `MarqueeProofs.FramesAgree` | app.js:455-466 | Frames alone behave identically under the page's handlers and the corrected ones. |
| `MarqueeProofs.OnceKeepsSingleLoop` | app.js:471-507 | With the corrected restart, no event sequence ever leaves more than one chain, or a chain that a cancel cannot reach. |
| `MarqueeProofs.OnceHoverPauses` | app.js:471-507 | With the corrected restart, after any history of events from page load, a hover stops all motion for any number of frames. |
| `NavScroll.ScrollTop` | app.js:45 | The offset read is `pageYOffset` when it is nonzero, and the document's `scrollTop` exactly when `pageYOffset` is 0. |
| `NavScroll.FirstScroll` | app.js:42-65 | The first scroll after load starts from a remembered offset of 0: the bar hides iff the offset read is past 100, is solid iff it is past 50, and remembers `pageYOffset`, or the document's `scrollTop` when `pageYOffset` is 0. |
| `NavScroll.OnScroll` | app.js:44-65 | The background is solid iff the offset is past 50. The bar is hidden iff the offset grew and is past 100. The handler then remembers the offset. A hidden bar is always solid. |
| `NavScroll.ScrollsLastMovement` | app.js:42-65 | After any nonempty run of scroll events, the bar depends only on the last movement: solid iff the last offset is past 50, hidden iff the last move went down and ended past 100. |
| `NavScroll.NotDownShows` | app.js:56-65 | After any history, a scroll event that does not go down shows the bar. |
| `ActiveLink.LastMatch` | app.js:139-155 | Picks the last section in document order whose [top, top + height) contains the probe line. It returns nothing iff no section contains it. |
| `ActiveLink.Highlight` | app.js:145-153 | Every link keeps its href and is highlighted exactly when its href is the target. |
| `ActiveLink.UpdateActiveNavLink` | app.js:135-155 | Suppose some section contains scrollY + 100. Then exactly the links whose href is `#id` of the last such section end up highlighted. If no section contains it, no link changes. Hrefs never change. |
| `MobileMenu.Toggle` | app.js:97-115 | The button flips `hidden` and leaves `aria-expanded` and the icon's cross equal to "not hidden". |
| `MobileMenu.OutsideClick` | app.js:118-131 | A document click hides the menu only when it was open and the click is outside both menu and button; it then also sets `aria-expanded` to false and uncrosses the icon, whatever they were. Otherwise nothing changes. A consistent button stays consistent. |
| `MobileMenu.ButtonClickToggles` | app.js:97-131 | A button click, including its bubbling to the document handler, toggles the menu. Two button clicks restore it. |
| `MobileMenu.Click` | app.js:96-131 | A whole click: on the button it toggles the menu, inside the menu it changes nothing, elsewhere it leaves the menu closed, with an open menu's `aria-expanded` set to false and its icon uncrossed, and a closed menu untouched. Every click keeps a consistent button consistent. |
| `MobileMenu.NavLinkClick` | app.js:68-92 | The link handler scrolls iff the href is not `#` and its section exists, to the section's offsetTop − 80. As written it returns the menu unchanged. |
| `MobileMenu.NavLinkKeepsMenu` | app.js:68-92 | As written, a navigation-link click never changes the menu. It only decides the scroll target (offsetTop − 80). |
| `MobileMenu.NavLinkClickCloses` | app.js:72-91 | The corrected link click scrolls iff the href is not `#` and the target exists. It then leaves the menu hidden; an open menu also gets `aria-expanded` false and an uncrossed icon, and a consistent button stays consistent. An already hidden menu is left exactly as it was. Otherwise the menu is untouched. |
| `HeroText.Shown` | app.js:183 | A span never shows a plain space: a space is shown as U+00A0 and every other character unchanged. |
| `HeroText.SplitText` | app.js:177-189 | There is one span per character, in order. Span i shows the character, with a space replaced by U+00A0, and has delay i·0.05 s, so delays strictly increase. |
| `HeroText.RenderedRoundTrip` | app.js:181-183 | Reading the spans back, with U+00A0 turned into a space, gives the original text whenever the text had no U+00A0 of its own. |
| `HeroText.SplitOfAppend` | app.js:181-187 | Splitting a + b gives a's spans followed by b's spans, with b's delayed by 0.05 s per character of a. |

## Findings

| source | as written | input that shows it | evidently intended | confidence | as-written member | corrected member |
|---|---|---|---|---|---|---|
| app.js:478-507 | `mouseleave` and `touchend` call `animateCarousel()` unconditionally. Each call starts another requestAnimationFrame chain, and only the newest id is kept for cancelling. | Two fingers: touchstart, touchstart, touchend, touchend. This leaves two chains, and the track moves 1 px per frame. A later mouseenter cancels one chain, and the track keeps moving under the pointer. | Restart only when no chain is running, so that one chain exists per running period and a hover always pauses. | medium (depends on the browser firing touchend once per finger), not executed | `MarqueeProofs.MultiTouchLeavesLoopRunning` | `MarqueeProofs.OnceHoverPauses` |
| app.js:82-85 | The link handler says "close mobile menu if open" but adds `hidden` only when the menu already has it, so the menu never changes. | The menu is open, and the user clicks its link `#about` whose section exists. The window scrolls, and the menu stays open: the document handler sees a click inside the menu. | Close the menu when it is open, the way the outside-click handler does (app.js:122-129): add `hidden`, set `aria-expanded` to "false" and reset the icon's bars. | high, not executed | `MobileMenu.NavLinkKeepsMenu` | `MobileMenu.NavLinkClickCloses` |

The marquee properties other than the finding (pause, resume, the hover
scenario) are stated over `Run`, the page's own event loop. `RunOnce` is the
loop with the corrected restart: `MarqueeProofs.OnceAgrees` shows that it
behaves like `Run` except at a restart while a chain is live, and
`MarqueeProofs.FramesAgree` that the two agree on any run of frames.

## Left out

- requestAnimationFrame, cancelAnimationFrame and setTimeout are host scheduling. They are represented only by the count of live chains and by `AnimationFrame` events. Within one frame every live chain fires once.
- Writing styles and classes (`translateX`, transitions, the hamburger bars' transforms, the link classes), `scrollTo` smooth scrolling and `console.warn` are rendering and I/O. The model keeps only the values they are computed from.
- The cloning of the container's `innerHTML` is DOM mutation. Its effect enters the model only as the doubled `scrollWidth` whose half is the wrap width.
- The delayed fade-in of the hero characters, subtitle and buttons (app.js:196-229) is timers and styles only.
- The floating particles (app.js:232-294) depend on `Math.random`, `sin`, `cos` and `Date.now`, so nothing about them is deterministic.
- The project-card tilt, shadow, click and keyboard effects and the lazy image loading (app.js:304-432) are cosmetic arithmetic, forwarding to `click()`, and an IntersectionObserver wrapper.
- The tech-icon click effect, the contact form, the theme manager and the scroll animations (app.js:509 onwards) are not part of this model.
- `HeroText.SplitText`: delays are exact rationals i·0.05. JavaScript computes them in binary floating point, and its template string prints, for example, `0.15000000000000002`.
- `HeroText.SplitText`: JavaScript's `split('')` yields UTF-16 code units, while a Dafny `char` is a Unicode scalar value. The two differ only for characters outside the Basic Multilingual Plane.
- The scroll offsets, `clientX` and section geometry are taken as exact reals and integers. JavaScript's `NaN` and `undefined` readings are not modelled.
- `NavScroll`, `ActiveLink`, `MobileMenu`: these describe the handlers once installed. `initNavigation` returns at once when the page has no `nav` element (app.js:36-39), and then installs none of them: no scroll handler, no link handlers, no menu handlers and no `updateActiveNavLink`.
- `MobileMenu`: the handlers are installed only when both the button and the menu exist (app.js:96). The model assumes they do. `document.querySelector(targetId)` throwing on a malformed selector is not modelled.
- `MobileMenu.Toggle`, `MobileMenu.Click`: the model assumes the button's svg has three paths. Both handlers index `bars[0]` to `bars[2]` (app.js:105-114, 126-129); with fewer paths they throw after `hidden` and `aria-expanded` are set, leaving the icon as it was, which `crossed` does not represent.
