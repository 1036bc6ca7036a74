/**
 * The tech-stack marquee of `initTechStackCarousel`: the container's items are
 * rendered twice back to back, and every animation callback translates the
 * track left by a fixed amount, snapping back to 0 once one copy has scrolled
 * past. Hovering pauses the motion, a touch drag scrubs it by hand.
 *
 * Scheduling is abstracted: a requestAnimationFrame "chain" is a callback that
 * reschedules itself on every frame. The page keeps a single variable,
 * `animationId`, holding the id of the callback scheduled last, and
 * `cancelAnimationFrame(animationId)` stops only that one.
 */
module Marquee {

  import opened Wrappers

  /** Pixels the track moves left on each animation callback. */
  const ScrollSpeed: real := 0.5

  /** Damping between a finger's horizontal movement and the track's. */
  const DragFactor: real := 0.5

  function Abs(x: real): real {
    if x < 0.0 then -x else x
  }

  /** Width of one copy of the items: half of the doubled track's scrollWidth. */
  function HalfWidth(scrollWidth: nat): real {
    scrollWidth as real / 2.0
  }

  /**
   * The controller's state.
   *  - position: the track's `translateX` offset in pixels;
   *  - dragging: a touch drag is in progress;
   *  - touchStartX: x of the last touch point the drag has consumed;
   *  - named: a live chain whose pending callback `animationId` names, so
   *    that cancelling stops it;
   *  - unnamed: live chains whose pending callback `animationId` does not
   *    name; nothing in the page can stop them.
   */
  datatype Carousel = Carousel(
    position: real,
    dragging: bool,
    touchStartX: real,
    named: bool,
    unnamed: nat)
  {
    /** Number of live animation chains; each one ticks once per frame. */
    function Chains(): nat {
      unnamed + if named then 1 else 0
    }
  }

  /**
   * The position arithmetic of one `animateCarousel` call: move left by
   * ScrollSpeed, and reset to exactly 0 once the magnitude reaches one copy's
   * width (re-read from the track on every call).
   */
  function Advance(position: real, scrollWidth: nat): (r: real)
    ensures r == position - ScrollSpeed || r == 0.0
    ensures Abs(position - ScrollSpeed) < HalfWidth(scrollWidth) ==> r == position - ScrollSpeed
    ensures scrollWidth > 0 ==> Abs(r) < HalfWidth(scrollWidth)
    ensures scrollWidth == 0 ==> r == 0.0
  {
    var moved := position - ScrollSpeed;
    if Abs(moved) >= HalfWidth(scrollWidth) then 0.0 else moved
  }

  /** The position after k uninterrupted ticks over a track of fixed width. */
  function Ticks(position: real, scrollWidth: nat, k: nat): real
    decreases k
  {
    if k == 0 then position else Advance(Ticks(position, scrollWidth, k - 1), scrollWidth)
  }

  /**
   * `animateCarousel()` called directly from a handler rather than from a
   * frame callback: it ticks at once and schedules a fresh callback, which
   * becomes `animationId` and so starts one more chain, whatever is running.
   */
  function Resume(c: Carousel, scrollWidth: nat): (r: Carousel)
    ensures r.position == Advance(c.position, scrollWidth)
    ensures r.Chains() == c.Chains() + 1
    ensures r.named
    ensures r.dragging == c.dragging && r.touchStartX == c.touchStartX
  {
    c.(position := Advance(c.position, scrollWidth),
       named := true,
       unnamed := c.Chains())
  }

  /**
   * Restarting only when no chain is live: the single-loop behaviour the
   * handlers evidently intend.
   */
  function ResumeOnce(c: Carousel, scrollWidth: nat): (r: Carousel)
    ensures r.position == c.position || r.position == Advance(c.position, scrollWidth)
    ensures c.unnamed == 0 ==> r.unnamed == 0
    ensures r.Chains() == if c.Chains() == 0 then 1 else c.Chains()
    ensures c.Chains() > 0 ==> r == c
    ensures c.Chains() == 0 ==> r == Resume(c, scrollWidth)
  {
    if c.Chains() == 0 then Resume(c, scrollWidth) else c
  }

  /** `cancelAnimationFrame(animationId)`: stops the named chain, if any. */
  function Cancel(c: Carousel): (r: Carousel)
    ensures r.position == c.position && r.dragging == c.dragging && r.touchStartX == c.touchStartX
    ensures !r.named
    ensures r.Chains() == if c.named then c.Chains() - 1 else c.Chains()
    ensures r.unnamed == c.unnamed
  {
    c.(named := false)
  }

  /**
   * One animation frame: every live chain's callback fires once (each
   * re-reading the width) and reschedules itself; the last to do so leaves
   * its id in `animationId`.
   */
  function Frame(c: Carousel, scrollWidth: nat): (r: Carousel)
    ensures r.position == Ticks(c.position, scrollWidth, c.Chains())
    ensures r.Chains() == c.Chains()
    ensures r.named <==> c.Chains() > 0
    ensures c.Chains() == 0 ==> r == c
    ensures r.dragging == c.dragging && r.touchStartX == c.touchStartX
  {
    var n := c.Chains();
    c.(position := Ticks(c.position, scrollWidth, n),
       named := n > 0,
       unnamed := if n > 0 then n - 1 else 0)
  }

  /** Pointer enters the container: the animation is cancelled. */
  function MouseEnter(c: Carousel): (r: Carousel)
    ensures r.position == c.position && r.dragging == c.dragging && r.touchStartX == c.touchStartX
    ensures !r.named && r.unnamed == c.unnamed
  {
    Cancel(c)
  }

  /** Pointer leaves the container: `animateCarousel()` is called again. */
  function MouseLeave(c: Carousel, scrollWidth: nat): (r: Carousel)
    ensures r.position == Advance(c.position, scrollWidth)
    ensures r.Chains() == c.Chains() + 1 && r.named
    ensures r.dragging == c.dragging && r.touchStartX == c.touchStartX
  {
    Resume(c, scrollWidth)
  }

  /** A finger touches the container at x: a drag starts and the animation is cancelled. */
  function TouchStart(c: Carousel, x: real): (r: Carousel)
    ensures r.dragging && r.touchStartX == x
    ensures r.position == c.position
    ensures !r.named && r.unnamed == c.unnamed
  {
    Cancel(c.(touchStartX := x, dragging := true))
  }

  /** A finger moves to x: while dragging, the track follows by DragFactor, without wrapping. */
  function TouchMove(c: Carousel, x: real): (r: Carousel)
    ensures !c.dragging ==> r == c
    ensures c.dragging ==> r.position - c.position == DragFactor * (x - c.touchStartX) && r.touchStartX == x
    ensures r.dragging == c.dragging && r.named == c.named && r.unnamed == c.unnamed
  {
    if !c.dragging then c
    else c.(position := c.position + (x - c.touchStartX) * DragFactor, touchStartX := x)
  }

  /** A finger lifts: the drag ends and `animateCarousel()` is called again. */
  function TouchEnd(c: Carousel, scrollWidth: nat): (r: Carousel)
    ensures !r.dragging
    ensures r.position == Advance(c.position, scrollWidth)
    ensures r.Chains() == c.Chains() + 1 && r.named
  {
    Resume(c.(dragging := false), scrollWidth)
  }

  /** The controller as set up on page load: one call of `animateCarousel()` from the origin. */
  function Start(scrollWidth: nat): (r: Carousel)
    ensures r.position == Advance(0.0, scrollWidth)
    ensures r.Chains() == 1 && r.named && !r.dragging
  {
    Resume(Carousel(0.0, false, 0.0, false, 0), scrollWidth)
  }

  /** Set-up: without the container the marquee is not created at all. */
  function Init(containerPresent: bool, scrollWidth: nat): (r: Option<Carousel>)
    ensures r.None? <==> !containerPresent
    ensures r.Some? ==> r.value.Chains() == 1 && r.value.named && !r.value.dragging
    ensures r.Some? ==> r.value.position == Ticks(0.0, scrollWidth, 1)
  {
    if containerPresent then Some(Start(scrollWidth)) else None
  }

  /** The events the controller reacts to, with the width a tick re-reads. */
  datatype Event =
    | AnimationFrame(scrollWidth: nat)
    | PointerEnter
    | PointerLeave(scrollWidth: nat)
    | FingerDown(x: real)
    | FingerMove(x: real)
    | FingerUp(scrollWidth: nat)

  /** The handlers as the page installs them. */
  function Step(c: Carousel, e: Event): Carousel {
    match e
    case AnimationFrame(w) => Frame(c, w)
    case PointerEnter => MouseEnter(c)
    case PointerLeave(w) => MouseLeave(c, w)
    case FingerDown(x) => TouchStart(c, x)
    case FingerMove(x) => TouchMove(c, x)
    case FingerUp(w) => TouchEnd(c, w)
  }

  /** The handlers with the restart guarded by ResumeOnce. */
  function StepOnce(c: Carousel, e: Event): Carousel {
    match e
    case AnimationFrame(w) => Frame(c, w)
    case PointerEnter => MouseEnter(c)
    case PointerLeave(w) => ResumeOnce(c, w)
    case FingerDown(x) => TouchStart(c, x)
    case FingerMove(x) => TouchMove(c, x)
    case FingerUp(w) => ResumeOnce(c.(dragging := false), w)
  }

  function Run(c: Carousel, events: seq<Event>): Carousel
    decreases |events|
  {
    if |events| == 0 then c else Run(Step(c, events[0]), events[1..])
  }

  function RunOnce(c: Carousel, events: seq<Event>): Carousel
    decreases |events|
  {
    if |events| == 0 then c else RunOnce(StepOnce(c, events[0]), events[1..])
  }

  /** The touch moves of one drag, in order. */
  function Drag(c: Carousel, xs: seq<real>): Carousel
    decreases |xs|
  {
    if |xs| == 0 then c else Drag(TouchMove(c, xs[0]), xs[1..])
  }

  function Repeat(e: Event, n: nat): (r: seq<Event>)
    ensures |r| == n
    ensures forall i :: 0 <= i < n ==> r[i] == e
  {
    seq(n, _ => e)
  }
}
