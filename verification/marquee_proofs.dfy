/** Properties of the marquee controller over sequences of ticks, drags and events. */
module MarqueeProofs {

  import opened Marquee

  /** Within the first loop the track is j ticks' travel left of the origin. */
  lemma {:induction false} TicksWithinLoop(w: nat, j: nat)
    requires j < w
    ensures Ticks(0.0, w, j) == -ScrollSpeed * j as real
  {
    if j > 0 {
      TicksWithinLoop(w, j - 1);
      assert Abs(-ScrollSpeed * (j - 1) as real - ScrollSpeed) == ScrollSpeed * j as real;
    }
  }

  /** Every q full loops, the track is back at exactly the origin. */
  lemma {:induction false} TicksWholeLoops(w: nat, q: nat)
    requires w > 0
    ensures Ticks(0.0, w, q * w) == 0.0
  {
    if q > 0 {
      TicksWholeLoops(w, q - 1);
      TicksWithinLoop(w, w - 1);
      TicksAdd(0.0, w, (q - 1) * w, w);
      assert (q - 1) * w + w == q * w;
      assert Ticks(0.0, w, w) == Advance(-ScrollSpeed * (w - 1) as real, w);
    }
  }

  /**
   * From the origin, k uninterrupted ticks over a track of scrollWidth w > 0
   * leave the position at -ScrollSpeed * (k mod w): the track wraps to exactly
   * 0 each time one copy (halfWidth = w / 2 pixels, w ticks) has scrolled past.
   */
  lemma {:induction false} TicksFromOrigin(w: nat, k: nat)
    requires w > 0
    ensures Ticks(0.0, w, k) == -ScrollSpeed * (k % w) as real
  {
    var q := k / w;
    var j := k % w;
    assert k == q * w + j;
    TicksWholeLoops(w, q);
    TicksAdd(0.0, w, q * w, j);
    TicksWithinLoop(w, j);
  }

  /**
   * A full loop: after scrollWidth ticks (one copy's width at 0.5 pixel per
   * tick) the track is back at the origin, and never before.
   */
  lemma FullLoop(w: nat)
    requires w > 0
    ensures Ticks(0.0, w, w) == 0.0
    ensures forall k :: 0 < k < w ==> Ticks(0.0, w, k) != 0.0
  {
    TicksFromOrigin(w, w);
    forall k | 0 < k < w
      ensures Ticks(0.0, w, k) != 0.0
    {
      TicksFromOrigin(w, k);
    }
  }

  lemma {:induction false} TicksAdd(p: real, w: nat, a: nat, b: nat)
    ensures Ticks(Ticks(p, w, a), w, b) == Ticks(p, w, a + b)
    decreases b
  {
    if b > 0 {
      TicksAdd(p, w, a, b - 1);
    }
  }

  lemma {:induction false} RunAppend(c: Carousel, a: seq<Event>, b: seq<Event>)
    ensures Run(c, a + b) == Run(Run(c, a), b)
    decreases |a|
  {
    if |a| > 0 {
      assert (a + b)[0] == a[0];
      assert (a + b)[1..] == a[1..] + b;
      RunAppend(Step(c, a[0]), a[1..], b);
    } else {
      assert a + b == b;
    }
  }

  lemma RunSingle(c: Carousel, e: Event)
    ensures Run(c, [e]) == Step(c, e)
  {
    assert [e][1..] == [];
  }

  /** Frames while paused change nothing; with one live chain they tick once each. */
  lemma {:induction false} RunFrames(c: Carousel, w: nat, n: nat)
    requires c.Chains() <= 1
    ensures c.Chains() == 0 ==> Run(c, Repeat(AnimationFrame(w), n)) == c
    ensures c.Chains() == 1 ==> Run(c, Repeat(AnimationFrame(w), n)).position == Ticks(c.position, w, n)
    ensures c.Chains() == 1 ==> Run(c, Repeat(AnimationFrame(w), n)).Chains() == 1
    ensures c.named ==> Run(c, Repeat(AnimationFrame(w), n)).named
    ensures Run(c, Repeat(AnimationFrame(w), n)).dragging == c.dragging
    decreases n
  {
    if n > 0 {
      var es := Repeat(AnimationFrame(w), n);
      assert es[1..] == Repeat(AnimationFrame(w), n - 1);
      var c' := Frame(c, w);
      RunFrames(c', w, n - 1);
      if c.Chains() == 1 {
        TicksAdd(c.position, w, 1, n - 1);
      }
    }
  }

  /**
   * Hovering leaves the position where it is, and a second hover in a row
   * changes nothing more.
   */
  lemma MouseEnterHolds(c: Carousel)
    ensures MouseEnter(c).position == c.position
    ensures MouseEnter(MouseEnter(c)) == MouseEnter(c)
    ensures MouseEnter(c).Chains() <= c.Chains()
  {
  }

  /**
   * Hovering over a marquee with a single named chain pauses it: any number
   * of frames afterwards leave the state exactly as the hover left it.
   */
  lemma HoverPauses(c: Carousel, w: nat, n: nat)
    requires c.Chains() == 1 && c.named
    ensures Run(c, [PointerEnter] + Repeat(AnimationFrame(w), n)) == MouseEnter(c)
    ensures MouseEnter(c).position == c.position
  {
    RunAppend(c, [PointerEnter], Repeat(AnimationFrame(w), n));
    RunSingle(c, PointerEnter);
    RunFrames(MouseEnter(c), w, n);
  }

  /**
   * Leaving resumes from the paused position with no jump: mouseleave's own
   * tick and the next n frames continue the tick sequence from exactly that
   * value, with a single named chain.
   */
  lemma ResumeContinues(c: Carousel, w: nat, n: nat)
    requires c.Chains() == 0
    ensures Run(c, [PointerLeave(w)] + Repeat(AnimationFrame(w), n)).position == Ticks(c.position, w, n + 1)
    ensures Run(c, [PointerLeave(w)] + Repeat(AnimationFrame(w), n)).Chains() == 1
  {
    RunAppend(c, [PointerLeave(w)], Repeat(AnimationFrame(w), n));
    RunSingle(c, PointerLeave(w));
    var r := MouseLeave(c, w);
    assert r.Chains() == 1;
    RunFrames(r, w, n);
    TicksAdd(c.position, w, 1, n);
  }

  /**
   * The movements of one drag telescope: the track ends DragFactor times the
   * finger's net displacement away from where it was, whatever the
   * intermediate points, and no wrap is applied.
   */
  lemma {:induction false} DragTelescopes(c: Carousel, xs: seq<real>)
    requires c.dragging
    requires |xs| > 0
    ensures Drag(c, xs).position == c.position + DragFactor * (xs[|xs| - 1] - c.touchStartX)
    ensures Drag(c, xs).touchStartX == xs[|xs| - 1]
    ensures Drag(c, xs).dragging
    ensures Drag(c, xs).Chains() == c.Chains()
    decreases |xs|
  {
    var c' := TouchMove(c, xs[0]);
    if |xs| > 1 {
      DragTelescopes(c', xs[1..]);
    }
  }

  /** Without a drag in progress, touch moves change nothing. */
  lemma {:induction false} DragIgnoredWhenIdle(c: Carousel, xs: seq<real>)
    requires !c.dragging
    ensures Drag(c, xs) == c
    decreases |xs|
  {
    if |xs| > 0 {
      DragIgnoredWhenIdle(TouchMove(c, xs[0]), xs[1..]);
    }
  }

  /**
   * A drag from touch point x0 through xs ends DragFactor * (last - x0) from
   * the starting position, with the animation cancelled.
   */
  lemma DragFromTouch(c: Carousel, x0: real, xs: seq<real>)
    requires |xs| > 0
    ensures Drag(TouchStart(c, x0), xs).position == c.position + DragFactor * (xs[|xs| - 1] - x0)
    ensures Drag(TouchStart(c, x0), xs).Chains() == c.unnamed
  {
    DragTelescopes(TouchStart(c, x0), xs);
  }

  /** The events that can reach the page while a finger is down and not lifted. */
  predicate DuringDrag(e: Event) {
    e.FingerMove? || e.AnimationFrame?
  }

  /** The x of the last touch move in es, or x when there is none. */
  function LastX(x: real, es: seq<Event>): real
    decreases |es|
  {
    if |es| == 0 then x else LastX(if es[0].FingerMove? then es[0].x else x, es[1..])
  }

  /**
   * A drag on the page, with animation frames arriving between the touch
   * moves: as long as touchstart left no live chain, the frames do nothing
   * and the moves telescope to DragFactor times the finger's net
   * displacement, with no wrap applied.
   */
  lemma {:induction false} DragOnPage(d: Carousel, es: seq<Event>)
    requires d.dragging && d.Chains() == 0
    requires forall i :: 0 <= i < |es| ==> DuringDrag(es[i])
    ensures Run(d, es).position == d.position + DragFactor * (LastX(d.touchStartX, es) - d.touchStartX)
    ensures Run(d, es).touchStartX == LastX(d.touchStartX, es)
    ensures Run(d, es).dragging && Run(d, es).Chains() == 0
    decreases |es|
  {
    if |es| > 0 {
      var d' := Step(d, es[0]);
      assert forall i :: 0 <= i < |es[1..]| ==> DuringDrag(es[1..][i]) by {
        forall i | 0 <= i < |es[1..]| ensures DuringDrag(es[1..][i]) {
          assert es[1..][i] == es[i + 1];
        }
      }
      DragOnPage(d', es[1..]);
    }
  }

  /**
   * A whole one-finger gesture on a marquee running a single named chain,
   * or paused: touchstart at x0, any moves and frames, touchend. The track
   * ends one tick past the dragged position, and exactly one named chain runs
   * again.
   */
  lemma TouchGesture(c: Carousel, x0: real, es: seq<Event>, w: nat)
    requires c.unnamed == 0
    requires forall i :: 0 <= i < |es| ==> DuringDrag(es[i])
    ensures Run(c, [FingerDown(x0)] + es + [FingerUp(w)]).position == Advance(c.position + DragFactor * (LastX(x0, es) - x0), w)
    ensures Run(c, [FingerDown(x0)] + es + [FingerUp(w)]).Chains() == 1
    ensures Run(c, [FingerDown(x0)] + es + [FingerUp(w)]).named
    ensures !Run(c, [FingerDown(x0)] + es + [FingerUp(w)]).dragging
  {
    RunAppend(c, [FingerDown(x0)] + es, [FingerUp(w)]);
    RunAppend(c, [FingerDown(x0)], es);
    RunSingle(c, FingerDown(x0));
    var d := TouchStart(c, x0);
    DragOnPage(d, es);
    RunSingle(Run(d, es), FingerUp(w));
  }

  /** The first 300 ticks from page load, on a track wider than 350 ticks' travel. */
  lemma FirstTicks(w: nat)
    requires w > 350
    ensures Run(Start(w), Repeat(AnimationFrame(w), 299)).position == -150.0
    ensures Run(Start(w), Repeat(AnimationFrame(w), 299)).Chains() == 1
    ensures Run(Start(w), Repeat(AnimationFrame(w), 299)).named
  {
    assert Start(w).position == Ticks(0.0, w, 1);
    RunFrames(Start(w), w, 299);
    TicksAdd(0.0, w, 1, 299);
    TicksWithinLoop(w, 300);
  }

  /**
   * Pause and resume on a track wider than 350 ticks' travel (halfWidth 300,
   * say): hovered after its 300th tick at -150, left alone for 50 frames, then
   * resumed for 50 more ticks (the one mouseleave performs plus 49 frames),
   * it ends at -175; the paused frames contribute no movement.
   */
  lemma HoverScenario(w: nat)
    requires w > 350
    ensures Run(Start(w),
                Repeat(AnimationFrame(w), 299)
                + ([PointerEnter] + Repeat(AnimationFrame(w), 50))
                + ([PointerLeave(w)] + Repeat(AnimationFrame(w), 49))).position == -175.0
  {
    var pause := Repeat(AnimationFrame(w), 299);
    var hover := [PointerEnter] + Repeat(AnimationFrame(w), 50);
    var leave := [PointerLeave(w)] + Repeat(AnimationFrame(w), 49);
    var s1 := Run(Start(w), pause);
    FirstTicks(w);
    HoverPauses(s1, w, 50);
    var s2 := Run(s1, hover);
    ResumeContinues(s2, w, 49);
    TicksWithinLoop(w, 300);
    TicksAdd(0.0, w, 300, 50);
    TicksWithinLoop(w, 350);
    RunAppend(Start(w), pause, hover);
    RunAppend(Start(w), pause + hover, leave);
  }

  /**
   * As written: two fingers (touchstart, touchstart, touchend, touchend)
   * leave two animation chains running, and hovering afterwards cancels only
   * one of them, so the track keeps moving under the pointer.
   */
  lemma MultiTouchLeavesLoopRunning()
    ensures Run(Start(600), [FingerDown(10.0), FingerDown(20.0), FingerUp(600), FingerUp(600)]).Chains() == 2
    ensures
      var c := Run(Start(600), [FingerDown(10.0), FingerDown(20.0), FingerUp(600), FingerUp(600), PointerEnter]);
      c.Chains() == 1 && Frame(c, 600).position == c.position - ScrollSpeed
  {
    var c0 := Start(600);
    var c1 := TouchStart(c0, 10.0);
    var c2 := TouchStart(c1, 20.0);
    var c3 := TouchEnd(c2, 600);
    var c4 := TouchEnd(c3, 600);
    assert c4.Chains() == 2;
    var es := [FingerDown(10.0), FingerDown(20.0), FingerUp(600), FingerUp(600), PointerEnter];
    assert es[1..][1..][1..][1..][1..] == [];
  }

  /**
   * The guarded handlers differ from the page's own only at a restart while
   * an animation chain is already live; from a paused or dragging marquee
   * they do exactly what the page does.
   */
  lemma OnceAgrees(c: Carousel, e: Event)
    ensures c.Chains() == 0 ==> StepOnce(c, e) == Step(c, e)
    ensures !e.PointerLeave? && !e.FingerUp? ==> StepOnce(c, e) == Step(c, e)
    ensures c.Chains() > 0 && (e.PointerLeave? || e.FingerUp?) ==>
      Step(c, e).Chains() == c.Chains() + 1 && StepOnce(c, e).Chains() == c.Chains()
  {
  }

  /** Animation frames are handled alike by the page's handlers and the guarded ones. */
  lemma {:induction false} FramesAgree(c: Carousel, w: nat, n: nat)
    ensures RunOnce(c, Repeat(AnimationFrame(w), n)) == Run(c, Repeat(AnimationFrame(w), n))
    decreases n
  {
    if n > 0 {
      assert Repeat(AnimationFrame(w), n)[1..] == Repeat(AnimationFrame(w), n - 1);
      FramesAgree(Frame(c, w), w, n - 1);
    }
  }

  /** Every live chain is the one `animationId` names, so a cancel stops all motion. */
  predicate SingleLoop(c: Carousel) {
    c.unnamed == 0
  }

  /** With the guarded restart, no event sequence ever leaves more than one chain alive. */
  lemma {:induction false} OnceKeepsSingleLoop(c: Carousel, events: seq<Event>)
    requires SingleLoop(c)
    ensures SingleLoop(RunOnce(c, events))
    ensures RunOnce(c, events).Chains() <= 1
    decreases |events|
  {
    if |events| > 0 {
      OnceKeepsSingleLoop(StepOnce(c, events[0]), events[1..]);
    }
  }

  /**
   * With the guarded restart, hovering always pauses: after any history of
   * events from page load, a hover followed by any number of frames leaves
   * the position unchanged.
   */
  lemma OnceHoverPauses(events: seq<Event>, w: nat, n: nat)
    ensures
      var c := MouseEnter(RunOnce(Start(w), events));
      RunOnce(c, Repeat(AnimationFrame(w), n)) == c
  {
    OnceKeepsSingleLoop(Start(w), events);
    var c := MouseEnter(RunOnce(Start(w), events));
    assert c.Chains() == 0;
    FramesAgree(c, w, n);
    RunFrames(c, w, n);
  }
}
