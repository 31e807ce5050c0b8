/**
 * The horizontal project carousel: a track that an interval timer advances
 * one card at a time, wrapping to the start near the end; a pause flag that
 * hovering, touching and the buttons set; and next/previous buttons.
 *
 * The browser clamps every scroll target into `[0, scrollWidth -
 * clientWidth]`; that clamping is part of the model (`ClampScroll`), and a
 * smooth scroll is taken to have finished before the next event.
 */
module Carousel {

  /** The width of one card plus the gap after it, in pixels. */
  const CardWidth: int := 401

  /** How close to the end of the track counts as "at the end". */
  const WrapSlack: int := 10

  /** The scroll position the browser settles on for a requested target. */
  function ClampScroll(x: int, maxScroll: nat): (r: nat)
    ensures r <= maxScroll
    ensures 0 <= x <= maxScroll ==> r == x
    ensures x < 0 ==> r == 0
    ensures x > maxScroll ==> r == maxScroll
  {
    if x < 0 then 0 else if x > maxScroll then maxScroll else x
  }

  /**
   * The decision shared by the auto-advance tick and the next button: scroll
   * back to 0 when within `WrapSlack` of the end, otherwise one card on.
   */
  function NextTarget(scrollLeft: int, maxScroll: int): int
  {
    if scrollLeft >= maxScroll - WrapSlack then 0 else scrollLeft + CardWidth
  }

  /**
   * Where one advance (an unpaused tick, or the next button) leaves the
   * track: still inside it, and either back at the start (exactly when it
   * was near the end) or exactly one card further on, stopping at the end
   * of the track when less than a card remains.
   */
  function Advance(scrollLeft: int, maxScroll: nat): (r: nat)
    requires 0 <= scrollLeft <= maxScroll
    ensures r <= maxScroll
    ensures r == 0 <==> scrollLeft >= maxScroll - WrapSlack
    ensures r != 0 ==> scrollLeft < r <= scrollLeft + CardWidth
    ensures scrollLeft < maxScroll - WrapSlack ==>
              r == if scrollLeft + CardWidth <= maxScroll then scrollLeft + CardWidth else maxScroll
  {
    ClampScroll(NextTarget(scrollLeft, maxScroll), maxScroll)
  }

  /**
   * Where the previous button leaves the track: one card back, or at the
   * start when less than a card from it.
   */
  function Retreat(scrollLeft: int, maxScroll: nat): (r: nat)
    requires 0 <= scrollLeft <= maxScroll
    ensures r <= scrollLeft
    ensures r == scrollLeft - CardWidth || (r == 0 && scrollLeft < CardWidth)
  {
    ClampScroll(scrollLeft - CardWidth, maxScroll)
  }

  /** The scroll position after `n` unpaused auto-advance ticks. */
  function Advances(scrollLeft: int, maxScroll: nat, n: nat): (r: nat)
    requires 0 <= scrollLeft <= maxScroll
    ensures r <= maxScroll
    decreases n
  {
    if n == 0 then scrollLeft else Advances(Advance(scrollLeft, maxScroll), maxScroll, n - 1)
  }

  /** How many unpaused ticks it takes from `scrollLeft` until the track wraps to 0. */
  function TicksToWrap(scrollLeft: int, maxScroll: nat): nat
    requires 0 <= scrollLeft <= maxScroll
    decreases maxScroll - scrollLeft
  {
    if scrollLeft >= maxScroll - WrapSlack then 1
    else 1 + TicksToWrap(Advance(scrollLeft, maxScroll), maxScroll)
  }

  /**
   * Auto-advance always comes back to the start: after `TicksToWrap` ticks
   * the track is at 0, never at 0 before that, and the number of ticks is at
   * most the number of cards left plus two.
   */
  lemma {:induction false} AutoAdvanceWraps(scrollLeft: int, maxScroll: nat)
    requires 0 <= scrollLeft <= maxScroll
    ensures Advances(scrollLeft, maxScroll, TicksToWrap(scrollLeft, maxScroll)) == 0
    ensures forall j :: 1 <= j < TicksToWrap(scrollLeft, maxScroll) ==> Advances(scrollLeft, maxScroll, j) > 0
    ensures CardWidth * (TicksToWrap(scrollLeft, maxScroll) - 2) <= maxScroll - scrollLeft
    decreases maxScroll - scrollLeft
  {
    var next := Advance(scrollLeft, maxScroll);
    if scrollLeft >= maxScroll - WrapSlack {
      assert Advances(scrollLeft, maxScroll, 1) == Advances(next, maxScroll, 0) == 0;
    } else {
      AutoAdvanceWraps(next, maxScroll);
      var t := TicksToWrap(next, maxScroll);
      assert Advances(scrollLeft, maxScroll, t + 1) == Advances(next, maxScroll, t);
      forall j | 1 <= j < t + 1
        ensures Advances(scrollLeft, maxScroll, j) > 0
      {
        assert Advances(scrollLeft, maxScroll, j) == Advances(next, maxScroll, j - 1);
      }
      if next == maxScroll {
        assert t == 1;
      }
    }
  }

  /**
   * A track five cards wide showing one card: four ticks reach the end of
   * the track, and it is the fifth that wraps to the start.
   */
  lemma FiveCardTrack()
    ensures Advances(0, 5 * CardWidth - CardWidth, 4) == 4 * CardWidth
    ensures Advances(0, 5 * CardWidth - CardWidth, 5) == 0
    ensures TicksToWrap(0, 5 * CardWidth - CardWidth) == 5
  {
    var m := 5 * CardWidth - CardWidth;
    assert Advance(0, m) == 401;
    assert Advance(401, m) == 802;
    assert Advance(802, m) == 1203;
    assert Advance(1203, m) == 1604;
    assert Advance(1604, m) == 0;
    assert Advances(1604, m, 1) == 0;
    assert Advances(1203, m, 2) == 0;
    assert Advances(802, m, 3) == 0;
    assert Advances(401, m, 4) == 0;
    assert Advances(1203, m, 1) == 1604;
    assert Advances(802, m, 2) == 1604;
    assert Advances(401, m, 3) == 1604;
    assert TicksToWrap(1604, m) == 1;
    assert TicksToWrap(1203, m) == 2;
    assert TicksToWrap(802, m) == 3;
    assert TicksToWrap(401, m) == 4;
  }

  /**
   * The track as the page holds it: its scroll position and the pause flag
   * are updated in place by the timers and event handlers; its layout
   * widths do not change.
   */
  class Track {
    const scrollWidth: int
    const clientWidth: int
    var scrollLeft: int
    var isPaused: bool

    /** `hTrack.scrollWidth - hTrack.clientWidth`. */
    function MaxScroll(): int
    {
      scrollWidth - clientWidth
    }

    predicate Valid()
      reads this
    {
      0 <= clientWidth <= scrollWidth && 0 <= scrollLeft <= MaxScroll()
    }

    /** The track at page load: scrolled to the start, not paused. */
    constructor (scrollWidth: nat, clientWidth: nat)
      requires clientWidth <= scrollWidth
      ensures Valid()
      ensures this.scrollWidth == scrollWidth && this.clientWidth == clientWidth
      ensures scrollLeft == 0 && !isPaused
    {
      this.scrollWidth, this.clientWidth := scrollWidth, clientWidth;
      scrollLeft, isPaused := 0, false;
    }

    /** One firing of the auto-advance interval: nothing while paused, otherwise one advance. */
    method AutoTick()
      requires Valid()
      modifies this`scrollLeft
      ensures Valid()
      ensures old(isPaused) ==> scrollLeft == old(scrollLeft)
      ensures !old(isPaused) ==> scrollLeft == Advance(old(scrollLeft), MaxScroll())
    {
      if isPaused {
        return;
      }
      var maxScroll := scrollWidth - clientWidth;
      if scrollLeft >= maxScroll - WrapSlack {
        scrollLeft := ClampScroll(0, maxScroll);
      } else {
        scrollLeft := ClampScroll(scrollLeft + CardWidth, maxScroll);
      }
    }

    /** The next button: pause, then the same advance as an unpaused tick. */
    method NextClick()
      requires Valid()
      modifies this
      ensures Valid() && isPaused
      ensures scrollLeft == Advance(old(scrollLeft), MaxScroll())
    {
      isPaused := true;
      var maxScroll := scrollWidth - clientWidth;
      if scrollLeft >= maxScroll - WrapSlack {
        scrollLeft := ClampScroll(0, maxScroll);
      } else {
        scrollLeft := ClampScroll(scrollLeft + CardWidth, maxScroll);
      }
    }

    /** The previous button: pause, then one card back, with no wrap. */
    method PrevClick()
      requires Valid()
      modifies this
      ensures Valid() && isPaused
      ensures scrollLeft == Retreat(old(scrollLeft), MaxScroll())
    {
      isPaused := true;
      scrollLeft := ClampScroll(scrollLeft - CardWidth, scrollWidth - clientWidth);
    }

    /** Mouse enter, touch start or mouse down on the track: auto-advance pauses. */
    method Hold()
      modifies this`isPaused
      ensures isPaused
    {
      isPaused := true;
    }

    /** Mouse leave, or one of the release timers firing: auto-advance resumes. */
    method Resume()
      modifies this`isPaused
      ensures !isPaused
    {
      isPaused := false;
    }
  }
}
