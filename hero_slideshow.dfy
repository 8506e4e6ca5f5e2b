/**
 * The hero crossfade slideshow of the home page (src/pages/Home.tsx).
 *
 * Two image layers are stacked: the previous slide stays opaque until the
 * current slide's image reports that it has loaded, then it fades out.  A
 * write-once table remembers which slide images have loaded, an interval
 * timer advances the slideshow every 5 seconds, and a horizontal swipe with a
 * 40 pixel dead-zone moves one slide back or forward.
 */
module HeroSlideshow {
  import opened Wrappers

  /** A swipe moves the slideshow only when it travels more than this many pixels. */
  const SwipeThreshold: int := 40

  /** JavaScript's `%`: the remainder takes the sign of the dividend (truncating division). */
  function JsRem(a: int, b: int): (r: int)
    requires b > 0
    ensures a >= 0 ==> r == a % b
    ensures a < 0 ==> -b < r <= 0
  {
    if a >= 0 then a % b else -((-a) % b)
  }

  /** The "next" updater `(i + 1) % slides.length`. */
  function Next(n: nat, i: int): (r: int)
    requires n >= 1
    ensures 0 <= i < n ==> 0 <= r < n
    ensures 0 <= i < n - 1 ==> r == i + 1
    ensures i == n - 1 ==> r == 0
  {
    JsRem(i + 1, n)
  }

  /** The "previous" updater `(i - 1 + slides.length) % slides.length`. */
  function Prev(n: nat, i: int): (r: int)
    requires n >= 1
    ensures 0 <= i < n ==> 0 <= r < n
    ensures 0 < i < n ==> r == i - 1
    ensures i == 0 ==> r == n - 1
  {
    JsRem(i - 1 + n, n)
  }

  /** Going back undoes going forward, and going forward undoes going back. */
  lemma PrevNextInverse(n: nat, i: int)
    requires n >= 1 && 0 <= i < n
    ensures Prev(n, Next(n, i)) == i
    ensures Next(n, Prev(n, i)) == i
  {
  }

  /** `k` successive applications of the "next" updater. */
  function NextPow(n: nat, i: int, k: nat): int
    requires n >= 1
  {
    if k == 0 then i else Next(n, NextPow(n, i, k - 1))
  }

  /** From a slide in range, `k <= n` steps forward land on slide `(i + k) mod n`. */
  lemma {:induction false} NextPowIsShift(n: nat, i: int, k: nat)
    requires n >= 1 && 0 <= i < n && k <= n
    ensures NextPow(n, i, k) == if i + k < n then i + k else i + k - n
  {
    if k > 0 {
      NextPowIsShift(n, i, k - 1);
    }
  }

  /** Autoplay closes a full cycle: `n` steps forward come back to the starting slide. */
  lemma NextCycle(n: nat, i: int)
    requires n >= 1 && 0 <= i < n
    ensures NextPow(n, i, n) == i
  {
    NextPowIsShift(n, i, n);
  }

  /**
   * Autoplay is periodic: `k + n` steps land where `k` steps do.  With
   * `NextPowIsShift` this places the slide after any number of steps.
   */
  lemma {:induction false} NextPowPeriodic(n: nat, i: int, k: nat)
    requires n >= 1 && 0 <= i < n
    ensures NextPow(n, i, k + n) == NextPow(n, i, k)
  {
    if k == 0 {
      NextCycle(n, i);
    } else {
      NextPowPeriodic(n, i, k - 1);
      assert k + n - 1 == (k - 1) + n;
    }
  }

  /**
   * The slideshow controller of `Home`.
   *
   * `live` and `nextHandle` stand for the browser's interval registry: the set
   * of intervals that are still scheduled, and the (positive) handle the next
   * `setInterval` will return.  They let `Valid` say that no interval leaks.
   */
  class Slideshow {
    /** The number of slides, `slides.length`. */
    const n: nat

    var idx: int
    var prevIdx: int
    var isNextLoaded: bool
    /** `loadedRef.current`: slide index to "its image has loaded". */
    var loaded: map<int, bool>
    /** `timerRef.current`: the handle of the autoplay interval, if any. */
    var timer: Option<nat>
    /** `touchStartX.current`: where the current touch began. */
    var touchStartX: Option<int>

    ghost var live: set<nat>
    var nextHandle: nat

    ghost predicate Valid()
      reads this
    {
      && n >= 1
      && 0 <= idx < n
      && 0 <= prevIdx < n
      && (forall k :: k in loaded ==> 0 <= k < n && loaded[k])
      && nextHandle >= 1
      && (forall h :: h in live ==> 1 <= h < nextHandle)
      && live == (if timer.Some? then {timer.value} else {})
    }

    /** `!!loadedRef.current[i]`. */
    predicate Loaded(i: int)
      reads this
    {
      i in loaded && loaded[i]
    }

    /** JavaScript truthiness of `timerRef.current` (a handle of 0 would be falsy). */
    predicate TimerSet()
      reads this
    {
      timer.Some? && timer.value != 0
    }

    /** Target opacity of the previous-slide layer: it fades out once the current slide has loaded. */
    function PrevLayerOpacity(): (o: int)
      reads this
      ensures o == 0 || o == 1
      ensures o == 0 <==> isNextLoaded
    {
      if isNextLoaded then 0 else 1
    }

    /** The first render: both layers on slide 0, nothing loaded, no interval yet. */
    constructor (slideCount: nat)
      requires slideCount >= 1
      ensures Valid()
      ensures n == slideCount
      ensures idx == 0 && prevIdx == 0 && isNextLoaded
      ensures loaded == map[] && timer == None && touchStartX == None
      ensures live == {}
    {
      n := slideCount;
      idx, prevIdx := 0, 0;
      isNextLoaded := true;
      loaded := map[];
      timer := None;
      touchStartX := None;
      live := {};
      nextHandle := 1;
    }

    /** `start`: clear the running interval, if any, then schedule a fresh one. */
    method Start()
      requires Valid()
      modifies this
      ensures Valid()
      ensures timer.Some? && timer.value !in old(live)
      ensures live == {timer.value}
      ensures idx == old(idx) && prevIdx == old(prevIdx) && isNextLoaded == old(isNextLoaded)
      ensures loaded == old(loaded) && touchStartX == old(touchStartX)
    {
      if TimerSet() {
        live := live - {timer.value};
      }
      var h := nextHandle;
      nextHandle := nextHandle + 1;
      live := live + {h};
      timer := Some(h);
    }

    /** `stop`: clear the running interval and forget its handle; a no-op when none runs. */
    method Stop()
      requires Valid()
      modifies this
      ensures Valid()
      ensures timer == None && live == {}
      ensures old(timer) == None ==> live == old(live) && nextHandle == old(nextHandle)
      ensures idx == old(idx) && prevIdx == old(prevIdx) && isNextLoaded == old(isNextLoaded)
      ensures loaded == old(loaded) && touchStartX == old(touchStartX)
    {
      if TimerSet() {
        live := live - {timer.value};
        timer := None;
      }
    }

    /**
     * `goTo(updater)`: the current slide becomes the previous one, the updater
     * picks the new current slide, and the previous layer is released at once
     * when that slide's image is already known to be loaded.
     */
    method GoTo(f: int -> int)
      requires Valid()
      requires forall i :: 0 <= i < n ==> 0 <= f(i) < n
      modifies this
      ensures Valid()
      ensures prevIdx == old(idx) && idx == f(old(idx))
      ensures isNextLoaded == Loaded(idx)
      ensures PrevLayerOpacity() == 0 <==> Loaded(f(old(idx)))
      ensures loaded == old(loaded) && timer == old(timer) && touchStartX == old(touchStartX)
      ensures live == old(live) && nextHandle == old(nextHandle)
    {
      var current := idx;
      var next := f(current);
      isNextLoaded := Loaded(next);
      idx := next;
      prevIdx := current;
    }

    /** The "Next Slide" arrow. */
    method NextSlide()
      requires Valid()
      modifies this
      ensures Valid()
      ensures prevIdx == old(idx) && idx == Next(n, old(idx))
      ensures isNextLoaded == Loaded(idx)
      ensures loaded == old(loaded) && timer == old(timer) && touchStartX == old(touchStartX)
      ensures live == old(live) && nextHandle == old(nextHandle)
    {
      var m := n;
      GoTo(i => Next(m, i));
    }

    /** The "Previous Slide" arrow. */
    method PrevSlide()
      requires Valid()
      modifies this
      ensures Valid()
      ensures prevIdx == old(idx) && idx == Prev(n, old(idx))
      ensures isNextLoaded == Loaded(idx)
      ensures loaded == old(loaded) && timer == old(timer) && touchStartX == old(touchStartX)
      ensures live == old(live) && nextHandle == old(nextHandle)
    {
      var m := n;
      GoTo(i => Prev(m, i));
    }

    /**
     * One firing of the autoplay interval.  In the source the interval is
     * created by a `start` memoised with no dependencies, so it calls the
     * `goTo` of the first render, whose `idx` is always 0: autoplay in the
     * source keeps landing on slide 1.  The model advances from the live
     * index, which is what the autoplay evidently means to do.
     */
    method Tick()
      requires Valid() && timer.Some?
      modifies this
      ensures Valid()
      ensures prevIdx == old(idx) && idx == Next(n, old(idx))
      ensures isNextLoaded == Loaded(idx)
      ensures loaded == old(loaded) && timer == old(timer) && touchStartX == old(touchStartX)
      ensures live == old(live) && nextHandle == old(nextHandle)
    {
      NextSlide();
    }

    /** `onLoad` of the current slide's image: record it and fade the previous layer out. */
    method CurrentImageLoaded()
      requires Valid()
      modifies this
      ensures Valid()
      ensures loaded == old(loaded)[old(idx) := true]
      ensures isNextLoaded && PrevLayerOpacity() == 0
      ensures idx == old(idx) && prevIdx == old(prevIdx)
      ensures timer == old(timer) && touchStartX == old(touchStartX)
      ensures live == old(live) && nextHandle == old(nextHandle)
    {
      loaded := loaded[idx := true];
      isNextLoaded := true;
    }

    /** `onLoad` of the hidden preload image of slide `i`: only the table changes. */
    method PreloadImageLoaded(i: int)
      requires Valid() && 0 <= i < n
      modifies this
      ensures Valid()
      ensures loaded == old(loaded)[i := true]
      ensures idx == old(idx) && prevIdx == old(prevIdx) && isNextLoaded == old(isNextLoaded)
      ensures timer == old(timer) && touchStartX == old(touchStartX)
      ensures live == old(live) && nextHandle == old(nextHandle)
    {
      loaded := loaded[i := true];
    }

    /** `onTouchStart`: remember where the finger went down. */
    method TouchStart(x: int)
      requires Valid()
      modifies this
      ensures Valid()
      ensures touchStartX == Some(x)
      ensures idx == old(idx) && prevIdx == old(prevIdx) && isNextLoaded == old(isNextLoaded)
      ensures loaded == old(loaded) && timer == old(timer)
      ensures live == old(live) && nextHandle == old(nextHandle)
    {
      touchStartX := Some(x);
    }

    /**
     * `onTouchEnd`: without a recorded start nothing happens; otherwise a drag
     * of more than 40 pixels to the right shows the previous slide, one of more
     * than 40 pixels to the left the next slide, and the start is forgotten in
     * every case.
     */
    method TouchEnd(x: int)
      requires Valid()
      modifies this
      ensures Valid()
      ensures touchStartX == None
      ensures old(touchStartX) == None ==>
                idx == old(idx) && prevIdx == old(prevIdx) && isNextLoaded == old(isNextLoaded)
      ensures old(touchStartX).Some? ==>
                var delta := x - old(touchStartX).value;
                if delta > SwipeThreshold then
                  prevIdx == old(idx) && idx == Prev(n, old(idx)) && isNextLoaded == Loaded(idx)
                else if delta < -SwipeThreshold then
                  prevIdx == old(idx) && idx == Next(n, old(idx)) && isNextLoaded == Loaded(idx)
                else
                  idx == old(idx) && prevIdx == old(prevIdx) && isNextLoaded == old(isNextLoaded)
      ensures loaded == old(loaded) && timer == old(timer)
      ensures live == old(live) && nextHandle == old(nextHandle)
    {
      if touchStartX == None {
        return;
      }
      var delta := x - touchStartX.value;
      if delta > SwipeThreshold {
        PrevSlide();
      } else if delta < -SwipeThreshold {
        NextSlide();
      }
      touchStartX := None;
    }

    /** The mount effect: autoplay starts. */
    method Mount()
      requires Valid()
      modifies this
      ensures Valid()
      ensures timer.Some? && live == {timer.value}
      ensures idx == old(idx) && prevIdx == old(prevIdx) && isNextLoaded == old(isNextLoaded)
      ensures loaded == old(loaded) && touchStartX == old(touchStartX)
    {
      Start();
    }

    /** The effect's cleanup on unmount: autoplay stops and no interval is left behind. */
    method Unmount()
      requires Valid()
      modifies this
      ensures Valid()
      ensures timer == None && live == {}
      ensures idx == old(idx) && prevIdx == old(prevIdx) && isNextLoaded == old(isNextLoaded)
      ensures loaded == old(loaded) && touchStartX == old(touchStartX)
    {
      Stop();
    }

    /** `visibilitychange`: a hidden page stops autoplay, a visible one restarts it. */
    method VisibilityChange(hidden: bool)
      requires Valid()
      modifies this
      ensures Valid()
      ensures hidden ==> timer == None && live == {}
      ensures !hidden ==> timer.Some? && timer.value !in old(live) && live == {timer.value}
      ensures idx == old(idx) && prevIdx == old(prevIdx) && isNextLoaded == old(isNextLoaded)
      ensures loaded == old(loaded) && touchStartX == old(touchStartX)
    {
      if hidden {
        Stop();
      } else {
        Start();
      }
    }

    /** `onMouseEnter` of the banner pauses autoplay. */
    method PointerEnter()
      requires Valid()
      modifies this
      ensures Valid()
      ensures timer == None && live == {}
      ensures idx == old(idx) && prevIdx == old(prevIdx) && isNextLoaded == old(isNextLoaded)
      ensures loaded == old(loaded) && touchStartX == old(touchStartX)
    {
      Stop();
    }

    /** `onMouseLeave` of the banner resumes autoplay with a fresh interval. */
    method PointerLeave()
      requires Valid()
      modifies this
      ensures Valid()
      ensures timer.Some? && timer.value !in old(live) && live == {timer.value}
      ensures idx == old(idx) && prevIdx == old(prevIdx) && isNextLoaded == old(isNextLoaded)
      ensures loaded == old(loaded) && touchStartX == old(touchStartX)
    {
      Start();
    }
  }

  /** A valid controller never has more than one interval scheduled. */
  lemma AtMostOneInterval(s: Slideshow)
    requires s.Valid()
    ensures |s.live| <= 1
    ensures |s.live| == 1 <==> s.timer.Some?
  {
  }

  /** Loading only ever adds `true` entries: the table is monotone. */
  lemma LoadIsMonotone(before: map<int, bool>, i: int)
    requires forall k :: k in before ==> before[k]
    ensures var after := before[i := true];
      && before.Keys <= after.Keys
      && (forall k :: k in before ==> after[k] == before[k])
      && (forall k :: k in after ==> after[k])
  {
  }
}
