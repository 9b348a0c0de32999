/** The animated counter of the hero section's statistics. Once the element
    has scrolled into view, an interval fires sixty times a second; each
    firing adds `target / (duration * 60)` to an accumulator `start` and
    shows its floor, until the accumulator reaches the target: then the
    target itself is shown and the interval is cleared.

    Arithmetic is exact (`real`), so rounding of the accumulator is not part
    of the model. Interval firings are discrete `Tick` events. */
module AnimatedCounter {

  /** The interval's rate: one firing every 1000 / 60 milliseconds. */
  const TicksPerSecond: real := 60.0

  /** The duration, in seconds, when the caller gives none. */
  const DefaultDuration: real := 2.0

  /** `inView` is the viewport flag, `start` the accumulator, `count` the
      displayed value, `running` whether the interval is active. */
  datatype State = State(inView: bool, start: real, count: int, running: bool)

  /** On mount: out of view, showing 0, no interval. */
  const Initial: State := State(false, 0.0, 0, false)

  /** The smallest integer at or above `x`. */
  function Ceil(x: real): (n: int)
    ensures x <= n as real < x + 1.0
  {
    if x.Floor as real == x then x.Floor else x.Floor + 1
  }

  /** The step the accumulator grows by per firing. */
  function Increment(target: int, duration: real): (r: real)
    requires duration > 0.0
    ensures r * (duration * TicksPerSecond) == target as real
    ensures target >= 0 ==> r >= 0.0
  {
    target as real / (duration * TicksPerSecond)
  }

  /** What every reachable state satisfies for a given target: nothing moves
      before the element is in view; while the interval runs the display is
      the floor of the accumulator, which is below the target (or still at
      its initial 0); once it has stopped the display is the target. */
  predicate Valid(target: int, s: State) {
    (!s.inView ==> s == Initial) &&
    (s.running ==> s.inView && s.count == s.start.Floor &&
                   (s.start < target as real || s.start == 0.0)) &&
    (s.inView && !s.running ==> s.count == target)
  }

  /** The element enters the viewport. It stays in view from then on
      (`once: true`), so the effect starts the interval exactly once. */
  function OnView(s: State): (r: State)
    ensures r.inView
    ensures s.inView ==> r == s
    ensures !s.inView ==> r.running && r.start == 0.0 && r.count == s.count
    ensures forall target :: Valid(target, s) ==> Valid(target, r)
  {
    if s.inView then s else State(true, 0.0, s.count, true)
  }

  /** One firing of the interval. Without an active interval there is no
      firing, so nothing changes. */
  function OnTick(target: int, increment: real, s: State): (r: State)
    ensures !s.running ==> r == s
    ensures r.inView == s.inView
    ensures s.running ==> r.start == s.start + increment
    // the interval stops exactly when the accumulator reaches the target
    ensures s.running ==> (r.running <==> r.start < target as real)
    // the displayed value never passes the target
    ensures s.running ==> r.count <= target
    ensures s.running && !r.running ==> r.count == target
    ensures r.running ==> r.count as real <= r.start < r.count as real + 1.0
    ensures Valid(target, s) ==> Valid(target, r)
  {
    if !s.running then s
    else
      var start := s.start + increment;
      if start >= target as real then s.(start := start, count := target, running := false)
      else s.(start := start, count := start.Floor)
  }

  /** `n` firings in a row. */
  function Ticks(target: int, increment: real, s: State, n: nat): State
    decreases n
  {
    if n == 0 then s else OnTick(target, increment, Ticks(target, increment, s, n - 1))
  }

  /** Until the element comes into view no interval runs: any number of
      firings leaves the counter at 0. */
  lemma {:induction false} NothingBeforeView(target: int, increment: real, k: nat)
    ensures Ticks(target, increment, Initial, k) == Initial
    decreases k
  {
    if k > 0 {
      NothingBeforeView(target, increment, k - 1);
    }
  }

  /** The state just after the element has come into view. */
  const Started: State := OnView(Initial)

  /** For a non-negative target the display never passes the target. */
  lemma CountBounded(target: int, s: State)
    requires target >= 0 && Valid(target, s)
    ensures s.count <= target
  {
  }

  /** For a non-negative target and step the display never goes down. */
  lemma CountMonotone(target: int, increment: real, s: State)
    requires target >= 0 && increment >= 0.0 && Valid(target, s)
    ensures OnTick(target, increment, s).count >= s.count
  {
  }

  /** The accumulator after `k` firings: `k` increments added to 0. */
  function Accumulated(k: nat, increment: real): real
    decreases k
  {
    if k == 0 then 0.0 else Accumulated(k - 1, increment) + increment
  }

  lemma {:induction false} AccumulatedIsProduct(k: nat, increment: real)
    ensures Accumulated(k, increment) == (k as real) * increment
    decreases k
  {
    if k > 0 {
      AccumulatedIsProduct(k - 1, increment);
      assert ((k - 1) as real) * increment + increment == (k as real) * increment;
    }
  }

  /** After `k` firings with the accumulator still below the target, the
      interval runs on and shows the floor of the accumulator. */
  lemma {:induction false} TicksBelow(target: int, increment: real, k: nat)
    requires increment >= 0.0 && Accumulated(k, increment) < target as real
    ensures Ticks(target, increment, Started, k)
         == State(true, Accumulated(k, increment), Accumulated(k, increment).Floor, true)
    decreases k
  {
    if k > 0 {
      TicksBelow(target, increment, k - 1);
    }
  }

  /** Once the interval has stopped, later firings change nothing. */
  lemma {:induction false} StaysStopped(target: int, increment: real, k: nat, j: nat)
    requires !Ticks(target, increment, Started, k).running
    ensures Ticks(target, increment, Started, k + j) == Ticks(target, increment, Started, k)
    decreases j
  {
    if j > 0 {
      StaysStopped(target, increment, k, j - 1);
    }
  }

  /** With the step `target / d`, `x` steps stay below a positive target
      exactly when `x < d`. */
  lemma StepsBelow(x: real, d: real, target: real)
    requires d > 0.0 && target > 0.0
    ensures x * (target / d) < target <==> x < d
  {
    var inc := target / d;
    assert inc * d == target;
    assert inc > 0.0;
    assert x * inc - target == (x - d) * inc;
  }

  /** The accumulator of a positive target is below it after `k` firings
      exactly when `k < duration * 60`. */
  lemma AccumulatedBelow(target: int, duration: real, k: nat)
    requires target > 0 && duration > 0.0
    ensures Accumulated(k, Increment(target, duration)) < target as real
        <==> (k as real) < duration * TicksPerSecond
  {
    StepsBelow(k as real, duration * TicksPerSecond, target as real);
    AccumulatedIsProduct(k, Increment(target, duration));
  }

  /** Before ceil(duration * 60) firings the interval of a positive target
      is still running and shows less than the target. */
  lemma RunsBelowTarget(target: int, duration: real, k: nat)
    requires target > 0 && duration > 0.0
    requires k < Ceil(duration * TicksPerSecond)
    ensures Ticks(target, Increment(target, duration), Started, k).running
    ensures Ticks(target, Increment(target, duration), Started, k).count < target
  {
    AccumulatedBelow(target, duration, k);
    TicksBelow(target, Increment(target, duration), k);
  }

  /** At ceil(duration * 60) firings the interval of a positive target has
      stopped, showing the target. */
  lemma StopsAtTarget(target: int, duration: real)
    requires target > 0 && duration > 0.0
    ensures Ceil(duration * TicksPerSecond) >= 1
    ensures !Ticks(target, Increment(target, duration), Started, Ceil(duration * TicksPerSecond)).running
    ensures Ticks(target, Increment(target, duration), Started, Ceil(duration * TicksPerSecond)).count == target
  {
    var inc := Increment(target, duration);
    var n := Ceil(duration * TicksPerSecond);
    assert n >= 1;
    AccumulatedBelow(target, duration, n - 1);
    AccumulatedBelow(target, duration, n);
    TicksBelow(target, inc, n - 1);
    assert Ticks(target, inc, Started, n) == OnTick(target, inc, Ticks(target, inc, Started, n - 1));
  }

  /** A positive target is reached after exactly ceil(duration * 60)
      firings: before that the interval runs and shows less than the
      target; then it shows the target and stops. */
  lemma ReachesTarget(target: int, duration: real)
    requires target > 0 && duration > 0.0
    ensures var n := Ceil(duration * TicksPerSecond);
      n >= 1 &&
      (forall k: nat :: k < n ==>
         Ticks(target, Increment(target, duration), Started, k).running &&
         Ticks(target, Increment(target, duration), Started, k).count < target) &&
      !Ticks(target, Increment(target, duration), Started, n).running &&
      Ticks(target, Increment(target, duration), Started, n).count == target
  {
    forall k: nat | k < Ceil(duration * TicksPerSecond)
      ensures Ticks(target, Increment(target, duration), Started, k).running
      ensures Ticks(target, Increment(target, duration), Started, k).count < target
    {
      RunsBelowTarget(target, duration, k);
    }
    StopsAtTarget(target, duration);
  }

  /** A zero target stops on the first firing, showing 0. */
  lemma ZeroTarget(duration: real)
    requires duration > 0.0
    ensures Ticks(0, Increment(0, duration), Started, 1) == State(true, 0.0, 0, false)
  {
  }

  /** For a non-negative target, from ceil(duration * 60) firings on the
      interval has stopped and the target is shown. */
  lemma StoppedFromCeil(target: int, duration: real, k: nat)
    requires target >= 0 && duration > 0.0
    requires k >= Ceil(duration * TicksPerSecond)
    ensures !Ticks(target, Increment(target, duration), Started, k).running
    ensures Ticks(target, Increment(target, duration), Started, k).count == target
  {
    var n := Ceil(duration * TicksPerSecond);
    if target > 0 {
      StopsAtTarget(target, duration);
      StaysStopped(target, Increment(target, duration), n, k - n);
    } else {
      ZeroTarget(duration);
      StaysStopped(target, Increment(target, duration), 1, k - 1);
    }
  }

  /** The counter as the component holds it. */
  class Counter {
    const target: int
    const duration: real
    /** Computed by the effect from the props, which do not change here. */
    const increment: real
    var inView: bool
    var start: real
    var count: int
    var running: bool

    function Current(): State
      reads this
    {
      State(inView, start, count, running)
    }

    predicate Inv()
      reads this
    {
      duration > 0.0 && increment == Increment(target, duration) && Valid(target, Current())
    }

    constructor (target: int, duration: real)
      requires duration > 0.0
      ensures this.target == target && this.duration == duration
      ensures Current() == Initial && Inv()
    {
      this.target, this.duration := target, duration;
      increment := Increment(target, duration);
      inView, start, count, running := false, 0.0, 0, false;
    }

    /** The effect that runs when the element comes into view. */
    method EnterView()
      requires Inv()
      modifies this
      ensures Inv()
      ensures Current() == OnView(old(Current()))
    {
      if !inView {
        inView := true;
        start := 0.0;
        running := true;
      }
    }

    /** One firing of the interval callback. */
    method Tick()
      requires Inv()
      modifies this
      ensures Inv()
      ensures Current() == OnTick(target, increment, old(Current()))
    {
      if running {
        start := start + increment;
        if start >= target as real {
          count := target;
          running := false;
        } else {
          count := start.Floor;
        }
      }
    }

    /** The interval from the moment it is started until it clears itself:
        for a non-negative target it stops after at most ceil(duration * 60)
        firings, showing the target. */
    method RunInterval() returns (firings: nat)
      requires Inv() && target >= 0 && Current() == Started
      modifies this
      ensures Inv() && !running && count == target
      ensures firings <= Ceil(duration * TicksPerSecond)
      ensures Current() == Ticks(target, increment, Started, firings)
    {
      ghost var n := Ceil(duration * TicksPerSecond);
      firings := 0;
      while running
        invariant Inv() && target >= 0 && inView
        invariant Current() == Ticks(target, increment, Started, firings)
        invariant firings <= n && (running ==> firings < n)
        decreases n - firings
      {
        Tick();
        firings := firings + 1;
        if firings >= n {
          StoppedFromCeil(target, duration, firings);
        }
      }
    }
  }

  /** The three counters of the hero section, showing 4, 6 and 15 after
      120 firings each at the default duration. */
  lemma HeroCounters()
    ensures Ceil(DefaultDuration * TicksPerSecond) == 120
    ensures Ticks(4, Increment(4, DefaultDuration), Started, 120).count == 4
    ensures Ticks(6, Increment(6, DefaultDuration), Started, 120).count == 6
    ensures Ticks(15, Increment(15, DefaultDuration), Started, 120).count == 15
  {
    ReachesTarget(4, DefaultDuration);
    ReachesTarget(6, DefaultDuration);
    ReachesTarget(15, DefaultDuration);
  }
}
