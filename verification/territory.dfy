/** The animated timeline of components/visualizations/TerritoryTimeline.tsx:
    four years of territorial expansion, an entrance animation, autoplay
    through the later years, and year buttons that take over from autoplay.
    Timers are events: `Animate` is the 100 ms mount timer firing, `Tick`
    the 1500 ms autoplay timer firing. */
module TerritoryTimeline {
  import opened Js

  /** The years of the four maps, in order. */
  const Years: seq<int> := [1770, 1800, 1809, 1850]

  /** The last index of the timeline. */
  const Last := |Years| - 1

  function HasYear(year: int): int -> bool { (y: int) => y == year }

  /** `startIndex`: the index of `initialYear`, or the first map when the
      year is not on the timeline. */
  function StartIndex(initialYear: int): (r: nat)
    ensures r < |Years|
    ensures initialYear in Years ==> Years[r] == initialYear
    ensures initialYear !in Years ==> r == 0
  {
    var i := FindIndex(Years, HasYear(initialYear));
    if i >= 0 then i else 0
  }

  /** Each year on the timeline starts at its own map. */
  lemma StartIndexRoundTrip(i: nat)
    requires i < |Years|
    ensures StartIndex(Years[i]) == i
  {
    var r := StartIndex(Years[i]);
    assert Years[r] == Years[i];
  }

  /** `animated`, `activeYear` and `isAutoPlaying`. */
  datatype State = State(animated: bool, activeYear: int, autoPlaying: bool)

  function Initial(initialYear: int): (s: State)
    ensures !s.animated && s.autoPlaying && s.activeYear == StartIndex(initialYear)
  {
    State(false, StartIndex(initialYear), true)
  }

  datatype Event =
    | Animate
    | Tick
      /** A year button; the buttons pass their own index. */
    | Click(index: nat)

  predicate ValidEvent(e: Event)
  {
    e.Click? ==> e.index < |Years|
  }

  /** The autoplay effect's condition: while it holds, a 1500 ms timer is armed. */
  predicate Autoplays(s: State)
  {
    s.animated && s.autoPlaying && s.activeYear < Last
  }

  function Step(s: State, e: Event): (r: State)
    requires ValidEvent(e)
    ensures e.Animate? ==> r == s.(animated := true)
    ensures e.Tick? && Autoplays(s) ==> r == s.(activeYear := s.activeYear + 1)
    ensures e.Tick? && !Autoplays(s) ==> r == s
    ensures e.Click? ==> r == State(s.animated, e.index, false)
  {
    match e
    case Animate => s.(animated := true)
    case Tick => if Autoplays(s) then s.(activeYear := s.activeYear + 1) else s
    case Click(i) => State(s.animated, i, false)
  }

  function Run(s: State, events: seq<Event>): State
    requires forall i :: 0 <= i < |events| ==> ValidEvent(events[i])
    decreases |events|
  {
    if |events| == 0 then s else Run(Step(s, events[0]), events[1..])
  }

  /** The active year always names one of the four maps. */
  ghost predicate Valid(s: State)
  {
    0 <= s.activeYear <= Last
  }

  lemma {:induction false} RunStaysValid(s: State, events: seq<Event>)
    requires Valid(s)
    requires forall i :: 0 <= i < |events| ==> ValidEvent(events[i])
    ensures Valid(Run(s, events))
    decreases |events|
  {
    if |events| > 0 {
      RunStaysValid(Step(s, events[0]), events[1..]);
    }
  }

  /** Autoplay only moves forward, one year per tick. */
  lemma TickAdvances(s: State)
    requires Valid(s)
    ensures Step(s, Tick).activeYear == if Autoplays(s) then s.activeYear + 1 else s.activeYear
    ensures Valid(Step(s, Tick))
  {
  }

  /** A run of `k` ticks. */
  function Ticks(k: nat): (r: seq<Event>)
    ensures |r| == k && forall i :: 0 <= i < k ==> r[i] == Tick
  {
    seq(k, i => Tick)
  }

  /** Once animated and left alone, autoplay walks to the last year and stops
      there. */
  lemma {:induction false} AutoplayReachesEnd(s: State, k: nat)
    requires Valid(s) && s.animated && s.autoPlaying
    ensures Run(s, Ticks(k)) == s.(activeYear := Min(s.activeYear + k, Last))
    decreases k
  {
    if k > 0 {
      var t := Step(s, Tick);
      assert Ticks(k)[1..] == Ticks(k - 1);
      AutoplayReachesEnd(t, k - 1);
    }
  }

  /** Before the entrance animation, ticks do nothing. */
  lemma NoAutoplayBeforeAnimation(s: State)
    requires !s.animated
    ensures Step(s, Tick) == s
  {
  }

  /** After a click autoplay is off for good: ticks leave the state alone, and
      the chosen year stays until the next click. */
  lemma {:induction false} ClickStopsAutoplay(s: State, k: nat)
    requires !s.autoPlaying
    ensures Run(s, Ticks(k)) == s
    decreases k
  {
    if k > 0 {
      assert Ticks(k)[1..] == Ticks(k - 1);
      ClickStopsAutoplay(s, k - 1);
    }
  }

  /** `isActive = animated && i <= activeYear`. */
  predicate IsActive(s: State, i: int)
  {
    s.animated && i <= s.activeYear
  }

  /** The highlighted maps are the ones up to the active year: a prefix of
      the timeline that ends at the active year. */
  lemma ActiveIsPrefix(s: State, i: int, j: int)
    requires Valid(s) && s.animated
    requires 0 <= i <= j < |Years|
    ensures IsActive(s, j) ==> IsActive(s, i)
    ensures IsActive(s, s.activeYear) && !IsActive(s, s.activeYear + 1)
  {
  }

  /** Mounted with the default year and left alone: the animation starts,
      then three ticks show all four maps. */
  lemma DefaultScenario()
    ensures Run(Initial(1770), [Animate] + Ticks(3)) == State(true, 3, true)
    ensures Run(Initial(1770), [Animate] + Ticks(3) + [Click(1)]) == State(true, 1, false)
  {
    var s := Initial(1770);
    assert StartIndex(1770) == 0 by { StartIndexRoundTrip(0); }
    assert ([Animate] + Ticks(3))[1..] == Ticks(3);
    AutoplayReachesEnd(State(true, 0, true), 3);
    RunConcat(s, [Animate] + Ticks(3), [Click(1)]);
    assert Run(State(true, 3, true), [Click(1)]) == Run(State(true, 1, false), []);
  }

  lemma {:induction false} RunConcat(s: State, a: seq<Event>, b: seq<Event>)
    requires forall i :: 0 <= i < |a| ==> ValidEvent(a[i])
    requires forall i :: 0 <= i < |b| ==> ValidEvent(b[i])
    ensures forall i :: 0 <= i < |a + b| ==> ValidEvent((a + b)[i])
    ensures Run(s, a + b) == Run(Run(s, a), b)
    decreases |a|
  {
    if |a| > 0 {
      assert (a + b)[1..] == a[1..] + b;
      RunConcat(Step(s, a[0]), a[1..], b);
    } else {
      assert a + b == b;
    }
  }
}
