/** The plain one-sweep replacer, and how the two-sweep one relates to it. */
module ClockReplacer {
  import opened ClockRing

  datatype SweepState = SweepState(useBits: seq<bool>, inReplacer: seq<bool>, hand: nat)
  {
    function Size(): nat { |inReplacer| }

    predicate Ok() {
      && |useBits| == |inReplacer|
      && (if Size() == 0 then hand == 0 else hand < Size())
    }

    function Frame(k: nat): (f: nat)
      requires Ok() && Size() > 0 && k <= Size()
      ensures f < Size()
    {
      At(hand, k, Size())
    }

    ghost function Candidates(): set<nat> {
      set f: nat | f < Size() && inReplacer[f]
    }

    predicate Stops(k: nat)
      requires Ok() && k < Size()
    {
      inReplacer[Frame(k)] && !useBits[Frame(k)]
    }

    /** The first position from `k` on that holds an unreferenced candidate, or the size if there is none. */
    function FirstStop(k: nat): (r: nat)
      requires Ok() && k <= Size()
      ensures k <= r <= Size()
      ensures forall j: nat :: k <= j < r ==> !Stops(j)
      ensures r < Size() ==> Stops(r)
      decreases Size() - k
    {
      if k == Size() || Stops(k) then k else FirstStop(k + 1)
    }

    function Cleared(k: nat): (bits: seq<bool>)
      requires Ok() && k <= Size()
      ensures |bits| == Size()
      ensures forall f: nat :: f < Size() ==> bits[f] == (useBits[f] && !(inReplacer[f] && Steps(hand, f, Size()) < k))
    {
      seq(Size(), f requires 0 <= f < Size() => useBits[f] && !(inReplacer[f] && Steps(hand, f, Size()) < k))
    }

    predicate HasVictim()
      requires Ok()
    {
      FirstStop(0) < Size()
    }

    function VictimFrame(): (f: nat)
      requires Ok() && HasVictim()
      ensures f < Size() && inReplacer[f]
    {
      Frame(FirstStop(0))
    }

    /** Even a failed `Victim` takes the use bits of all candidates. */
    function AfterVictim(): (s: SweepState)
      requires Ok()
      ensures s.Ok() && s.Size() == Size()
    {
      var bits := Cleared(FirstStop(0));
      if HasVictim() then SweepState(bits, inReplacer[VictimFrame() := false], At(VictimFrame(), 1, Size()))
      else this.(useBits := bits)
    }

    function AfterPin(f: int): (s: SweepState)
      requires Ok()
      ensures s.Ok() && s.Size() == Size()
    {
      if 0 <= f < Size() then this.(inReplacer := inReplacer[f := false]) else this
    }

    function AfterUnpin(f: int): (s: SweepState)
      requires Ok()
      ensures s.Ok() && s.Size() == Size()
    {
      if 0 <= f < Size() && !inReplacer[f] then
        SweepState(useBits[f := true], inReplacer[f := true], hand)
      else this
    }
  }

  lemma FirstStopAt(s: SweepState, k: nat)
    requires s.Ok() && k <= s.Size()
    requires forall j: nat :: j < k ==> !s.Stops(j)
    requires k < s.Size() ==> s.Stops(k)
    ensures s.FirstStop(0) == k
  {
    assert s.FirstStop(0) < s.Size() ==> s.Stops(s.FirstStop(0));
  }

  /** Evicting where the sweep first stops is what `Victim` does. */
  lemma VictimAtStop(s: SweepState, k: nat)
    requires s.Ok() && k < s.Size() && s.Stops(k)
    requires forall j: nat :: j < k ==> !s.Stops(j)
    ensures s.HasVictim() && s.VictimFrame() == s.Frame(k)
    ensures s.AfterVictim() == SweepState(s.Cleared(k), s.inReplacer[s.Frame(k) := false], At(s.Frame(k), 1, s.Size()))
  {
    FirstStopAt(s, k);
  }

  lemma NoVictim(s: SweepState)
    requires s.Ok() && forall j: nat :: j < s.Size() ==> !s.Stops(j)
    ensures !s.HasVictim() && s.AfterVictim() == s.(useBits := s.Cleared(s.Size()))
  {
    FirstStopAt(s, s.Size());
  }

  lemma ClearedStep(s: SweepState, k: nat)
    requires s.Ok() && k < s.Size()
    ensures s.Cleared(k)[s.Frame(k)] == s.useBits[s.Frame(k)]
    ensures s.Cleared(k + 1) == if s.inReplacer[s.Frame(k)] then s.Cleared(k)[s.Frame(k) := false] else s.Cleared(k)
  {
    StepsAt(s.hand, k, s.Size());
  }

  lemma NoCandidates(s: SweepState)
    requires s.Ok() && s.Candidates() == {}
    ensures !s.HasVictim() && s.AfterVictim() == s
  {
    forall f: nat | f < s.Size() ensures !s.inReplacer[f] {
      assert f !in s.Candidates();
    }
    FirstStopAt(s, s.Size());
    assert s.Cleared(s.Size()) == s.useBits;
  }

  /** How far after the hand a frame is met. */
  function Distance(s: SweepState, f: nat): (d: nat)
    requires s.Ok() && f < s.Size()
    ensures d < s.Size() && s.Frame(d) == f && d == Steps(s.hand, f, s.Size())
  {
    DistanceIsSteps(s.hand, f, s.Size());
    (f - s.hand) % s.Size()
  }

  /** The victim is the nearest unreferenced candidate; candidates met on the way lose their use bits. */
  lemma SweepOrder(s: SweepState, f: nat)
    requires s.Ok() && f < s.Size()
    ensures s.inReplacer[f] && !s.useBits[f] ==> s.HasVictim()
    ensures var t := s.AfterVictim();
            if s.HasVictim() then
              var v := s.VictimFrame();
              && s.inReplacer[v] && !s.useBits[v]
              && (s.inReplacer[f] && !s.useBits[f] ==> Distance(s, v) <= Distance(s, f))
              && (t.inReplacer[f] <==> s.inReplacer[f] && f != v)
              && (t.useBits[f] <==> s.useBits[f] && (s.inReplacer[f] ==> Distance(s, f) >= Distance(s, v)))
              && t.hand == (v + 1) % s.Size()
            else
              t.inReplacer == s.inReplacer && t.hand == s.hand && (t.useBits[f] <==> s.useBits[f] && !s.inReplacer[f])
  {
    assert s.inReplacer[f] && !s.useBits[f] ==> s.Stops(Distance(s, f));
    if s.HasVictim() {
      StepsAt(s.hand, s.FirstStop(0), s.Size());
      NextOnRing(s.VictimFrame(), s.Size());
    }
  }

  /** A `Victim` that fails although there are candidates succeeds when it is tried again. */
  lemma RetrySucceeds(s: SweepState, f: nat)
    requires s.Ok() && !s.HasVictim() && f < s.Size() && s.inReplacer[f]
    ensures s.AfterVictim().HasVictim()
  {
    var t := s.AfterVictim();
    assert t.Frame(Steps(t.hand, f, t.Size())) == f;
    assert t.Stops(Steps(t.hand, f, t.Size()));
  }

  class Clock {
    const frame: nat
    var useBits: seq<bool>
    var inReplacer: seq<bool>
    var clockHand: nat

    ghost function State(): SweepState
      reads this
    {
      SweepState(useBits, inReplacer, clockHand)
    }

    ghost predicate Valid()
      reads this
    {
      State().Ok() && |inReplacer| == frame
    }

    constructor (frame: nat)
      ensures Valid() && this.frame == frame && clockHand == 0
      ensures forall f :: 0 <= f < frame ==> !useBits[f] && !inReplacer[f]
    {
      this.frame := frame;
      useBits := seq(frame, i => false);
      inReplacer := seq(frame, i => false);
      clockHand := 0;
    }

    method Size() returns (count: nat)
      requires Valid()
      ensures count == |State().Candidates()|
    {
      count := 0;
      ghost var seen: set<nat> := {};
      for i := 0 to frame
        invariant seen == set f: nat | f < i && inReplacer[f]
        invariant count == |seen|
      {
        if inReplacer[i] {
          count := count + 1;
          seen := seen + {i};
        }
      }
      assert seen == State().Candidates();
    }

    method StepHand()
      requires Valid() && frame > 0
      modifies this`clockHand
      ensures Valid() && clockHand == At(old(clockHand), 1, frame)
    {
      NextOnRing(clockHand, frame);
      clockHand := (clockHand + 1) % frame;
    }

    method Victim() returns (found: bool, frameId: nat)
      requires Valid()
      modifies this
      ensures Valid()
      ensures found == old(State()).HasVictim()
      ensures State() == old(State()).AfterVictim()
      ensures found ==> frameId == old(State()).VictimFrame()
    {
      hide SweepState.FirstStop, SweepState.HasVictim, SweepState.VictimFrame, SweepState.AfterVictim, SweepState.Cleared;
      ghost var s := State();
      var count := Size();
      if count == 0 {
        NoCandidates(s);
        return false, 0;
      }
      var startHand := clockHand;
      var entering := true;
      ghost var k := 0;
      frameId := 0;
      assert s.Cleared(0) == s.useBits;
      while entering || clockHand != startHand
        invariant k <= frame && (entering <==> k == 0)
        invariant Valid() && State() == s.(useBits := s.Cleared(k), hand := s.Frame(k))
        invariant forall j: nat :: j < k ==> !s.Stops(j)
        decreases frame - k
      {
        ClearedStep(s, k);
        if inReplacer[clockHand] {
          if !useBits[clockHand] {
            VictimAtStop(s, k);
            frameId := clockHand;
            inReplacer := inReplacer[clockHand := false];
            StepHand();
            return true, frameId;
          } else {
            useBits := useBits[clockHand := false];
          }
        }
        StepHand();
        entering, k := false, k + 1;
      }
      NoVictim(s);
      found := false;
    }

    method Pin(frameId: int)
      requires Valid()
      modifies this`inReplacer
      ensures Valid() && State() == old(State()).AfterPin(frameId)
      ensures inReplacer == if 0 <= frameId < frame then old(inReplacer)[frameId := false] else old(inReplacer)
    {
      if frameId < 0 || frameId >= frame {
        return;
      }
      if inReplacer[frameId] {
        inReplacer := inReplacer[frameId := false];
      }
    }

    method Unpin(frameId: int)
      requires Valid()
      modifies this`useBits, this`inReplacer
      ensures Valid() && State() == old(State()).AfterUnpin(frameId)
      ensures if 0 <= frameId < frame && !old(inReplacer)[frameId]
              then inReplacer == old(inReplacer)[frameId := true] && useBits == old(useBits)[frameId := true]
              else unchanged(this)
    {
      if frameId < 0 || frameId >= frame {
        return;
      }
      if !inReplacer[frameId] {
        inReplacer := inReplacer[frameId := true];
        useBits := useBits[frameId := true];
      }
    }
  }
}

/** With every page reported cold, the layered replacer is the plain clock with one retry. */
module ClockSimulation {
  import opened LayeredReplacer
  import opened ClockReplacer

  datatype Event = Pin(frame: int) | Unpin(frame: int) | Victim

  datatype Outcome = Quiet | NoFrame | Frame(frame: nat)

  /** One call on the layered replacer, every unpin passing "cold". */
  function LayeredStep(s: ClockState, e: Event): (r: (ClockState, Outcome))
    requires s.Ok()
    ensures r.0.Ok() && r.0.Size() == s.Size()
  {
    match e
    case Pin(f) => (s.AfterPin(f), Quiet)
    case Unpin(f) => (s.AfterUnpin(f, false), Quiet)
    case Victim => (s.AfterVictim(), if s.HasVictim() then Frame(s.VictimFrame()) else NoFrame)
  }

  /** The same call on the plain clock, a failed `Victim` being tried once more. */
  function RetriedStep(s: SweepState, e: Event): (r: (SweepState, Outcome))
    requires s.Ok()
    ensures r.0.Ok() && r.0.Size() == s.Size()
  {
    match e
    case Pin(f) => (s.AfterPin(f), Quiet)
    case Unpin(f) => (s.AfterUnpin(f), Quiet)
    case Victim =>
      if s.HasVictim() then (s.AfterVictim(), Frame(s.VictimFrame()))
      else
        var t := s.AfterVictim();
        (t.AfterVictim(), if t.HasVictim() then Frame(t.VictimFrame()) else NoFrame)
  }

  /** The answers of a run of calls, each with the position of the hand after it. */
  function LayeredRun(s: ClockState, events: seq<Event>): (out: seq<(Outcome, nat)>)
    requires s.Ok()
    decreases |events|
  {
    if events == [] then [] else
      var (t, o) := LayeredStep(s, events[0]);
      [(o, t.hand)] + LayeredRun(t, events[1..])
  }

  function RetriedRun(s: SweepState, events: seq<Event>): (out: seq<(Outcome, nat)>)
    requires s.Ok()
    decreases |events|
  {
    if events == [] then [] else
      var (t, o) := RetriedStep(s, events[0]);
      [(o, t.hand)] + RetriedRun(t, events[1..])
  }

  /** Same hand, same candidates, same use bits on the candidates, and no candidate is hot. */
  predicate Related(l: ClockState, c: SweepState) {
    && l.Ok() && c.Ok()
    && l.inReplacer == c.inReplacer
    && l.hand == c.hand
    && forall f :: 0 <= f < l.Size() && l.inReplacer[f] ==> l.useBits[f] == c.useBits[f] && !l.isHot[f]
  }

  lemma FirstSweepsAgree(l: ClockState, c: SweepState)
    requires Related(l, c)
    ensures l.FirstStop(0) == c.FirstStop(0)
  {
    var r := c.FirstStop(0);
    forall j: nat | j < r ensures !l.Stops(j) {
      assert !c.Stops(j);
    }
    assert r < c.Size() ==> c.Stops(r);
    LayeredReplacer.FirstStopAt(l, r);
  }

  lemma FirstSweepVictimsAgree(l: ClockState, c: SweepState)
    requires Related(l, c) && c.HasVictim()
    ensures l.HasVictim() && l.VictimFrame() == c.VictimFrame()
    ensures Related(l.AfterVictim(), c.AfterVictim())
  {
    FirstSweepsAgree(l, c);
  }

  lemma RetriedVictimsAgree(l: ClockState, c: SweepState)
    requires Related(l, c) && !c.HasVictim()
    ensures l.HasVictim() == c.AfterVictim().HasVictim()
    ensures l.HasVictim() ==> l.VictimFrame() == c.AfterVictim().VictimFrame()
    ensures Related(l.AfterVictim(), c.AfterVictim().AfterVictim())
  {
    FirstSweepsAgree(l, c);
    var t, r := c.AfterVictim(), l.FirstCandidate(0);
    forall j: nat | j < r ensures !t.Stops(j) {
      assert !l.inReplacer[l.Frame(j)];
    }
    assert r < t.Size() ==> t.Stops(r);
    ClockReplacer.FirstStopAt(t, r);
    AllUnreferenced(l);
    var t' := t.AfterVictim();
    assert forall f :: 0 <= f < t'.Size() && t'.inReplacer[f] ==> t.inReplacer[f] && !t.useBits[f] && !t'.useBits[f];
  }

  /** A `Victim` that goes past its first sweep leaves no candidate referenced. */
  lemma AllUnreferenced(l: ClockState)
    requires l.Ok() && l.FirstStop(0) == l.Size()
    ensures forall f :: 0 <= f < l.Size() && l.AfterVictim().inReplacer[f] ==> l.inReplacer[f] && !l.AfterVictim().useBits[f]
  {
    var l' := l.AfterVictim();
    forall f | 0 <= f < l.Size() && l'.inReplacer[f] ensures l.inReplacer[f] && !l'.useBits[f] {
      VictimExists(l);
      assert f in l.Candidates();
      assert l'.useBits == l.ClearedTwice(l.VictimPosition());
    }
  }

  function FreshLayered(n: nat): ClockState {
    ClockState(seq(n, i => false), seq(n, i => false), seq(n, i => true), 0)
  }

  function FreshClock(n: nat): SweepState {
    SweepState(seq(n, i => false), seq(n, i => false), 0)
  }

  /** Over every run of calls the two replacers hand out the same frames in the same order, with the same hand. */
  lemma {:induction false} RunsAgree(l: ClockState, c: SweepState, events: seq<Event>)
    requires Related(l, c)
    ensures LayeredRun(l, events) == RetriedRun(c, events)
    decreases |events|
  {
    if events != [] {
      if events[0].Victim? {
        if c.HasVictim() {
          FirstSweepVictimsAgree(l, c);
        } else {
          RetriedVictimsAgree(l, c);
        }
      }
      RunsAgree(LayeredStep(l, events[0]).0, RetriedStep(c, events[0]).0, events[1..]);
    }
  }

  method LayeredCall(l: LayeredClock, e: Event) returns (o: Outcome)
    requires l.Valid()
    modifies l
    ensures l.Valid() && (l.State(), o) == LayeredStep(old(l.State()), e)
  {
    o := Quiet;
    match e {
      case Pin(f) => l.Pin(f);
      case Unpin(f) => l.Unpin(f, false);
      case Victim =>
        var found, f := l.Victim();
        o := if found then Frame(f) else NoFrame;
    }
  }

  method RetriedCall(c: Clock, e: Event) returns (o: Outcome)
    requires c.Valid()
    modifies c
    ensures c.Valid() && (c.State(), o) == RetriedStep(old(c.State()), e)
  {
    o := Quiet;
    match e {
      case Pin(f) => c.Pin(f);
      case Unpin(f) => c.Unpin(f);
      case Victim =>
        var found, f := c.Victim();
        if !found {
          found, f := c.Victim();
        }
        o := if found then Frame(f) else NoFrame;
    }
  }

  /** The same on the replacers themselves, from new ones on. */
  method RunBoth(n: nat, events: seq<Event>) returns (layered: seq<(Outcome, nat)>, plain: seq<(Outcome, nat)>)
    ensures layered == plain == LayeredRun(FreshLayered(n), events)
  {
    var l := new LayeredClock(n);
    var c := new Clock(n);
    RunsAgree(FreshLayered(n), FreshClock(n), events);
    ghost var all := LayeredRun(FreshLayered(n), events);
    layered, plain := [], [];
    assert events[0..] == events && l.State() == FreshLayered(n) && c.State() == FreshClock(n);
    for i := 0 to |events|
      invariant l.Valid() && c.Valid()
      invariant layered + LayeredRun(l.State(), events[i..]) == all
      invariant plain + RetriedRun(c.State(), events[i..]) == all
    {
      assert events[i..][0] == events[i] && events[i..][1..] == events[i + 1..];
      var lo := LayeredCall(l, events[i]);
      var co := RetriedCall(c, events[i]);
      Regroup(layered, (lo, l.clockHand), LayeredRun(l.State(), events[i + 1..]));
      Regroup(plain, (co, c.clockHand), RetriedRun(c.State(), events[i + 1..]));
      layered, plain := layered + [(lo, l.clockHand)], plain + [(co, c.clockHand)];
    }
    assert events[|events|..] == [];
    assert layered + [] == layered && plain + [] == plain;
  }

  lemma Regroup<T>(a: seq<T>, x: T, b: seq<T>)
    ensures a + ([x] + b) == (a + [x]) + b
  {
  }
}
