/** Positions on a circular buffer of frames, counted from the clock hand. */
module ClockRing {

  /** The frame `k` steps after the hand. */
  function At(hand: nat, k: nat, n: nat): (f: nat)
    requires hand < n && k <= n
    ensures f < n
  {
    if hand + k < n then hand + k else hand + k - n
  }

  /** How many steps after the hand a frame is met. */
  function Steps(hand: nat, f: nat, n: nat): (k: nat)
    requires hand < n && f < n
    ensures k < n && At(hand, k, n) == f
  {
    if hand <= f then f - hand else f + n - hand
  }

  lemma StepsAt(hand: nat, k: nat, n: nat)
    requires hand < n && k < n
    ensures Steps(hand, At(hand, k, n), n) == k
  {
  }

  lemma DistanceIsSteps(hand: nat, f: nat, n: nat)
    requires hand < n && f < n
    ensures (f - hand) % n == Steps(hand, f, n)
  {
    if f < hand {
      assert (f - hand) % n == (f - hand + n) % n;
    }
  }

  lemma NextOnRing(x: nat, n: nat)
    requires x < n
    ensures (x + 1) % n == if x + 1 == n then 0 else x + 1
  {
    if x + 1 < n {
      assert (x + 1) / n == 0;
    }
  }
}

/** The hot/cold two-sweep replacer of the buffer pool. */
module LayeredReplacer {
  import opened ClockRing

  /** A cold frame is preferred until this many unreferenced hot frames have been met. */
  const COLD_EVICTION_PRIORITY := 5

  datatype ClockState = ClockState(useBits: seq<bool>, inReplacer: seq<bool>, isHot: seq<bool>, hand: nat)
  {
    function Size(): nat { |inReplacer| }

    predicate Ok() {
      && |useBits| == |inReplacer| == |isHot|
      && (if Size() == 0 then hand == 0 else hand < Size())
    }

    function Frame(k: nat): (f: nat)
      requires Ok() && Size() > 0 && k <= Size()
      ensures f < Size()
    {
      At(hand, k, Size())
    }

    predicate Candidate(f: nat) {
      f < Size() && inReplacer[f]
    }

    ghost function Candidates(): set<nat> {
      set f: nat | f < Size() && Candidate(f)
    }

    /** The frame at position `k` is an unreferenced candidate. */
    predicate Unreferenced(k: nat)
      requires Ok() && k < Size()
    {
      inReplacer[Frame(k)] && !useBits[Frame(k)]
    }

    /** Unreferenced hot candidates met before position `k`. */
    function HotPassed(k: nat): nat
      requires Ok() && k <= Size()
    {
      if k == 0 then 0
      else HotPassed(k - 1) + if Unreferenced(k - 1) && isHot[Frame(k - 1)] then 1 else 0
    }

    /** The first sweep evicts at position `k`: an unreferenced candidate that is cold, or the fifth hot one. */
    predicate Stops(k: nat)
      requires Ok() && k < Size()
    {
      Unreferenced(k) && (isHot[Frame(k)] ==> HotPassed(k) + 1 >= COLD_EVICTION_PRIORITY)
    }

    /** The first position from `k` on where the first sweep evicts, or the size if it evicts nowhere. */
    function FirstStop(k: nat): (r: nat)
      requires Ok() && k <= Size()
      ensures k <= r <= Size()
      ensures forall j: nat :: k <= j < r ==> !Stops(j)
      ensures r < Size() ==> Stops(r)
      decreases Size() - k
    {
      if k == Size() || Stops(k) then k else FirstStop(k + 1)
    }

    /** The first position from `k` on that holds a candidate, or the size if there is none. */
    function FirstCandidate(k: nat): (r: nat)
      requires Ok() && k <= Size()
      ensures k <= r <= Size()
      ensures forall j: nat :: k <= j < r ==> !inReplacer[Frame(j)]
      ensures r < Size() ==> inReplacer[Frame(r)]
      decreases Size() - k
    {
      if k == Size() || inReplacer[Frame(k)] then k else FirstCandidate(k + 1)
    }

    /** The position where `Victim` evicts, or the size if it fails. */
    function VictimPosition(): (k: nat)
      requires Ok()
      ensures k <= Size()
    {
      if FirstStop(0) < Size() then FirstStop(0) else FirstCandidate(0)
    }

    predicate HasVictim()
      requires Ok()
    {
      VictimPosition() < Size()
    }

    function VictimFrame(): (f: nat)
      requires Ok() && HasVictim()
      ensures f < Size() && inReplacer[f]
    {
      Frame(VictimPosition())
    }

    /** Use bits once the first sweep has passed `k` positions: candidates met so far lose theirs. */
    function Cleared(k: nat): (bits: seq<bool>)
      requires Ok() && k <= Size()
      ensures |bits| == Size()
      ensures forall f: nat :: f < Size() ==> bits[f] == (useBits[f] && !(inReplacer[f] && Steps(hand, f, Size()) < k))
    {
      seq(Size(), f requires 0 <= f < Size() => useBits[f] && !(inReplacer[f] && Steps(hand, f, Size()) < k))
    }

    /** Use bits once the second sweep has passed `k` positions, candidate or not. */
    function ClearedTwice(k: nat): (bits: seq<bool>)
      requires Ok() && k <= Size()
      ensures |bits| == Size()
      ensures forall f: nat :: f < Size() ==> bits[f] == (useBits[f] && !inReplacer[f] && Steps(hand, f, Size()) >= k)
    {
      seq(Size(), f requires 0 <= f < Size() => useBits[f] && !inReplacer[f] && Steps(hand, f, Size()) >= k)
    }

    /** The state in which a successful or failed `Victim` leaves the replacer. */
    function AfterVictim(): (s: ClockState)
      requires Ok()
      ensures s.Ok() && s.Size() == Size() && s.isHot == isHot
    {
      if !HasVictim() then this
      else
        var k := VictimPosition();
        var bits := if FirstStop(0) < Size() then Cleared(k) else ClearedTwice(k);
        var h := if Frame(k) + 1 == Size() then 0 else Frame(k) + 1;
        ClockState(bits, inReplacer[Frame(k) := false], isHot, h)
    }

    function AfterPin(f: int): (s: ClockState)
      requires Ok()
      ensures s.Ok() && s.Size() == Size()
    {
      if 0 <= f < Size() then this.(inReplacer := inReplacer[f := false]) else this
    }

    function AfterUnpin(f: int, hot: bool): (s: ClockState)
      requires Ok()
      ensures s.Ok() && s.Size() == Size()
    {
      if 0 <= f < Size() && !inReplacer[f] then
        ClockState(useBits[f := true], inReplacer[f := true], isHot[f := hot], hand)
      else this
    }
  }

  /** `Victim` fails exactly when nothing is evictable; otherwise it removes one candidate and no other. */
  lemma VictimExists(s: ClockState)
    requires s.Ok()
    ensures s.HasVictim() <==> s.Candidates() != {}
    ensures s.HasVictim() ==> s.VictimFrame() in s.Candidates()
    ensures s.HasVictim() ==> s.AfterVictim().Candidates() == s.Candidates() - {s.VictimFrame()}
  {
    if s.HasVictim() {
      assert s.VictimFrame() in s.Candidates();
    }
    if s.Candidates() != {} {
      var f :| f in s.Candidates();
      assert s.inReplacer[s.Frame(Steps(s.hand, f, s.Size()))];
    }
  }

  lemma FirstStopAt(s: ClockState, k: nat)
    requires s.Ok() && k <= s.Size()
    requires forall j: nat :: j < k ==> !s.Stops(j)
    requires k < s.Size() ==> s.Stops(k)
    ensures s.FirstStop(0) == k
  {
    assert s.FirstStop(0) < s.Size() ==> s.Stops(s.FirstStop(0));
  }

  /** Evicting where the first sweep first stops is what `Victim` does. */
  lemma VictimAtStop(s: ClockState, k: nat)
    requires s.Ok() && k < s.Size() && s.Stops(k)
    requires forall j: nat :: j < k ==> !s.Stops(j)
    ensures s.HasVictim() && s.FirstStop(0) == k && s.VictimFrame() == s.Frame(k)
    ensures s.AfterVictim() == ClockState(s.Cleared(k), s.inReplacer[s.Frame(k) := false], s.isHot, At(s.Frame(k), 1, s.Size()))
  {
    FirstStopAt(s, k);
  }

  /** Evicting the first candidate of the second sweep is what `Victim` does when the first sweep stops nowhere. */
  lemma VictimAtCandidate(s: ClockState, k: nat)
    requires s.Ok() && k < s.Size() && s.FirstStop(0) == s.Size() && s.inReplacer[s.Frame(k)]
    requires forall j: nat :: j < k ==> !s.inReplacer[s.Frame(j)]
    ensures s.HasVictim() && s.VictimFrame() == s.Frame(k)
    ensures s.AfterVictim() == ClockState(s.ClearedTwice(k), s.inReplacer[s.Frame(k) := false], s.isHot, At(s.Frame(k), 1, s.Size()))
  {
    assert s.FirstCandidate(0) == k;
  }

  lemma SweepStart(s: ClockState)
    requires s.Ok()
    ensures s.Cleared(0) == s.useBits && s.HotPassed(0) == 0
  {
  }

  /** One more position of the first sweep. */
  lemma ClearedStep(s: ClockState, k: nat)
    requires s.Ok() && k < s.Size()
    ensures s.Cleared(k)[s.Frame(k)] == s.useBits[s.Frame(k)]
    ensures s.Cleared(k + 1) == if s.inReplacer[s.Frame(k)] then s.Cleared(k)[s.Frame(k) := false] else s.Cleared(k)
    ensures var f, open := s.Frame(k), s.inReplacer[s.Frame(k)] && !s.useBits[s.Frame(k)];
            && s.HotPassed(k + 1) == s.HotPassed(k) + (if open && s.isHot[f] then 1 else 0)
            && (s.Stops(k) <==> open && (s.isHot[f] ==> s.HotPassed(k) + 1 >= COLD_EVICTION_PRIORITY))
  {
    StepsAt(s.hand, k, s.Size());
  }

  lemma ClearedTwiceStep(s: ClockState, k: nat)
    requires s.Ok() && k < s.Size()
    ensures s.ClearedTwice(k)[s.Frame(k)] == (s.useBits[s.Frame(k)] && !s.inReplacer[s.Frame(k)])
    ensures s.ClearedTwice(k + 1) == s.ClearedTwice(k)[s.Frame(k) := false]
  {
    StepsAt(s.hand, k, s.Size());
  }

  /** The clock order, stated on frames: no candidate the victim left behind had a better claim. */
  lemma VictimOrder(s: ClockState, k: nat)
    requires s.Ok() && s.HasVictim() && k < s.VictimPosition()
    requires s.inReplacer[s.Frame(k)]
    ensures s.FirstStop(0) < s.Size()
    ensures s.useBits[s.Frame(k)] || (s.isHot[s.Frame(k)] && s.HotPassed(k) + 1 < COLD_EVICTION_PRIORITY)
    ensures !s.AfterVictim().useBits[s.Frame(k)]
  {
    assert !s.Stops(k);
  }

  /** A referenced frame is evicted only when the first sweep found nothing to take. */
  lemma SecondChance(s: ClockState)
    requires s.Ok() && s.HasVictim()
    ensures s.useBits[s.VictimFrame()] ==> forall k: nat :: k < s.Size() ==> !s.Stops(k)
    ensures s.isHot[s.VictimFrame()] && !s.useBits[s.VictimFrame()] && s.FirstStop(0) < s.Size()
            ==> s.HotPassed(s.VictimPosition()) == COLD_EVICTION_PRIORITY - 1
  {
    if s.FirstStop(0) < s.Size() {
      HotPassedBelow(s, s.VictimPosition());
    }
  }

  lemma {:induction false} HotPassedBelow(s: ClockState, k: nat)
    requires s.Ok() && k <= s.FirstStop(0)
    ensures s.HotPassed(k) < COLD_EVICTION_PRIORITY
  {
    if k > 0 {
      HotPassedBelow(s, k - 1);
      assert !s.Stops(k - 1);
    }
  }

  /** How far after the hand a frame is met. */
  function Distance(s: ClockState, f: nat): (d: nat)
    requires s.Ok() && f < s.Size()
    ensures d < s.Size() && s.Frame(d) == f && d == Steps(s.hand, f, s.Size())
  {
    DistanceIsSteps(s.hand, f, s.Size());
    (f - s.hand) % s.Size()
  }

  /** The unreferenced hot candidates met in fewer than `k` steps. */
  ghost function HotWithin(s: ClockState, k: nat): set<nat>
    requires s.Ok()
  {
    set f: nat | f < s.Size() && s.inReplacer[f] && !s.useBits[f] && s.isHot[f] && Distance(s, f) < k
  }

  lemma HotStep(s: ClockState, k: nat)
    requires s.Ok() && k < s.Size()
    ensures var f := s.Frame(k);
            && f !in HotWithin(s, k)
            && HotWithin(s, k + 1) == HotWithin(s, k) + if s.Unreferenced(k) && s.isHot[f] then {f} else {}
  {
    hide Distance, At, Steps;
    var f := s.Frame(k);
    StepsAt(s.hand, k, s.Size());
    assert forall g: nat :: g < s.Size() && Distance(s, g) == k ==> g == f;
  }

  lemma {:induction false} HotCounted(s: ClockState, k: nat)
    requires s.Ok() && k <= s.Size()
    ensures s.HotPassed(k) == |HotWithin(s, k)|
  {
    if k == 0 {
      assert HotWithin(s, 0) == {};
    } else {
      HotCounted(s, k - 1);
      HotStep(s, k - 1);
      hide HotWithin;
    }
  }

  /** Unreferenced, and cold or behind four unreferenced hot candidates. */
  ghost predicate Preferred(s: ClockState, f: nat)
    requires s.Ok()
  {
    f < s.Size() && s.inReplacer[f] && !s.useBits[f] && (s.isHot[f] ==> |HotWithin(s, Distance(s, f))| >= 4)
  }

  lemma PreferredStops(s: ClockState, f: nat)
    requires s.Ok() && f < s.Size()
    ensures Preferred(s, f) <==> s.Stops(Distance(s, f))
  {
    HotCounted(s, Distance(s, f));
  }

  /** The victim is the nearest preferred frame, or the nearest candidate where no frame is preferred. */
  lemma ClockOrder(s: ClockState, f: nat)
    requires s.Ok() && f < s.Size()
    ensures s.inReplacer[f] ==> s.HasVictim()
    ensures s.HasVictim() ==>
              var v := s.VictimFrame();
              && s.inReplacer[v]
              && (Preferred(s, f) ==> Preferred(s, v) && Distance(s, v) <= Distance(s, f))
              && (s.inReplacer[f] ==> Preferred(s, v) || Distance(s, v) <= Distance(s, f))
  {
    PreferredStops(s, f);
    VictimExists(s);
    assert s.inReplacer[f] ==> f in s.Candidates();
    if s.HasVictim() {
      PreferredStops(s, s.VictimFrame());
      StepsAt(s.hand, s.VictimPosition(), s.Size());
    }
  }

  /** What a call leaves behind: the victim out, the hand past it, and the candidates met on the way unreferenced. */
  lemma ClockAfter(s: ClockState, f: nat)
    requires s.Ok() && f < s.Size()
    ensures !s.HasVictim() ==> s.AfterVictim() == s
    ensures s.HasVictim() ==>
              var v, t := s.VictimFrame(), s.AfterVictim();
              && (t.inReplacer[f] <==> s.inReplacer[f] && f != v)
              && t.isHot[f] == s.isHot[f]
              && t.hand == (v + 1) % s.Size()
              && (t.useBits[f] <==>
                  && s.useBits[f]
                  && if Preferred(s, v) then s.inReplacer[f] ==> Distance(s, f) >= Distance(s, v)
                     else !s.inReplacer[f] && Distance(s, f) >= Distance(s, v))
  {
    if s.HasVictim() {
      var v := s.VictimFrame();
      PreferredStops(s, v);
      StepsAt(s.hand, s.VictimPosition(), s.Size());
      NextOnRing(v, s.Size());
    }
  }

  /** The frames handed out by `n` calls of `Victim` in a row. */
  function Drain(s: ClockState, n: nat): (victims: seq<nat>)
    requires s.Ok()
    decreases n
  {
    if n == 0 || !s.HasVictim() then [] else [s.VictimFrame()] + Drain(s.AfterVictim(), n - 1)
  }

  /** As many calls as there are candidates hand out every candidate, each exactly once. */
  lemma {:induction false} DrainIsComplete(s: ClockState, n: nat)
    requires s.Ok() && n >= |s.Candidates()|
    ensures multiset(Drain(s, n)) == multiset(s.Candidates())
    decreases n
  {
    hide ClockState.HasVictim, ClockState.VictimFrame, ClockState.AfterVictim, ClockState.Candidates;
    VictimExists(s);
    if s.HasVictim() {
      var f := s.VictimFrame();
      assert s.Candidates() == s.AfterVictim().Candidates() + {f};
      DrainIsComplete(s.AfterVictim(), n - 1);
    }
  }

  class LayeredClock {
    const frameCount: nat
    var useBits: seq<bool>
    var inReplacer: seq<bool>
    var isHot: seq<bool>
    var clockHand: nat

    ghost function State(): ClockState
      reads this
    {
      ClockState(useBits, inReplacer, isHot, clockHand)
    }

    ghost predicate Valid()
      reads this
    {
      State().Ok() && |inReplacer| == frameCount
    }

    constructor (frameCount: nat)
      ensures Valid() && this.frameCount == frameCount
      ensures State().Candidates() == {}
      ensures clockHand == 0 && forall f :: 0 <= f < frameCount ==> isHot[f] && !useBits[f] && !inReplacer[f]
    {
      this.frameCount := frameCount;
      useBits := seq(frameCount, i => false);
      inReplacer := seq(frameCount, i => false);
      isHot := seq(frameCount, i => true);
      clockHand := 0;
    }

    method Size() returns (count: nat)
      requires Valid()
      ensures count == |State().Candidates()|
    {
      count := 0;
      ghost var seen: set<nat> := {};
      for i := 0 to frameCount
        invariant seen == set f: nat | f < i && inReplacer[f]
        invariant count == |seen|
      {
        if inReplacer[i] {
          count := count + 1;
          seen := seen + {i};
        }
      }
      assert seen == State().Candidates();
    }

    method StepHand()
      requires Valid() && frameCount > 0
      modifies this`clockHand
      ensures Valid() && clockHand == At(old(clockHand), 1, frameCount)
    {
      NextOnRing(clockHand, frameCount);
      clockHand := (clockHand + 1) % frameCount;
    }

    method EvictAtHand() returns (frame: nat)
      requires Valid() && frameCount > 0
      modifies this`inReplacer, this`clockHand
      ensures Valid() && frame == old(clockHand)
      ensures inReplacer == old(inReplacer)[frame := false]
      ensures clockHand == At(frame, 1, frameCount)
    {
      frame := clockHand;
      inReplacer := inReplacer[clockHand := false];
      StepHand();
    }

    /** One stop of the first sweep: evict the frame under the hand, or take its use bit and count it if hot. */
    method VisitCold(coldScanCount: nat, ghost s: ClockState, ghost k: nat) returns (evicted: bool, scanCount: nat)
      requires Valid() && s.Ok() && s.Size() == frameCount && k < frameCount
      requires State() == s.(useBits := s.Cleared(k), hand := s.Frame(k))
      requires coldScanCount == s.HotPassed(k)
      modifies this
      ensures Valid() && evicted == s.Stops(k)
      ensures evicted ==> State() == ClockState(s.Cleared(k), s.inReplacer[s.Frame(k) := false], s.isHot, At(s.Frame(k), 1, frameCount))
      ensures !evicted ==> State() == s.(useBits := s.Cleared(k + 1), hand := s.Frame(k)) && scanCount == s.HotPassed(k + 1)
    {
      ClearedStep(s, k);
      evicted, scanCount := false, coldScanCount;
      if inReplacer[clockHand] {
        if !useBits[clockHand] && !isHot[clockHand] {
          var _ := EvictAtHand();
          return true, scanCount;
        }
        if !useBits[clockHand] && isHot[clockHand] {
          scanCount := scanCount + 1;
          if scanCount >= COLD_EVICTION_PRIORITY {
            var _ := EvictAtHand();
            return true, scanCount;
          }
        }
        if useBits[clockHand] {
          useBits := useBits[clockHand := false];
        }
      }
    }

    /** The first sweep: cold frames first, counting the unreferenced hot ones on the way. */
    method SweepCold() returns (found: bool, frame: nat)
      requires Valid() && frameCount > 0
      modifies this
      ensures Valid()
      ensures found == (old(State()).FirstStop(0) < frameCount)
      ensures found ==> State() == old(State()).AfterVictim() && frame == old(State()).VictimFrame()
      ensures !found ==> State() == old(State()).(useBits := old(State()).Cleared(frameCount))
    {
      hide ClockState.FirstStop, ClockState.Stops, ClockState.HotPassed, ClockState.AfterVictim, ClockState.VictimPosition;
      ghost var s := State();
      SweepStart(s);
      var startHand := clockHand;
      var coldScanCount := 0;
      var entering := true;  // the sweep tests the hand after the step
      ghost var k := 0;
      frame := 0;
      while entering || clockHand != startHand
        invariant k <= frameCount && (entering <==> k == 0)
        invariant Valid() && State() == s.(useBits := s.Cleared(k), hand := s.Frame(k))
        invariant coldScanCount == s.HotPassed(k)
        invariant forall j: nat :: j < k ==> !s.Stops(j)
        decreases frameCount - k
      {
        frame := clockHand;
        found, coldScanCount := VisitCold(coldScanCount, s, k);
        if found {
          VictimAtStop(s, k);
          return;
        }
        StepHand();
        entering, k := false, k + 1;
      }
      FirstStopAt(s, k);
      found := false;
    }

    /** The second sweep: any unreferenced candidate. */
    method SweepAny(ghost s: ClockState) returns (found: bool, frame: nat)
      requires Valid() && s.Ok() && s.Size() == frameCount > 0 && s.FirstStop(0) == frameCount
      requires State() == s.(useBits := s.Cleared(frameCount))
      modifies this
      ensures Valid()
      ensures found == s.HasVictim()
      ensures found ==> State() == s.AfterVictim() && frame == s.VictimFrame()
      ensures !found ==> inReplacer == s.inReplacer && clockHand == s.hand
    {
      hide ClockState.FirstStop, ClockState.FirstCandidate, ClockState.AfterVictim;
      var startHand := clockHand;
      var entering := true;
      ghost var k := 0;
      frame := 0;
      assert useBits == s.ClearedTwice(0);
      while entering || clockHand != startHand
        invariant k <= frameCount && (entering <==> k == 0)
        invariant Valid() && State() == s.(useBits := s.ClearedTwice(k), hand := s.Frame(k))
        invariant forall j: nat :: j < k ==> !s.inReplacer[s.Frame(j)]
        decreases frameCount - k
      {
        ClearedTwiceStep(s, k);
        if inReplacer[clockHand] && !useBits[clockHand] {
          VictimAtCandidate(s, k);
          frame := EvictAtHand();
          return true, frame;
        }
        if useBits[clockHand] {
          useBits := useBits[clockHand := false];
        }
        StepHand();
        entering, k := false, k + 1;
      }
      found := false;
    }

    method Victim() returns (found: bool, frame: nat)
      requires Valid()
      modifies this
      ensures Valid()
      ensures found == old(State().HasVictim())
      ensures State() == old(State().AfterVictim())
      ensures found ==> frame == old(State().VictimFrame())
    {
      ghost var s := State();
      VictimExists(s);
      var count := Size();
      if count == 0 {
        return false, 0;
      }
      found, frame := SweepCold();
      if !found {
        found, frame := SweepAny(s);
      }
    }

    method Pin(frame: int)
      requires Valid()
      modifies this`inReplacer
      ensures Valid() && State() == old(State()).AfterPin(frame)
      ensures inReplacer == if 0 <= frame < frameCount then old(inReplacer)[frame := false] else old(inReplacer)
    {
      if 0 <= frame < frameCount {
        inReplacer := inReplacer[frame := false];
      }
    }

    method Unpin(frame: int, hot: bool)
      requires Valid()
      modifies this`useBits, this`inReplacer, this`isHot
      ensures Valid() && State() == old(State()).AfterUnpin(frame, hot)
      ensures if 0 <= frame < frameCount && !old(inReplacer)[frame]
              then
                && inReplacer == old(inReplacer)[frame := true]
                && useBits == old(useBits)[frame := true]
                && isHot == old(isHot)[frame := hot]
              else unchanged(this)
    {
      if 0 <= frame < frameCount {
        if !inReplacer[frame] {
          inReplacer := inReplacer[frame := true];
          useBits := useBits[frame := true];
          isHot := isHot[frame := hot];
        }
      }
    }
  }
}
