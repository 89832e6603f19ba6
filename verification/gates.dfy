/** The two temporal gates between the per-frame classifier and the activity
    tracker: a majority-vote smoother over a sliding window of raw labels,
    and a hold gate that commits a label only after it has been stable for a
    minimum time. Both are generic in the label type. */
module Gates {
  import opened Base

  /** Number of votes for `x` in a window: its occurrences as `Some(x)`. */
  function Count<T(==)>(h: seq<Option<T>>, x: T): (n: nat)
    ensures n <= |h|
  {
    if |h| == 0 then 0
    else (if h[0] == Some(x) then 1 else 0) + Count(h[1..], x)
  }

  /** A label has no votes exactly when it does not occur in the window. */
  lemma {:induction false} CountZeroIffAbsent<T>(h: seq<Option<T>>, x: T)
    ensures Count(h, x) == 0 <==> Some(x) !in h
  {
    if |h| > 0 {
      CountZeroIffAbsent(h[1..], x);
      assert Some(x) in h <==> h[0] == Some(x) || Some(x) in h[1..];
    }
  }

  /** Two different labels share the window: their votes add up to at most
      its length. */
  lemma {:induction false} CountTwoLabels<T>(h: seq<Option<T>>, x: T, y: T)
    requires x != y
    ensures Count(h, x) + Count(h, y) <= |h|
  {
    if |h| > 0 {
      CountTwoLabels(h[1..], x, y);
    }
  }

  /** A label with a vote occurs somewhere in the window. */
  lemma {:induction false} CountedLabelOccurs<T>(h: seq<Option<T>>, x: T) returns (j: nat)
    requires Count(h, x) > 0
    ensures j < |h| && h[j] == Some(x)
  {
    if h[0] == Some(x) {
      j := 0;
    } else {
      var j' := CountedLabelOccurs(h[1..], x);
      j := j' + 1;
    }
  }

  /** True when the window holds at least one non-none label. */
  predicate HasVotes<T>(h: seq<Option<T>>) {
    exists i :: 0 <= i < |h| && h[i].Some?
  }

  /** The votes of the label at position `j` of the window. */
  function Votes<T(==)>(h: seq<Option<T>>, j: nat): nat
    requires j < |h| && h[j].Some?
  {
    Count(h, h[j].value)
  }

  /** No position before `i` holds a label. */
  predicate NoVotesBefore<T>(h: seq<Option<T>>, i: nat)
    requires i <= |h|
  {
    forall j :: 0 <= j < i ==> h[j].None?
  }

  /** Among positions before `i`, `b` holds a label with the most votes, and
      it is the first position holding a label with that many. */
  predicate BestBefore<T(==)>(h: seq<Option<T>>, i: nat, b: nat)
    requires i <= |h|
  {
    && b < i && h[b].Some?
    && (forall j :: 0 <= j < i && h[j].Some? ==> Votes(h, j) <= Votes(h, b))
    && (forall j :: 0 <= j < b && h[j].Some? ==> Votes(h, j) < Votes(h, b))
  }

  /** The position of the most common label as `Counter.most_common(1)` picks
      it: scanning `h[i..]`, given that `best` is the winner of `h[..i]`; a
      later position replaces the best only with a strictly larger count, so
      ties go to the label seen first. */
  function ScanBest<T(==)>(h: seq<Option<T>>, i: nat, best: Option<nat>): (r: Option<nat>)
    requires i <= |h|
    requires best.None? ==> NoVotesBefore(h, i)
    requires best.Some? ==> BestBefore(h, i, best.value)
    ensures r.None? ==> NoVotesBefore(h, |h|)
    ensures r.Some? ==> BestBefore(h, |h|, r.value)
    decreases |h| - i
  {
    if i == |h| then best
    else if h[i].None? then
      ScanBest(h, i + 1, best)
    else if best.None? || Votes(h, i) > Votes(h, best.value) then
      assert BestBefore(h, i + 1, i);
      ScanBest(h, i + 1, Some(i))
    else
      ScanBest(h, i + 1, best)
  }

  /** The winning position of the vote, none when the window has no votes. */
  function MostCommonAt<T(==)>(h: seq<Option<T>>): (r: Option<nat>)
    ensures r.None? <==> !HasVotes(h)
    ensures r.Some? ==> r.value < |h| && h[r.value].Some?
    ensures r.Some? ==> forall j :: 0 <= j < |h| && h[j].Some? ==>
              Count(h, h[j].value) <= Count(h, h[r.value].value)
    ensures r.Some? ==> forall j :: 0 <= j < r.value && h[j].Some? ==>
              Count(h, h[j].value) < Count(h, h[r.value].value)
  {
    var r := ScanBest(h, 0, None);
    assert r.Some? ==> BestBefore(h, |h|, r.value);
    r
  }

  /** The last `n` entries of `s`, or all of them when there are fewer. */
  function LastN<T>(s: seq<T>, n: nat): (r: seq<T>)
    ensures |r| == if |s| <= n then |s| else n
  {
    if |s| <= n then s else s[|s| - n..]
  }

  /** The entries `LastN` keeps are the newest ones, in order. */
  lemma LastNElements<T>(s: seq<T>, n: nat)
    ensures forall k :: 0 <= k < |LastN(s, n)| ==> LastN(s, n)[k] == s[|s| - |LastN(s, n)| + k]
  {
  }

  const DefaultWindow: nat := 7
  const DefaultMinCount: nat := 5

  /** The smoother: a window of at most `window` recent raw labels, oldest
      first, and the number of votes a label needs to be emitted. */
  datatype Smoother<T(==)> = Smoother(window: nat, minCount: nat, history: seq<Option<T>>) {

    predicate Valid() {
      |history| <= window
    }

    /** Append one raw label, evicting the oldest when the window is full. */
    function Push(g: Option<T>): (r: Smoother<T>)
      requires Valid()
      ensures r.Valid() && r.window == window && r.minCount == minCount
      ensures r.history == LastN(history + [g], window)
      ensures window > 0 ==>
                && |r.history| > 0
                && r.history[|r.history| - 1] == g
                && r.history[..|r.history| - 1] == LastN(history, window - 1)
      ensures window == 0 ==> r.history == []
    {
      var h := LastN(history + [g], window);
      assert window > 0 ==> h[..|h| - 1] == LastN(history, window - 1);
      this.(history := h)
    }

    /** One frame: push the raw label, then vote over the new window. */
    function Update(g: Option<T>): (r: Step<Smoother<T>, Option<T>>)
      requires Valid()
      ensures r.next == Push(g)
      ensures r.output == Vote(r.next.history, minCount)
    {
      var next := Push(g);
      Step(Vote(next.history, minCount), next)
    }
  }

  /** The smoother's decision for one window: the most common label when it
      has at least `minCount` votes, else none. */
  function Vote<T(==)>(h: seq<Option<T>>, minCount: nat): (r: Option<T>)
    ensures !HasVotes(h) ==> r.None?
    ensures |h| < minCount ==> r.None?
    ensures r.Some? ==>
              && Count(h, r.value) >= minCount
              && forall j :: 0 <= j < |h| && h[j].Some? ==> Count(h, h[j].value) <= Count(h, r.value)
    ensures r.Some? <==> exists j :: 0 <= j < |h| && h[j].Some? && Count(h, h[j].value) >= minCount
  {
    match MostCommonAt(h)
    case None => None
    case Some(b) =>
      var winner := h[b].value;
      if Count(h, winner) >= minCount then Some(winner) else None
  }

  function NewSmoother<T(==)>(window: nat, minCount: nat): (s: Smoother<T>)
    ensures s.Valid() && s.history == []
    ensures s.window == window && s.minCount == minCount
  {
    Smoother(window, minCount, [])
  }

  /** The position of the first occurrence of `Some(x)` in the window. */
  function FirstPos<T(==)>(h: seq<Option<T>>, x: T): (p: nat)
    requires Some(x) in h
    ensures p < |h| && h[p] == Some(x)
    ensures forall j :: 0 <= j < p ==> h[j] != Some(x)
  {
    if h[0] == Some(x) then 0
    else
      assert Some(x) in h[1..];
      var p := 1 + FirstPos(h[1..], x);
      assert forall j :: 1 <= j < p ==> h[j] == h[1..][j - 1];
      p
  }

  /** Ties are broken towards the label that first appears earliest in the
      window, as `Counter.most_common(1)` does: another label with as many
      votes as the winner first appears later than the winner. */
  lemma VoteTieBreak<T>(h: seq<Option<T>>, minCount: nat, y: T)
    requires Vote(h, minCount).Some? && Some(y) in h
    requires y != Vote(h, minCount).value
    requires Count(h, y) == Count(h, Vote(h, minCount).value)
    ensures FirstPos(h, Vote(h, minCount).value) < FirstPos(h, y)
  {
    var b := MostCommonAt(h).value;
    var w := h[b].value;
    assert Vote(h, minCount) == Some(w);
    var pw := FirstPos(h, w);
    var py := FirstPos(h, y);
    assert Count(h, h[pw].value) == Count(h, w);
    assert pw >= b;
    assert Count(h, h[py].value) == Count(h, w);
    assert py >= b && py != b;
  }

  /** When more than half of the window is needed to win, at most one label
      can reach the threshold, so the emitted label is exactly the one that
      does and the tie-break never matters. */
  lemma StrictMajorityWinner<T>(h: seq<Option<T>>, minCount: nat, x: T)
    requires 2 * minCount > |h|
    ensures Vote(h, minCount) == Some(x) <==> Count(h, x) >= minCount
  {
    var r := Vote(h, minCount);
    if Count(h, x) >= minCount {
      var j := CountedLabelOccurs(h, x);
      assert Count(h, h[j].value) >= minCount;
      assert r.Some?;
      if r.value != x {
        CountTwoLabels(h, x, r.value);
      }
    }
  }

  /** The window after pushing `g` into `h` `k` times. */
  function PushRepeated<T>(h: seq<Option<T>>, g: Option<T>, k: nat, w: nat): (r: seq<Option<T>>)
    ensures |h| <= w ==> |r| <= w
    decreases k
  {
    if k == 0 then h else LastN(PushRepeated(h, g, k - 1, w) + [g], w)
  }

  /** Each push adds at most one entry to the window. */
  lemma {:induction false} PushRepeatedGrowth<T>(h: seq<Option<T>>, g: Option<T>, k: nat, w: nat)
    ensures |PushRepeated(h, g, k, w)| <= |h| + k
    decreases k
  {
    if k > 0 {
      PushRepeatedGrowth(h, g, k - 1, w);
    }
  }

  /** The smoother after being fed the same raw label `k` times. */
  function FeedRepeated<T(==)>(s: Smoother<T>, g: Option<T>, k: nat): (r: Smoother<T>)
    requires s.Valid()
    ensures r.Valid()
  {
    s.(history := PushRepeated(s.history, g, k, s.window))
  }

  /** Feeding `k + 1` times is feeding `k` times and then one update. */
  lemma FeedRepeatedStep<T>(s: Smoother<T>, g: Option<T>, k: nat)
    requires s.Valid()
    ensures FeedRepeated(s, g, k + 1) == FeedRepeated(s, g, k).Update(g).next
  {
  }

  /** Whether the newest `m` entries of `h` all equal `g`. */
  ghost predicate EndsWith<T>(h: seq<T>, g: T, m: nat) {
    m <= |h| && forall i :: |h| - m <= i < |h| ==> h[i] == g
  }

  /** Appending `g` lengthens a run of `g` at the end by one, and keeping the
      newest `w` entries keeps as much of the run as fits. */
  lemma PushKeepsRun<T>(h: seq<T>, g: T, m: nat, w: nat)
    requires EndsWith(h, g, m)
    ensures EndsWith(LastN(h + [g], w), g, if m + 1 <= w then m + 1 else w)
  {
    assert EndsWith(h + [g], g, m + 1);
    LastNElements(h + [g], w);
  }

  /** After `k` pushes of `g`, the newest `min(k, w)` entries are all `g`. */
  lemma {:induction false} PushRepeatedSuffix<T>(h: seq<Option<T>>, g: Option<T>, k: nat, w: nat)
    ensures EndsWith(PushRepeated(h, g, k, w), g, if k <= w then k else w)
    decreases k
  {
    if k > 0 {
      PushRepeatedSuffix(h, g, k - 1, w);
      PushKeepsRun(PushRepeated(h, g, k - 1, w), g, if k - 1 <= w then k - 1 else w, w);
    }
  }

  /** A window whose newest `m` entries are all `Some(x)` gives `x` at least
      `m` votes. */
  lemma {:induction false} CountSuffix<T>(h: seq<Option<T>>, x: T, m: nat)
    requires EndsWith(h, Some(x), m)
    ensures Count(h, x) >= m
  {
    if |h| > 0 {
      if |h| > m {
        assert EndsWith(h[1..], Some(x), m);
        CountSuffix(h[1..], x, m);
      } else if m > 0 {
        assert EndsWith(h[1..], Some(x), m - 1);
        CountSuffix(h[1..], x, m - 1);
      }
    }
  }

  /** Feeding the same label `minCount` times or more, into a window of at
      least `minCount` entries whose majority threshold is strict, makes the
      smoother emit that label on every such call from then on. */
  lemma RepeatedLabelWins<T>(s: Smoother<T>, x: T, k: nat)
    requires s.Valid() && 2 * s.minCount > s.window
    requires s.minCount <= k && s.minCount <= s.window
    ensures FeedRepeated(s, Some(x), k - 1).Update(Some(x)).output == Some(x)
  {
    FeedRepeatedStep(s, Some(x), k - 1);
    var h := PushRepeated(s.history, Some(x), k, s.window);
    PushRepeatedSuffix(s.history, Some(x), k, s.window);
    CountSuffix(h, x, if k <= s.window then k else s.window);
    StrictMajorityWinner(h, s.minCount, x);
  }

  /** With the default window of 7 and threshold of 5, a label fed steadily
      into a new smoother is emitted from its fifth frame on, and not before. */
  lemma DefaultSmootherLatency<T>(x: T, k: nat)
    requires k >= 1
    ensures FeedRepeated(NewSmoother<T>(DefaultWindow, DefaultMinCount), Some(x), k - 1).Update(Some(x)).output
            == if k >= DefaultMinCount then Some(x) else None
  {
    var s := NewSmoother<T>(DefaultWindow, DefaultMinCount);
    if k >= DefaultMinCount {
      RepeatedLabelWins(s, x, k);
    } else {
      FeedRepeatedStep(s, Some(x), k - 1);
      PushRepeatedGrowth(s.history, Some(x), k, s.window);
    }
  }

  const DefaultMinHold: real := 1.5

  /** The hold gate: the label currently being watched and the time it was
      first seen. */
  datatype HoldGate<T(==)> = HoldGate(minHold: real, candidate: Option<T>, since: real) {

    /** Watch `g` at time `now`; emit it once it has been the input for at
        least `minHold` seconds without interruption. */
    function Update(g: Option<T>, now: real): (r: Step<HoldGate<T>, Option<T>>)
      ensures r.next.minHold == minHold && r.next.candidate == g
      ensures g != candidate ==> r.next.since == now
      ensures g == candidate ==> r.next.since == since
      ensures r.output.None? || r.output == g
      ensures r.output.Some? <==> g.Some? && now - r.next.since >= minHold
    {
      var next := if g != candidate then this.(candidate := g, since := now) else this;
      if next.candidate.None? then Step(None, next)
      else if now - next.since >= minHold then Step(next.candidate, next)
      else Step(None, next)
    }
  }

  function NewHoldGate<T(==)>(minHold: real): (g: HoldGate<T>)
    ensures g.minHold == minHold && g.candidate.None? && g.since == 0.0
  {
    HoldGate(minHold, None, 0.0)
  }

  /** Feed the same label at each of the times `ts`, in order. */
  function HoldRun<T(==)>(gate: HoldGate<T>, g: Option<T>, ts: seq<real>): HoldGate<T>
    decreases |ts|
  {
    if |ts| == 0 then gate else HoldRun(gate.Update(g, ts[0]).next, g, ts[1..])
  }

  /** Re-feeding the watched label never moves the timer. */
  lemma {:induction false} HoldRunSameLabel<T>(gate: HoldGate<T>, ts: seq<real>)
    ensures HoldRun(gate, gate.candidate, ts) == gate
    decreases |ts|
  {
    if |ts| > 0 {
      HoldRunSameLabel(gate.Update(gate.candidate, ts[0]).next, ts[1..]);
    }
  }

  /** A label that starts being fed at `t0` and is fed without interruption
      at any later frames is emitted at time `t` exactly when at least
      `minHold` seconds have passed since `t0`. */
  lemma HoldCommitsAfterMinHold<T>(gate: HoldGate<T>, g: Option<T>, t0: real, ts: seq<real>, t: real)
    requires g.Some? && g != gate.candidate
    ensures HoldRun(gate.Update(g, t0).next, g, ts).Update(g, t).output
              == (if t - t0 >= gate.minHold then g else None)
  {
    var started := gate.Update(g, t0).next;
    HoldRunSameLabel(started, ts);
  }

  /** The two scenarios of the program's unit tests, with the default
      1.5 s hold. */
  lemma HoldGateScenarios<T>(a: T, b: T)
    requires a != b
    ensures var g0 := NewHoldGate<T>(DefaultMinHold);
            var s1 := g0.Update(Some(a), 0.0);
            var s2 := s1.next.Update(Some(a), 1.49);
            var s3 := s2.next.Update(Some(a), 1.5);
            s1.output.None? && s2.output.None? && s3.output == Some(a)
    ensures var g0 := NewHoldGate<T>(DefaultMinHold);
            var s1 := g0.Update(Some(a), 0.0);
            var s2 := s1.next.Update(Some(b), 0.8);
            var s3 := s2.next.Update(Some(b), 2.2);
            var s4 := s3.next.Update(Some(b), 2.31);
            s1.output.None? && s2.output.None? && s3.output.None? && s4.output == Some(b)
  {
  }
}
