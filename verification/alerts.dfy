/** Score rewards and on-screen alerts: the reward table for cleared lines,
    first-candidate-wins selection, and per-frame ageing of the alert list. */
module Alerts {

  /** Frames an alert stays on screen. */
  const AlertLifetime: nat := 20

  datatype Option<T> = None | Some(value: T)

  /** A score bonus and the message announcing it. */
  datatype Reward = Reward(points: int, message: string)

  /** A displayed message and the frames it has left. */
  datatype Alert = Alert(message: string, lifetime: nat)

  /** The score and the alerts on screen, oldest first. */
  datatype ScoreState = ScoreState(score: int, alerts: seq<Alert>)

  // ---------------------------------------------------------------------------
  // Rewards
  // ---------------------------------------------------------------------------

  /** The reward for clearing `clearedLines` rows at once; counts outside 0..4
      are a caller error. */
  function AlertForFilledLines(clearedLines: int): (r: Option<Reward>)
    requires 0 <= clearedLines <= 4
    ensures r.None? <==> clearedLines == 0
    ensures r.Some? ==> r.value.points >= 100 * clearedLines
  {
    match clearedLines
    case 1 => Some(Reward(100, "Single!"))
    case 2 => Some(Reward(300, "Double!"))
    case 3 => Some(Reward(500, "Triple!"))
    case 4 => Some(Reward(800, "Tetris!"))
    case 0 => None
    case _ => assert false; None
  }

  /** Clearing more rows at once pays strictly more per row, and each count
      has its own message. */
  lemma RewardPerLineGrows(m: int, n: int)
    requires 1 <= m < n <= 4
    ensures AlertForFilledLines(m).value.points * n < AlertForFilledLines(n).value.points * m
    ensures AlertForFilledLines(m).value.message != AlertForFilledLines(n).value.message
  {
  }

  // ---------------------------------------------------------------------------
  // Pushing alerts and applying rewards
  // ---------------------------------------------------------------------------

  /** Every alert has between 1 and `AlertLifetime` frames left. */
  predicate LifetimesInRange(alerts: seq<Alert>) {
    forall i :: 0 <= i < |alerts| ==> 1 <= alerts[i].lifetime <= AlertLifetime
  }

  /** Every alert has at least one frame left. */
  predicate Positive(alerts: seq<Alert>) {
    forall i :: 0 <= i < |alerts| ==> alerts[i].lifetime >= 1
  }

  /** Appends a new alert with a full lifetime after the existing ones. */
  function Push(alerts: seq<Alert>, message: string): (r: seq<Alert>)
    ensures |r| == |alerts| + 1 && r[..|alerts|] == alerts
    ensures r[|alerts|] == Alert(message, AlertLifetime)
    ensures LifetimesInRange(alerts) ==> LifetimesInRange(r)
  {
    alerts + [Alert(message, AlertLifetime)]
  }

  /** Applies an optional reward: adds its points and pushes its message. */
  function HandleWithScore(st: ScoreState, candidate: Option<Reward>): (r: ScoreState)
    ensures candidate.None? ==> r == st
    ensures candidate.Some? ==>
      r.score == st.score + candidate.value.points && r.alerts == Push(st.alerts, candidate.value.message)
    ensures LifetimesInRange(st.alerts) ==> LifetimesInRange(r.alerts)
  {
    match candidate
    case Some(reward) => ScoreState(st.score + reward.points, Push(st.alerts, reward.message))
    case None => st
  }

  /** Applies the first present candidate and ignores the others. */
  function PriorisedAlertsWithScore(st: ScoreState, candidates: seq<Option<Reward>>): (r: ScoreState)
    ensures (forall i :: 0 <= i < |candidates| ==> candidates[i].None?) ==> r == st
    ensures |st.alerts| <= |r.alerts| <= |st.alerts| + 1 && r.alerts[..|st.alerts|] == st.alerts
    ensures LifetimesInRange(st.alerts) ==> LifetimesInRange(r.alerts)
  {
    if |candidates| == 0 then st
    else if candidates[0].Some? then HandleWithScore(st, candidates[0])
    else PriorisedAlertsWithScore(st, candidates[1..])
  }

  /** With `k` the first present candidate, exactly that one is applied. */
  lemma {:induction false} PriorisedPicksFirst(st: ScoreState, candidates: seq<Option<Reward>>, k: int)
    requires 0 <= k < |candidates| && candidates[k].Some?
    requires forall j :: 0 <= j < k ==> candidates[j].None?
    ensures PriorisedAlertsWithScore(st, candidates) == HandleWithScore(st, candidates[k])
  {
    if k > 0 {
      PriorisedPicksFirst(st, candidates[1..], k - 1);
    }
  }

  /** A lock that is both a special move and a four-row clear scores only the
      special move. */
  lemma SpecialMoveBeatsTetris(st: ScoreState, special: Reward)
    ensures PriorisedAlertsWithScore(st, [Some(special), AlertForFilledLines(4)])
            == ScoreState(st.score + special.points, Push(st.alerts, special.message))
  {
  }

  // ---------------------------------------------------------------------------
  // Ageing
  // ---------------------------------------------------------------------------

  /** `r` is `s` with some alerts dropped and the rest, in the same order,
      keeping their message and at most their lifetime. */
  predicate Embeds(r: seq<Alert>, s: seq<Alert>)
    decreases |s|
  {
    if |r| == 0 then true
    else if |s| == 0 then false
    else
      || (r[0].message == s[0].message && r[0].lifetime <= s[0].lifetime && Embeds(r[1..], s[1..]))
      || Embeds(r, s[1..])
  }

  /** The number of alerts with one frame left. */
  function ExpiringCount(s: seq<Alert>): (n: nat)
    ensures n <= |s|
  {
    if |s| == 0 then 0 else (if s[0].lifetime == 1 then 1 else 0) + ExpiringCount(s[1..])
  }

  /** One frame for one alert: gone when its last frame runs out, otherwise one frame younger. */
  function AgeOne(a: Alert): seq<Alert>
    requires a.lifetime >= 1
  {
    if a.lifetime == 1 then [] else [a.(lifetime := a.lifetime - 1)]
  }

  /** One frame for every alert, in order. */
  function AgeAll(s: seq<Alert>): (r: seq<Alert>)
    requires Positive(s)
    ensures |r| + ExpiringCount(s) == |s|
    ensures Positive(r)
    ensures LifetimesInRange(s) ==> LifetimesInRange(r)
  {
    if |s| == 0 then [] else AgeOne(s[0]) + AgeAll(s[1..])
  }

  /** What one frame does to the list as the loop is written: every alert ages
      by one frame, except that when the first alert expires, the alert that
      moves into the first slot is skipped for this frame. */
  function FrameAsWritten(s: seq<Alert>): (r: seq<Alert>)
    requires Positive(s)
    ensures |s| == 0 ==> r == []
    ensures |r| <= |s|
    ensures Positive(r)
    ensures LifetimesInRange(s) ==> LifetimesInRange(r)
    ensures Embeds(r, s)
    ensures |r| + ExpiringCount(s)
            == |s| + (if |s| >= 2 && s[0].lifetime == 1 && s[1].lifetime == 1 then 1 else 0)
  {
    if |s| == 0 then []
    else if s[0].lifetime == 1 then
      if |s| == 1 then []
      else
        SkipSecondFacts(s);
        [s[1]] + AgeAll(s[2..])
    else
      AgeAllEmbeds(s);
      AgeAll(s)
  }

  /** The frame's result when the first of two or more alerts expires: the
      second alert untouched, then the rest aged. */
  lemma SkipSecondFacts(s: seq<Alert>)
    requires Positive(s) && |s| >= 2 && s[0].lifetime == 1
    ensures var r := [s[1]] + AgeAll(s[2..]);
      && Embeds(r, s)
      && |r| + ExpiringCount(s) == |s| + (if s[1].lifetime == 1 then 1 else 0)
  {
    var r := [s[1]] + AgeAll(s[2..]);
    AgeAllEmbeds(s[2..]);
    assert s[1..][0] == s[1] && s[1..][1..] == s[2..];
    assert r[0] == s[1] && r[1..] == AgeAll(s[2..]);
    assert Embeds(r, s[1..]);
    assert ExpiringCount(s[1..]) == (if s[1].lifetime == 1 then 1 else 0) + ExpiringCount(s[2..]);
  }

  lemma {:induction false} EmbedsRefl(s: seq<Alert>)
    ensures Embeds(s, s)
    decreases |s|
  {
    if |s| > 0 {
      EmbedsRefl(s[1..]);
    }
  }

  lemma {:induction false} AgeAllEmbeds(s: seq<Alert>)
    requires Positive(s)
    ensures Embeds(AgeAll(s), s)
    decreases |s|
  {
    if |s| > 0 {
      AgeAllEmbeds(s[1..]);
      var r := AgeAll(s);
      if s[0].lifetime != 1 {
        assert r[1..] == AgeAll(s[1..]);
      } else {
        assert r == AgeAll(s[1..]);
      }
    }
  }

  /** An alert with more than one frame left appears, one frame younger, after ageing. */
  lemma {:induction false} AgeAllKeeps(s: seq<Alert>, i: int)
    requires Positive(s) && 0 <= i < |s| && s[i].lifetime > 1
    ensures s[i].(lifetime := s[i].lifetime - 1) in AgeAll(s)
    decreases i
  {
    assert AgeAll(s) == AgeOne(s[0]) + AgeAll(s[1..]);
    if i > 0 {
      AgeAllKeeps(s[1..], i - 1);
      assert s[1..][i - 1] == s[i];
    }
  }

  /** Every alert left after ageing is some alert with more than one frame left, one frame younger. */
  lemma {:induction false} AgeAllOnlyAged(s: seq<Alert>, a: Alert) returns (i: int)
    requires Positive(s) && a in AgeAll(s)
    ensures 0 <= i < |s| && s[i].lifetime > 1 && a == s[i].(lifetime := s[i].lifetime - 1)
    decreases |s|
  {
    assert AgeAll(s) == AgeOne(s[0]) + AgeAll(s[1..]);
    if a in AgeOne(s[0]) {
      i := 0;
    } else {
      var j := AgeAllOnlyAged(s[1..], a);
      assert s[1..][j] == s[j + 1];
      i := j + 1;
    }
  }

  /** Ageing keeps exactly the alerts with more than one frame left, each one
      frame younger: every such alert appears aged in the result, and every
      alert of the result is such an aged alert. */
  lemma AgeAllSurvivors(s: seq<Alert>)
    requires Positive(s)
    ensures forall i :: 0 <= i < |s| && s[i].lifetime > 1 ==>
      s[i].(lifetime := s[i].lifetime - 1) in AgeAll(s)
    ensures forall a :: a in AgeAll(s) ==>
      exists i :: 0 <= i < |s| && s[i].lifetime > 1 && a == s[i].(lifetime := s[i].lifetime - 1)
  {
    forall i | 0 <= i < |s| && s[i].lifetime > 1
      ensures s[i].(lifetime := s[i].lifetime - 1) in AgeAll(s)
    {
      AgeAllKeeps(s, i);
    }
    forall a | a in AgeAll(s)
      ensures exists i :: 0 <= i < |s| && s[i].lifetime > 1 && a == s[i].(lifetime := s[i].lifetime - 1)
    {
      var i := AgeAllOnlyAged(s, a);
    }
  }

  lemma {:induction false} AgeAllAppend(a: seq<Alert>, b: seq<Alert>)
    requires Positive(a) && Positive(b)
    ensures Positive(a + b)
    ensures AgeAll(a + b) == AgeAll(a) + AgeAll(b)
    decreases |a|
  {
    if |a| > 0 {
      assert (a + b)[0] == a[0] && (a + b)[1..] == a[1..] + b;
      AgeAllAppend(a[1..], b);
    } else {
      assert a + b == b;
    }
  }

  /** The part of the list the loop has finished with once it has consumed the
      first `k` input alerts. */
  ghost function Settled(s: seq<Alert>, k: int): seq<Alert>
    requires Positive(s) && 0 <= k <= |s|
  {
    if k == 0 then []
    else if s[0].lifetime == 1 then
      if k == 1 then [] else [s[1]] + AgeAll(s[2..k])
    else AgeAll(s[..k])
  }

  /** Ageing a list with one more alert at the end appends that alert's aged form. */
  lemma AgeAllSnoc(t: seq<Alert>, a: Alert)
    requires Positive(t) && a.lifetime >= 1
    ensures Positive(t + [a])
    ensures AgeAll(t + [a]) == AgeAll(t) + AgeOne(a)
  {
    AgeAllAppend(t, [a]);
    assert AgeAll([a]) == AgeOne(a) + AgeAll([]);
  }

  /** Consuming one more alert past the start settles its aged form. */
  lemma SettledStep(s: seq<Alert>, k: int)
    requires Positive(s) && 1 <= k < |s|
    requires s[0].lifetime == 1 ==> k >= 2
    ensures Settled(s, k + 1) == Settled(s, k) + AgeOne(s[k])
  {
    if s[0].lifetime == 1 {
      assert s[2..k + 1] == s[2..k] + [s[k]];
      AgeAllSnoc(s[2..k], s[k]);
    } else {
      assert s[..k + 1] == s[..k] + [s[k]];
      AgeAllSnoc(s[..k], s[k]);
    }
  }

  /** When the first alert expires, the loop has settled the second one untouched. */
  lemma FirstExpires(s: seq<Alert>)
    requires Positive(s) && |s| >= 1 && s[0].lifetime == 1
    ensures |s| == 1 ==> Settled(s, 1) == [] && s[1..] == []
    ensures |s| >= 2 ==> Settled(s, 2) == [s[1]] && s[1..] == Settled(s, 2) + s[2..]
  {
    if |s| >= 2 {
      assert s[2..2] == [];
    }
  }

  /** Replacing, then removing, the element just after `done`. */
  lemma Splice(done: seq<Alert>, x: Alert, y: Alert, rest: seq<Alert>)
    ensures (done + [x] + rest)[|done| := y] == done + [y] + rest
    ensures (done + [y] + rest)[..|done|] + (done + [y] + rest)[|done| + 1..] == done + rest
  {
  }

  /** What holds each time the frame loop tests its index: the alerts before
      the index are settled, the rest are the untouched input from `k` on. */
  ghost predicate FrameLoopInvariant(alerts: seq<Alert>, r: seq<Alert>, i: int, k: int) {
    && Positive(alerts)
    && 0 <= k <= |alerts|
    && r == Settled(alerts, k) + alerts[k..]
    && (k == 1 && alerts[0].lifetime == 1 ==> |alerts| == 1)
    && (i == |Settled(alerts, k)| || (i == |Settled(alerts, k)| + 1 && k == |alerts|))
    && (i == 0 <==> k == 0)
  }

  /** Where the frame loop stands when its index is inside the list: the
      alert under the index is the next unconsumed input alert. */
  lemma FrameLoopPosition(alerts: seq<Alert>, r: seq<Alert>, i: int, k: int)
    requires FrameLoopInvariant(alerts, r, i, k) && 0 <= i < |r|
    ensures k < |alerts| && i == |Settled(alerts, k)| && r[i] == alerts[k]
    ensures r == Settled(alerts, k) + [alerts[k]] + alerts[k + 1..]
  {
    assert alerts[k..] == [alerts[k]] + alerts[k + 1..];
  }

  /** One pass of the frame loop body keeps its invariant. */
  lemma FrameLoopStep(alerts: seq<Alert>, r: seq<Alert>, i: int, k: int) returns (k': int)
    requires FrameLoopInvariant(alerts, r, i, k) && 0 <= i < |r|
    ensures r[i].lifetime >= 1
    ensures var r1 := r[i := r[i].(lifetime := r[i].lifetime - 1)];
      if r1[i].lifetime == 0
      then FrameLoopInvariant(alerts, r1[..i] + r1[i + 1..], (if i == 0 then 0 else i - 1) + 1, k')
      else FrameLoopInvariant(alerts, r1, i + 1, k')
  {
    FrameLoopPosition(alerts, r, i, k);
    var r1 := r[i := r[i].(lifetime := r[i].lifetime - 1)];
    if r[i].lifetime == 1 {
      assert r1[..i] + r1[i + 1..] == r[..i] + r[i + 1..];
      k' := FrameRemoveStep(alerts, r, i, k);
    } else {
      k' := FrameKeepStep(alerts, r, i, k);
    }
  }

  /** The loop body when the alert under the index expires. */
  lemma FrameRemoveStep(alerts: seq<Alert>, r: seq<Alert>, i: int, k: int) returns (k': int)
    requires FrameLoopInvariant(alerts, r, i, k) && 0 <= i < |r| && r[i].lifetime == 1
    ensures FrameLoopInvariant(alerts, r[..i] + r[i + 1..], (if i == 0 then 0 else i - 1) + 1, k')
  {
    FrameLoopPosition(alerts, r, i, k);
    var done := Settled(alerts, k);
    assert r[..i] + r[i + 1..] == done + alerts[k + 1..];
    if i == 0 {
      k' := RemoveFirstStep(alerts);
    } else {
      RemoveLaterStep(alerts, k);
      k' := k + 1;
    }
  }

  /** The loop body when the alert under the index survives the frame. */
  lemma FrameKeepStep(alerts: seq<Alert>, r: seq<Alert>, i: int, k: int) returns (k': int)
    requires FrameLoopInvariant(alerts, r, i, k) && 0 <= i < |r| && r[i].lifetime > 1
    ensures FrameLoopInvariant(alerts, r[i := r[i].(lifetime := r[i].lifetime - 1)], i + 1, k')
  {
    FrameLoopPosition(alerts, r, i, k);
    var done := Settled(alerts, k);
    var a := alerts[k];
    var aged := a.(lifetime := a.lifetime - 1);
    Splice(done, a, aged, alerts[k + 1..]);
    assert r[i := r[i].(lifetime := r[i].lifetime - 1)] == done + [aged] + alerts[k + 1..];
    KeepStep(alerts, k);
    k' := k + 1;
  }

  lemma RemoveFirstStep(alerts: seq<Alert>) returns (k': int)
    requires Positive(alerts) && |alerts| >= 1 && alerts[0].lifetime == 1
    ensures FrameLoopInvariant(alerts, alerts[1..], 1, k')
  {
    FirstExpires(alerts);
    k' := if |alerts| >= 2 then 2 else 1;
  }

  /** Past the start, the settled part always holds at least one alert: the
      aged first alert, or the second alert when the first one expired. */
  lemma SettledNonEmpty(s: seq<Alert>, k: int)
    requires Positive(s) && 1 <= k <= |s|
    requires s[0].lifetime == 1 ==> k >= 2
    ensures |Settled(s, k)| >= 1
  {
    if s[0].lifetime != 1 {
      assert s[..k][0] == s[0];
      assert AgeAll(s[..k]) == AgeOne(s[0]) + AgeAll(s[..k][1..]);
    }
  }

  lemma RemoveLaterStep(alerts: seq<Alert>, k: int)
    requires Positive(alerts) && 1 <= k < |alerts| && alerts[k].lifetime == 1
    requires k == 1 && alerts[0].lifetime == 1 ==> |alerts| == 1
    ensures FrameLoopInvariant(alerts, Settled(alerts, k) + alerts[k + 1..], |Settled(alerts, k)|, k + 1)
  {
    SettledStep(alerts, k);
    assert Settled(alerts, k + 1) == Settled(alerts, k);
    SettledNonEmpty(alerts, k);
  }

  lemma KeepStep(alerts: seq<Alert>, k: int)
    requires Positive(alerts) && 0 <= k < |alerts| && alerts[k].lifetime > 1
    requires k == 1 && alerts[0].lifetime == 1 ==> |alerts| == 1
    ensures var aged := alerts[k].(lifetime := alerts[k].lifetime - 1);
      FrameLoopInvariant(alerts, Settled(alerts, k) + [aged] + alerts[k + 1..],
                         |Settled(alerts, k)| + 1, k + 1)
  {
    var a := alerts[k];
    if k > 0 {
      SettledStep(alerts, k);
    } else {
      assert alerts[..1] == [] + [a];
      AgeAllSnoc([], a);
    }
  }

  /** One display frame: each alert loses a frame and is removed when none is
      left. The index steps back after a removal, but never below 0, so when
      the first alert is removed the next one is not aged this frame. */
  method Frame(alerts: seq<Alert>) returns (r: seq<Alert>)
    requires Positive(alerts)
    ensures r == FrameAsWritten(alerts)
  {
    r := alerts;
    if |r| > 0 {
      var i := 0;
      ghost var k := 0;
      while i < |r|
        invariant FrameLoopInvariant(alerts, r, i, k)
        decreases |r| + 1 - i
      {
        k := FrameLoopStep(alerts, r, i, k);
        r := r[i := r[i].(lifetime := r[i].lifetime - 1)];
        if r[i].lifetime == 0 {
          r := r[..i] + r[i + 1..];
          i := if i == 0 then 0 else i - 1;
        }
        i := i + 1;
      }
      FrameLoopDone(alerts, r, i, k);
    }
  }

  /** When the frame loop's index has run off the end, the list is the frame's result as written. */
  lemma FrameLoopDone(alerts: seq<Alert>, r: seq<Alert>, i: int, k: int)
    requires FrameLoopInvariant(alerts, r, i, k) && i >= |r| && |alerts| > 0
    ensures r == FrameAsWritten(alerts)
  {
    assert k == |alerts|;
    assert alerts[..|alerts|] == alerts;
  }

  // ---------------------------------------------------------------------------
  // The skipped alert, and the frame as evidently intended
  // ---------------------------------------------------------------------------

  /** The loop as written agrees with ageing every alert by one frame exactly
      when it is not the case that the first of two or more alerts expires. */
  lemma FrameAsWrittenVersusAgeAll(s: seq<Alert>)
    requires Positive(s)
    ensures FrameAsWritten(s) == AgeAll(s) <==> !(|s| >= 2 && s[0].lifetime == 1)
  {
    if |s| >= 2 && s[0].lifetime == 1 {
      var rest := AgeAll(s[2..]);
      assert FrameAsWritten(s) == [s[1]] + rest;
      assert s[1..][0] == s[1] && s[1..][1..] == s[2..];
      assert AgeAll(s) == AgeOne(s[1]) + rest;
      if s[1].lifetime == 1 {
        assert |AgeAll(s)| < |FrameAsWritten(s)|;
      } else {
        assert AgeAll(s)[0].lifetime < FrameAsWritten(s)[0].lifetime;
      }
    } else if |s| == 1 {
      assert AgeAll(s) == AgeOne(s[0]) + AgeAll(s[1..]);
    }
  }

  /** The loop as written leaves alert `i` untouched for this frame: it is the
      second alert and the first one expired. */
  predicate Skipped(s: seq<Alert>, i: int) {
    i == 1 && |s| >= 2 && s[0].lifetime == 1
  }

  /** Which alerts one frame as written keeps: every alert with more than one
      frame left, one frame younger, except a skipped alert, which is kept
      unchanged; and nothing else. */
  lemma FrameAsWrittenSurvivors(s: seq<Alert>)
    requires Positive(s)
    ensures forall i :: 0 <= i < |s| && s[i].lifetime > 1 && !Skipped(s, i) ==>
      s[i].(lifetime := s[i].lifetime - 1) in FrameAsWritten(s)
    ensures Skipped(s, 1) ==> s[1] in FrameAsWritten(s)
    ensures forall a :: a in FrameAsWritten(s) ==>
      || (Skipped(s, 1) && a == s[1])
      || exists i :: 0 <= i < |s| && !Skipped(s, i) && s[i].lifetime > 1 && a == s[i].(lifetime := s[i].lifetime - 1)
  {
    var r := FrameAsWritten(s);
    if Skipped(s, 1) {
      var rest := s[2..];
      AgeAllSurvivors(rest);
      assert r == [s[1]] + AgeAll(rest);
      forall i | 0 <= i < |s| && s[i].lifetime > 1 && !Skipped(s, i)
        ensures s[i].(lifetime := s[i].lifetime - 1) in r
      {
        assert rest[i - 2] == s[i];
      }
      forall a | a in r && a != s[1]
        ensures exists i :: 0 <= i < |s| && !Skipped(s, i) && s[i].lifetime > 1 && a == s[i].(lifetime := s[i].lifetime - 1)
      {
        assert a in AgeAll(rest);
        var j :| 0 <= j < |rest| && rest[j].lifetime > 1 && a == rest[j].(lifetime := rest[j].lifetime - 1);
        assert s[j + 2] == rest[j] && !Skipped(s, j + 2);
      }
    } else {
      FrameAsWrittenVersusAgeAll(s);
      AgeAllSurvivors(s);
    }
  }

  /** Two alerts on their last frame: the loop removes the first and leaves the
      second on screen for one more frame. */
  lemma FrameSkipsNextAlert()
    ensures FrameAsWritten([Alert("Single!", 1), Alert("Double!", 1)]) == [Alert("Double!", 1)]
    ensures AgeAll([Alert("Single!", 1), Alert("Double!", 1)]) == []
  {
    var s := [Alert("Single!", 1), Alert("Double!", 1)];
    assert s[2..] == [];
    assert s[1..][1..] == [];
  }

  lemma AgeAllPrefixStep(s: seq<Alert>, k: int)
    requires Positive(s) && 0 <= k < |s|
    ensures AgeAll(s[..k + 1]) == AgeAll(s[..k]) + AgeOne(s[k])
  {
    assert s[..k + 1] == s[..k] + [s[k]];
    AgeAllSnoc(s[..k], s[k]);
  }

  /** What holds each time the corrected loop tests its index. */
  ghost predicate IntendedLoopInvariant(alerts: seq<Alert>, r: seq<Alert>, i: int, k: int) {
    && Positive(alerts)
    && 0 <= k <= |alerts|
    && r == AgeAll(alerts[..k]) + alerts[k..]
    && i == |AgeAll(alerts[..k])|
  }

  /** Where the corrected loop stands when its index is inside the list. */
  lemma IntendedLoopPosition(alerts: seq<Alert>, r: seq<Alert>, i: int, k: int)
    requires IntendedLoopInvariant(alerts, r, i, k) && 0 <= i < |r|
    ensures k < |alerts| && r[i] == alerts[k]
    ensures r == AgeAll(alerts[..k]) + [alerts[k]] + alerts[k + 1..]
  {
    assert alerts[k..] == [alerts[k]] + alerts[k + 1..];
  }

  /** One pass of the corrected loop body keeps its invariant. */
  lemma IntendedLoopStep(alerts: seq<Alert>, r: seq<Alert>, i: int, k: int)
    requires IntendedLoopInvariant(alerts, r, i, k) && 0 <= i < |r|
    ensures r[i].lifetime >= 1
    ensures var r1 := r[i := r[i].(lifetime := r[i].lifetime - 1)];
      if r1[i].lifetime == 0
      then IntendedLoopInvariant(alerts, r1[..i] + r1[i + 1..], i, k + 1)
      else IntendedLoopInvariant(alerts, r1, i + 1, k + 1)
  {
    IntendedLoopPosition(alerts, r, i, k);
    var r1 := r[i := r[i].(lifetime := r[i].lifetime - 1)];
    if r[i].lifetime == 1 {
      assert r1[..i] + r1[i + 1..] == r[..i] + r[i + 1..];
      IntendedRemoveStep(alerts, r, i, k);
    } else {
      IntendedKeepStep(alerts, r, i, k);
    }
  }

  /** The corrected loop body when the alert under the index expires. */
  lemma IntendedRemoveStep(alerts: seq<Alert>, r: seq<Alert>, i: int, k: int)
    requires IntendedLoopInvariant(alerts, r, i, k) && 0 <= i < |r| && r[i].lifetime == 1
    ensures IntendedLoopInvariant(alerts, r[..i] + r[i + 1..], i, k + 1)
  {
    IntendedLoopPosition(alerts, r, i, k);
    assert r[..i] + r[i + 1..] == AgeAll(alerts[..k]) + alerts[k + 1..];
    AgeAllPrefixStep(alerts, k);
  }

  /** The corrected loop body when the alert under the index survives the frame. */
  lemma IntendedKeepStep(alerts: seq<Alert>, r: seq<Alert>, i: int, k: int)
    requires IntendedLoopInvariant(alerts, r, i, k) && 0 <= i < |r| && r[i].lifetime > 1
    ensures IntendedLoopInvariant(alerts, r[i := r[i].(lifetime := r[i].lifetime - 1)], i + 1, k + 1)
  {
    IntendedLoopPosition(alerts, r, i, k);
    var a := alerts[k];
    var aged := a.(lifetime := a.lifetime - 1);
    Splice(AgeAll(alerts[..k]), a, aged, alerts[k + 1..]);
    AgeAllPrefixStep(alerts, k);
    assert AgeAll(alerts[..k + 1]) == AgeAll(alerts[..k]) + [aged];
  }

  /** When the corrected loop's index has run off the end, every alert is aged. */
  lemma IntendedLoopDone(alerts: seq<Alert>, r: seq<Alert>, i: int, k: int)
    requires IntendedLoopInvariant(alerts, r, i, k) && i >= |r|
    ensures r == AgeAll(alerts)
  {
    assert k == |alerts|;
    assert alerts[..k] == alerts;
  }

  /** The frame loop with the index left in place after a removal: every alert
      ages by exactly one frame and exactly the expiring ones are removed. */
  method FrameIntended(alerts: seq<Alert>) returns (r: seq<Alert>)
    requires Positive(alerts)
    ensures r == AgeAll(alerts)
  {
    r := alerts;
    var i := 0;
    ghost var k := 0;
    while i < |r|
      invariant IntendedLoopInvariant(alerts, r, i, k)
      decreases |r| - i
    {
      IntendedLoopStep(alerts, r, i, k);
      r := r[i := r[i].(lifetime := r[i].lifetime - 1)];
      if r[i].lifetime == 0 {
        r := r[..i] + r[i + 1..];
      } else {
        i := i + 1;
      }
      k := k + 1;
    }
    IntendedLoopDone(alerts, r, i, k);
  }
}
