/** One run of `findMatch` and the retry loop of the duel endpoint, as
    relations between the table before and after, with the lemmas the
    handlers use to meet them. */
module Matching {
  import opened PhotoStore
  import opened Bracket

  /** What one run of `findMatch` yields, and so what the duel endpoint
      answers: a pair, the winner (possibly none), the marker that a lone
      photo was promoted, or nothing (answered with 404). */
  datatype Match = Duel(left: Photo, right: Photo) | Winner(winner: Option<Photo>) | Promoted | NoMatch

  /** Two distinct active photos, both from the lowest active round of `t`. */
  predicate IsLowestPair(left: Photo, right: Photo, t: seq<Photo>) {
    && ActiveCount(t) >= 2
    && left in t && right in t
    && left.id != right.id
    && IsActive(left) && IsActive(right)
    && left.round == right.round == MinActiveRound(t)
  }

  /** `after` is `before` with some rounds raised and nothing else changed. */
  predicate OnlyRoundsRaised(before: seq<Photo>, after: seq<Photo>) {
    && |after| == |before|
    && forall i :: 0 <= i < |before| ==>
         after[i] == before[i].(round := after[i].round) && before[i].round <= after[i].round
  }

  /** Row `i` holds the only active photo of the lowest active round of `t`:
      every other active photo waits in a higher round. */
  predicate IsLoneLowest(t: seq<Photo>, i: int) {
    && 0 <= i < |t| && IsActive(t[i])
    && forall j :: 0 <= j < |t| && j != i && IsActive(t[j]) ==> t[i].round < t[j].round
  }

  /** Row `i` holds an active photo of the lowest active round of `t`. */
  predicate IsAtLowest(t: seq<Photo>, i: int) {
    && 0 <= i < |t| && IsActive(t[i])
    && forall j :: 0 <= j < |t| && IsActive(t[j]) ==> t[i].round <= t[j].round
  }

  /** Every row where `after` differs from `before` held the lone photo of
      the lowest active round of `before`, and is still in the lowest active
      round of `after`: the lone photo moved up, no further than the next
      occupied round, and nothing else moved. */
  predicate MovesLoneLowest(before: seq<Photo>, after: seq<Photo>) {
    && |after| == |before|
    && forall i :: 0 <= i < |before| && after[i] != before[i] ==> IsLoneLowest(before, i) && IsAtLowest(after, i)
  }

  /** What one run of `findMatch` does, from table `before` to table `after`. */
  predicate MatchStep(before: seq<Photo>, after: seq<Photo>, m: Match) {
    if ActiveCount(before) <= 1 then
      m == Winner(FirstActive(before)) && after == before
    else
      var low := MinActiveRound(before);
      if CountInRound(before, low) >= 2 then
        m.Duel? && after == before && IsLowestPair(m.left, m.right, after)
      else
        m == Promoted && CountInRound(before, low) == 1 && after == PromoteRound(before, low)
  }

  /** What the duel endpoint answers, from table `before` to table `after`. */
  predicate DuelAnswer(before: seq<Photo>, after: seq<Photo>, m: Match) {
    && (m.Duel? || m.Winner?)
    && (ActiveCount(before) <= 1 ==> m == Winner(FirstActive(before)) && after == before)
    && (ActiveCount(before) >= 2 ==> m.Duel? && IsLowestPair(m.left, m.right, after))
    && ActiveCount(after) == ActiveCount(before)
    && OnlyRoundsRaised(before, after)
    && MovesLoneLowest(before, after)
  }

  /** The state of the retry loop: a promotion so far, or a final answer. */
  predicate Progress(start: seq<Photo>, now: seq<Photo>, m: Match) {
    if m.Promoted? then
      && ActiveCount(start) >= 2 && ActiveCount(now) == ActiveCount(start)
      && OnlyRoundsRaised(start, now) && MovesLoneLowest(start, now)
    else
      DuelAnswer(start, now, m)
  }

  /** A promotion step of `findMatch` keeps the active count, only raises a
      round, and lowers the slack below `top`. */
  lemma PromotedStepProgress(before: seq<Photo>, low: int, top: int)
    requires ActiveCount(before) >= 2 && AllAtMost(before, top)
    requires low == MinActiveRound(before) && CountInRound(before, low) == 1
    ensures AllAtMost(PromoteRound(before, low), top)
    ensures ActiveCount(PromoteRound(before, low)) == ActiveCount(before)
    ensures OnlyRoundsRaised(before, PromoteRound(before, low))
    ensures Slack(PromoteRound(before, low), top) < Slack(before, top)
  {
    LonePromotionProgress(before, top);
    PromoteKeepsActiveCount(before, low);
    PromoteRaisesRounds(before, low);
  }

  /** One run of `findMatch` either answers (never with nothing) or
      promotes; a promotion keeps the active count, only raises a round,
      and lowers the slack below `top`. */
  lemma MatchStepProgress(before: seq<Photo>, after: seq<Photo>, m: Match, top: int)
    requires MatchStep(before, after, m) && AllAtMost(before, top)
    ensures AllAtMost(after, top)
    ensures !m.NoMatch?
    ensures ActiveCount(after) == ActiveCount(before)
    ensures OnlyRoundsRaised(before, after)
    ensures m.Promoted? ==> ActiveCount(before) >= 2 && Slack(after, top) < Slack(before, top)
    ensures m.Promoted? ==> MovesLoneLowest(before, after)
    ensures !m.Promoted? ==> DuelAnswer(before, after, m)
  {
    if m.Promoted? {
      PromotedStepProgress(before, MinActiveRound(before), top);
      var k := PromoteLoneStep(before, MinActiveRound(before));
    } else {
      assert after == before;
    }
  }

  lemma OnlyRoundsRaisedTrans(a: seq<Photo>, b: seq<Photo>, c: seq<Photo>)
    requires OnlyRoundsRaised(a, b)
    requires OnlyRoundsRaised(b, c)
    ensures OnlyRoundsRaised(a, c)
  {
  }

  /** One more run of the retry loop: after a promotion, the next
      `findMatch` step either answers or promotes again with less slack. */
  lemma RetryStep(start: seq<Photo>, before: seq<Photo>, after: seq<Photo>, m: Match, top: int)
    requires Progress(start, before, Promoted) && AllAtMost(before, top)
    requires MatchStep(before, after, m)
    ensures AllAtMost(after, top)
    ensures Progress(start, after, m)
    ensures m.Promoted? ==> Slack(after, top) < Slack(before, top)
    ensures !m.Promoted? ==> Slack(after, top) == Slack(before, top)
  {
    MatchStepProgress(before, after, m, top);
    OnlyRoundsRaisedTrans(start, before, after);
    if m.Promoted? {
      LoneMovesCompose(start, before, MinActiveRound(before));
    } else {
      assert after == before;
    }
  }

  /** Promoting the lone photo of the lowest active round changes that row
      alone, and leaves it in the lowest active round of the new table. */
  lemma PromoteLoneStep(t: seq<Photo>, low: int) returns (k: int)
    requires ActiveCount(t) >= 1
    requires low == MinActiveRound(t) && CountInRound(t, low) == 1
    ensures IsLoneLowest(t, k) && InRound(t[k], low)
    ensures PromoteRound(t, low)[k] == t[k].(round := low + 1)
    ensures forall j :: 0 <= j < |t| && j != k ==> PromoteRound(t, low)[j] == t[j]
    ensures IsAtLowest(PromoteRound(t, low), k)
    ensures MovesLoneLowest(t, PromoteRound(t, low))
  {
    k := LoneIndex(t, low);
    var u := PromoteRound(t, low);
    forall j | 0 <= j < |t| && j != k && IsActive(t[j])
      ensures low < t[j].round
    {
      assert t[j] in t;
    }
    assert u[k] == t[k].(round := low + 1);
  }

  /** The retry loop's step: if the table so far differs from `start` only
      at the lone lowest photo of `start`, promoting the lone photo of the
      current lowest round keeps it so. */
  lemma LoneMovesCompose(start: seq<Photo>, now: seq<Photo>, low: int)
    requires MovesLoneLowest(start, now)
    requires ActiveCount(now) >= 1
    requires low == MinActiveRound(now) && CountInRound(now, low) == 1
    ensures MovesLoneLowest(start, PromoteRound(now, low))
  {
    var k := PromoteLoneStep(now, low);
    var next := PromoteRound(now, low);
    forall j | 0 <= j < |now| && j != k
      ensures now[j] == start[j]
    {
    }
    assert IsLoneLowest(start, k) by {
      if now[k] == start[k] {
        assert forall j :: 0 <= j < |now| ==> now[j] == start[j];
      }
    }
  }

  /** At most one row moves while the retry loop runs. */
  lemma AtMostOneMoved(before: seq<Photo>, after: seq<Photo>)
    requires MovesLoneLowest(before, after)
    ensures forall i, j :: 0 <= i < j < |before| ==> before[i] == after[i] || before[j] == after[j]
  {
    forall i, j | 0 <= i < j < |before| && before[i] != after[i]
      ensures before[j] == after[j]
    {
    }
  }

  /** A group the scan reaches after passing only empty groups is the first
      one, the lowest active round, listed with its true population. */
  lemma ScanStopsAtLowest(t: seq<Photo>, k: int)
    requires ActiveCount(t) >= 1
    requires 0 <= k < |RoundGroups(t)|
    requires forall x :: 0 <= x < k ==> RoundGroups(t)[x].count == 0
    ensures k == 0
    ensures RoundGroups(t)[k] == Group(MinActiveRound(t), CountInRound(t, MinActiveRound(t)))
  {
    FirstGroupIsLowest(t);
  }

  /** Promoting a lowest active round that holds one photo is the answer of
      `findMatch`, and keeps the table invariant. */
  lemma PromoteStep(t: seq<Photo>, nextId: int, r: int)
    requires WellFormed(t, nextId) && ActiveCount(t) >= 2
    requires r == MinActiveRound(t) && CountInRound(t, r) == 1
    ensures WellFormed(PromoteRound(t, r), nextId)
    ensures MatchStep(t, PromoteRound(t, r), Promoted)
  {
    PromoteKeepsWellFormed(t, nextId, r);
  }

  /** A round holding two or more active photos has two distinct rows in it. */
  lemma TwoInRound(t: seq<Photo>, r: int) returns (i: int, j: int)
    requires CountInRound(t, r) >= 2
    ensures 0 <= i < |t| && 0 <= j < |t| && i != j && InRound(t[i], r) && InRound(t[j], r)
  {
    var p :| p in t && InRound(p, r);
    i :| 0 <= i < |t| && t[i] == p;
    if forall j :: 0 <= j < |t| && j != i ==> !InRound(t[j], r) {
      CountAtMostOne(t, r, i);
    }
    j :| 0 <= j < |t| && j != i && InRound(t[j], r);
  }

  lemma {:induction false} CountAtMostOne(t: seq<Photo>, r: int, i: int)
    requires 0 <= i < |t|
    requires forall j :: 0 <= j < |t| && j != i ==> !InRound(t[j], r)
    ensures CountInRound(t, r) <= 1
  {
    if i == 0 {
      assert forall p :: p in t[1..] ==> !InRound(p, r) by {
        forall p | p in t[1..] ensures !InRound(p, r) {
          var j :| 0 <= j < |t[1..]| && t[1..][j] == p;
          assert t[j + 1] == p;
        }
      }
    } else {
      assert forall j :: 0 <= j < |t[1..]| && j != i - 1 ==> t[1..][j] == t[j + 1];
      CountAtMostOne(t[1..], r, i - 1);
    }
  }

  /** Promotion keeps the table invariant. */
  lemma PromoteKeepsWellFormed(t: seq<Photo>, nextId: int, r: int)
    requires WellFormed(t, nextId)
    ensures WellFormed(PromoteRound(t, r), nextId)
  {
  }

  /** Promotion changes nothing but rounds, and those only upwards. */
  lemma PromoteRaisesRounds(t: seq<Photo>, r: int)
    ensures OnlyRoundsRaised(t, PromoteRound(t, r))
  {
  }
}
