/** The bracket rule of the duel endpoint: the per-round summary of active
    photos, the promotion of a lone photo, and the measure that shows the
    promotion retry loop terminates. */
module Bracket {
  import opened PhotoStore

  /** One row of `SELECT round, COUNT(*) ... GROUP BY round`. */
  datatype Group = Group(round: int, count: nat)

  predicate Ascending(g: seq<Group>) {
    forall i, j :: 0 <= i < j < |g| ==> g[i].round < g[j].round
  }

  /** GROUP BY only reports rounds that hold at least one row. */
  predicate Occupied(g: seq<Group>) {
    forall i :: 0 <= i < |g| ==> g[i].count >= 1
  }

  /** The count a summary lists for round `r`, 0 when it lists none. */
  function GroupCount(g: seq<Group>, r: int): nat {
    if g == [] then 0
    else if g[0].round == r then g[0].count
    else GroupCount(g[1..], r)
  }

  /** Counts one more photo in round `r`, keeping the summary in round order. */
  function AddToGroups(g: seq<Group>, r: int): (g': seq<Group>)
    ensures 1 <= |g'| <= |g| + 1
    ensures g'[0].round == if g == [] || r < g[0].round then r else g[0].round
  {
    if g == [] then [Group(r, 1)]
    else if g[0].round == r then [Group(r, g[0].count + 1)] + g[1..]
    else if r < g[0].round then [Group(r, 1)] + g
    else [g[0]] + AddToGroups(g[1..], r)
  }

  /** `SELECT round, COUNT(*) FROM photos WHERE status = 'active'
      GROUP BY round ORDER BY round ASC` */
  function RoundGroups(t: seq<Photo>): (gs: seq<Group>)
    ensures |gs| <= ActiveCount(t)
  {
    if t == [] then []
    else if IsActive(t[0]) then AddToGroups(RoundGroups(t[1..]), t[0].round)
    else RoundGroups(t[1..])
  }

  lemma {:induction false} GroupCountAbsent(g: seq<Group>, r: int)
    requires forall i :: 0 <= i < |g| ==> g[i].round != r
    ensures GroupCount(g, r) == 0
  {
    if g != [] {
      GroupCountAbsent(g[1..], r);
    }
  }

  lemma {:induction false} GroupCountListed(g: seq<Group>, r: int)
    requires GroupCount(g, r) > 0
    ensures exists i :: 0 <= i < |g| && g[i].round == r
  {
    if g[0].round != r {
      GroupCountListed(g[1..], r);
      var i :| 0 <= i < |g[1..]| && g[1..][i].round == r;
      assert g[i + 1].round == r;
    }
  }

  lemma {:induction false} AddToGroupsCounts(g: seq<Group>, r: int)
    requires Ascending(g) && Occupied(g)
    ensures Ascending(AddToGroups(g, r)) && Occupied(AddToGroups(g, r))
    ensures forall x :: GroupCount(AddToGroups(g, r), x) == GroupCount(g, x) + (if x == r then 1 else 0)
  {
    var g' := AddToGroups(g, r);
    if g == [] {
    } else if g[0].round == r {
      assert g'[1..] == g[1..];
    } else if r < g[0].round {
      assert g'[1..] == g;
      GroupCountAbsent(g, r);
    } else {
      AddToGroupsCounts(g[1..], r);
      assert g'[1..] == AddToGroups(g[1..], r);
    }
  }

  /** The summary lists, in strictly ascending round order, every round that
      holds an active photo, with the number of active photos in it. */
  lemma {:induction false} RoundGroupsTabulate(t: seq<Photo>)
    ensures Ascending(RoundGroups(t)) && Occupied(RoundGroups(t))
    ensures forall r :: GroupCount(RoundGroups(t), r) == CountInRound(t, r)
  {
    if t != [] {
      RoundGroupsTabulate(t[1..]);
      if IsActive(t[0]) {
        AddToGroupsCounts(RoundGroups(t[1..]), t[0].round);
      }
    }
  }

  /** With an active photo, the first group the loop looks at is the lowest
      active round, with its true population. */
  lemma FirstGroupIsLowest(t: seq<Photo>)
    requires ActiveCount(t) >= 1
    ensures |RoundGroups(t)| >= 1
    ensures RoundGroups(t)[0] == Group(MinActiveRound(t), CountInRound(t, MinActiveRound(t)))
  {
    var g, m := RoundGroups(t), MinActiveRound(t);
    RoundGroupsTabulate(t);
    assert GroupCount(g, m) >= 1;
    GroupCountListed(g, m);
    assert g[0].round <= m;
    assert GroupCount(g, g[0].round) == g[0].count;
    assert CountInRound(t, g[0].round) >= 1;
  }

  /** `UPDATE photos SET round = round + 1 WHERE round = r AND status = 'active'` */
  function PromoteRound(t: seq<Photo>, r: int): (t': seq<Photo>)
    ensures |t'| == |t|
  {
    seq(|t|, i requires 0 <= i < |t| => if InRound(t[i], r) then t[i].(round := r + 1) else t[i])
  }

  lemma {:induction false} CountOneIsUnique(t: seq<Photo>, r: int, i: int, j: int)
    requires CountInRound(t, r) == 1
    requires 0 <= i < |t| && 0 <= j < |t| && InRound(t[i], r) && InRound(t[j], r)
    ensures i == j
  {
    if i != 0 && j != 0 {
      assert t[1..][i - 1] == t[i] && t[1..][j - 1] == t[j];
      CountOneIsUnique(t[1..], r, i - 1, j - 1);
    }
  }

  /** The position of the only active photo of a round that holds one. */
  lemma LoneIndex(t: seq<Photo>, r: int) returns (i: int)
    requires CountInRound(t, r) == 1
    ensures 0 <= i < |t| && InRound(t[i], r)
    ensures forall j :: 0 <= j < |t| && j != i ==> !InRound(t[j], r)
  {
    var p :| p in t && InRound(p, r);
    i :| 0 <= i < |t| && t[i] == p;
    forall j | 0 <= j < |t| && j != i
      ensures !InRound(t[j], r)
    {
      if InRound(t[j], r) {
        CountOneIsUnique(t, r, i, j);
      }
    }
  }

  /** Promoting a round that holds exactly one active photo changes exactly
      that row, and only its round, by one. */
  lemma PromoteLoneRow(t: seq<Photo>, r: int)
    requires CountInRound(t, r) == 1
    ensures exists i :: 0 <= i < |t| && InRound(t[i], r)
                        && PromoteRound(t, r)[i] == t[i].(round := t[i].round + 1)
                        && (forall j :: 0 <= j < |t| && j != i ==> PromoteRound(t, r)[j] == t[j])
  {
    var i := LoneIndex(t, r);
    assert PromoteRound(t, r)[i] == t[i].(round := t[i].round + 1);
  }

  /** Promotion moves rounds only: statuses, hence the active count, stay. */
  lemma PromoteKeepsActiveCount(t: seq<Photo>, r: int)
    ensures ActiveCount(PromoteRound(t, r)) == ActiveCount(t)
  {
    ActiveCountOfSameStatuses(t, PromoteRound(t, r));
  }

  /** Every active photo waits in a round no higher than `top`. */
  predicate AllAtMost(t: seq<Photo>, top: int) {
    forall i :: 0 <= i < |t| && IsActive(t[i]) ==> t[i].round <= top
  }

  /** The highest round of any row (0 for an empty table). */
  function RoundCeiling(t: seq<Photo>): (top: int)
    ensures AllAtMost(t, top)
    ensures forall i :: 0 <= i < |t| ==> t[i].round <= top
    ensures t != [] ==> exists i :: 0 <= i < |t| && t[i].round == top
  {
    if t == [] then 0
    else if |t| == 1 then t[0].round
    else
      var rest := RoundCeiling(t[1..]);
      assert forall i :: 1 <= i < |t| ==> t[i] == t[1..][i - 1];
      if t[0].round < rest then rest else t[0].round
  }

  /** How far the active photos together still are from round `top`:
      the sum of `top - round` over active photos. */
  function Slack(t: seq<Photo>, top: int): (s: nat)
    requires AllAtMost(t, top)
  {
    if t == [] then 0
    else
      assert AllAtMost(t[1..], top) by {
        assert forall i :: 0 <= i < |t[1..]| ==> t[1..][i] == t[i + 1];
      }
      (if IsActive(t[0]) then top - t[0].round else 0) + Slack(t[1..], top)
  }

  /** Promoting round `r < top` closes one step of slack per photo promoted. */
  lemma {:induction false} PromoteSlack(t: seq<Photo>, r: int, top: int)
    requires AllAtMost(t, top) && r < top
    ensures AllAtMost(PromoteRound(t, r), top)
    ensures Slack(PromoteRound(t, r), top) == Slack(t, top) - CountInRound(t, r)
  {
    var t' := PromoteRound(t, r);
    if t != [] {
      assert t'[1..] == PromoteRound(t[1..], r);
      assert AllAtMost(t[1..], top) by {
        assert forall i :: 0 <= i < |t[1..]| ==> t[1..][i] == t[i + 1];
      }
      PromoteSlack(t[1..], r, top);
    }
  }

  /** The step the retry loop relies on: with two or more active photos and
      a lone photo in the lowest round, that photo is promoted to a round
      that still does not exceed `top`, and the slack drops by one. */
  lemma LonePromotionProgress(t: seq<Photo>, top: int)
    requires ActiveCount(t) >= 2 && AllAtMost(t, top)
    requires CountInRound(t, MinActiveRound(t)) == 1
    ensures AllAtMost(PromoteRound(t, MinActiveRound(t)), top)
    ensures Slack(PromoteRound(t, MinActiveRound(t)), top) == Slack(t, top) - 1
  {
    var m := MinActiveRound(t);
    OtherRoundExists(t, m);
    var p :| p in t && IsActive(p) && p.round != m;
    assert m < top;
    PromoteSlack(t, m, top);
  }
}
