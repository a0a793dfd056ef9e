/** The two updates of the vote transaction and what they do to the table. */
module Ballot {
  import opened PhotoStore

  /** `UPDATE photos SET round = round + 1, wins = wins + 1 WHERE id = w` */
  function CreditWin(t: seq<Photo>, w: int): (t': seq<Photo>)
    ensures |t'| == |t|
  {
    seq(|t|, i requires 0 <= i < |t| =>
      if t[i].id == w then t[i].(round := t[i].round + 1, wins := t[i].wins + 1) else t[i])
  }

  /** `UPDATE photos SET status = 'eliminated' WHERE id = l` */
  function Eliminate(t: seq<Photo>, l: int): (t': seq<Photo>)
    ensures |t'| == |t|
  {
    seq(|t|, i requires 0 <= i < |t| => if t[i].id == l then t[i].(status := Eliminated) else t[i])
  }

  /** Both updates of the transaction, in the order the handler runs them. */
  function ApplyVote(t: seq<Photo>, w: int, l: int): (t': seq<Photo>)
    ensures |t'| == |t|
  {
    Eliminate(CreditWin(t, w), l)
  }

  /** Some active row carries id `id`. */
  predicate HasActiveId(t: seq<Photo>, id: int) {
    exists p :: p in t && p.id == id && IsActive(p)
  }

  /** Row by row: ids, names and every row the vote does not name stay as
      they were; the winner's round and wins go up by one; the loser ends
      up eliminated. */
  lemma VoteRowEffect(t: seq<Photo>, w: int, l: int, i: int)
    requires 0 <= i < |t|
    ensures ApplyVote(t, w, l)[i].id == t[i].id
    ensures ApplyVote(t, w, l)[i].filename == t[i].filename
    ensures ApplyVote(t, w, l)[i].originalName == t[i].originalName
    ensures ApplyVote(t, w, l)[i].round == t[i].round + (if t[i].id == w then 1 else 0)
    ensures ApplyVote(t, w, l)[i].wins == t[i].wins + (if t[i].id == w then 1 else 0)
    ensures ApplyVote(t, w, l)[i].status == if t[i].id == l then Eliminated else t[i].status
    ensures t[i].id != w && t[i].id != l ==> ApplyVote(t, w, l)[i] == t[i]
  {
  }

  /** Eliminating by id removes one active photo exactly when an active row
      has that id (ids are unique, so at most one row matches). */
  lemma {:induction false} EliminateActiveCount(t: seq<Photo>, l: int)
    requires IdsAscending(t)
    ensures ActiveCount(Eliminate(t, l)) == ActiveCount(t) - (if HasActiveId(t, l) then 1 else 0)
  {
    if t != [] {
      var t' := Eliminate(t, l);
      assert t'[1..] == Eliminate(t[1..], l);
      assert IdsAscending(t[1..]);
      EliminateActiveCount(t[1..], l);
      if t[0].id == l {
        assert Eliminate(t[1..], l) == t[1..];
        assert HasActiveId(t, l) <==> IsActive(t[0]);
      } else {
        assert HasActiveId(t, l) <==> HasActiveId(t[1..], l) by {
          if HasActiveId(t, l) {
            var p :| p in t && p.id == l && IsActive(p);
            assert p in t[1..];
          }
        }
      }
    }
  }

  /** Tables that agree row by row on ids and statuses have the same active ids. */
  lemma HasActiveIdOfSameRows(a: seq<Photo>, b: seq<Photo>, id: int)
    requires |a| == |b|
    requires forall i :: 0 <= i < |a| ==> a[i].id == b[i].id && a[i].status == b[i].status
    ensures HasActiveId(a, id) ==> HasActiveId(b, id)
  {
    if HasActiveId(a, id) {
      var p :| p in a && p.id == id && IsActive(p);
      var i :| 0 <= i < |a| && a[i] == p;
      assert b[i] in b;
    }
  }

  /** A vote whose loser id names an active photo lowers the active count by
      exactly one; otherwise the count stays. The winner's update never
      touches a status. */
  lemma VoteActiveCount(t: seq<Photo>, w: int, l: int)
    requires IdsAscending(t)
    ensures ActiveCount(ApplyVote(t, w, l)) == ActiveCount(t) - (if HasActiveId(t, l) then 1 else 0)
  {
    var c := CreditWin(t, w);
    assert forall i :: 0 <= i < |t| ==> c[i].id == t[i].id && c[i].status == t[i].status;
    ActiveCountOfSameStatuses(t, c);
    HasActiveIdOfSameRows(t, c, l);
    HasActiveIdOfSameRows(c, t, l);
    EliminateActiveCount(c, l);
  }

  /** The vote keeps the table invariant, whatever ids it is given. */
  lemma VoteKeepsWellFormed(t: seq<Photo>, nextId: int, w: int, l: int)
    requires WellFormed(t, nextId)
    ensures WellFormed(ApplyVote(t, w, l), nextId)
  {
    var t' := ApplyVote(t, w, l);
    forall i | 0 <= i < |t|
      ensures t'[i].id == t[i].id && 0 <= t'[i].wins < t'[i].round
    {
      VoteRowEffect(t, w, l, i);
    }
  }
}
