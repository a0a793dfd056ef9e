/** A client of the handlers: the duel → vote conversation the web page
    holds, repeated until the duel endpoint names a winner. */
module Tournament {
  import opened PhotoStore
  import opened Ballot
  import opened Server
  import opened Matching

  /** The vote the page posts for a pair: the voter's pick wins, the other
      photo loses. */
  function Ballots(left: Photo, right: Photo, leftWins: bool): (b: (Option<int>, Option<int>))
    ensures b.0.Some? && b.1.Some?
    ensures {b.0.value, b.1.value} == {left.id, right.id}
    ensures b.0.value == (if leftWins then left.id else right.id)
  {
    if leftWins then (Some(left.id), Some(right.id)) else (Some(right.id), Some(left.id))
  }

  /** Plays the tournament out: asks for duels and votes on each, letting
      `leftWins` pick the winner of every pair, until the duel endpoint
      answers with a winner. Every vote eliminates one active photo, so the
      loop ends; a table that started with an active photo ends with exactly
      one, the champion. */
  method PlayOut(table: PhotoTable, leftWins: (Photo, Photo) -> bool) returns (champion: Option<Photo>)
    requires table.Valid()
    modifies table
    ensures table.Valid()
    ensures ActiveCount(table.photos) <= 1
    ensures champion == FirstActive(table.photos)
    ensures old(ActiveCount(table.photos)) >= 1 ==> ActiveCount(table.photos) == 1 && champion.Some?
  {
    ghost var started := ActiveCount(table.photos);
    while true
      invariant table.Valid()
      invariant started >= 1 ==> ActiveCount(table.photos) >= 1
      invariant started == 0 ==> ActiveCount(table.photos) == 0
      decreases ActiveCount(table.photos)
    {
      var m := table.GetDuel();
      if m.Winner? {
        return m.winner;
      }
      var (w, l) := Ballots(m.left, m.right, leftWins(m.left, m.right));
      LoserIsActive(table.photos, m.left, m.right, table.nextId);
      ghost var before := table.photos;
      var reply := table.Vote(w, l);
      VoteActiveCount(before, w.value, l.value);
    }
  }

  /** Both photos of a duel are active rows of the table with nonzero ids. */
  lemma LoserIsActive(t: seq<Photo>, left: Photo, right: Photo, nextId: int)
    requires WellFormed(t, nextId) && IsLowestPair(left, right, t)
    ensures HasActiveId(t, left.id) && HasActiveId(t, right.id)
    ensures left.id != 0 && right.id != 0
  {
    var i :| 0 <= i < |t| && t[i] == left;
    var j :| 0 <= j < |t| && t[j] == right;
  }
}
