/** The leaderboard query: `SELECT * FROM photos ORDER BY wins DESC LIMIT 5`. */
module Ranking {
  import opened PhotoStore

  const BoardSize: nat := 5

  predicate WinsNonIncreasing(s: seq<Photo>) {
    forall i, j :: 0 <= i < j < |s| ==> s[i].wins >= s[j].wins
  }

  /** Places `p` in front of the first row with no more wins than it. */
  function InsertByWins(p: Photo, s: seq<Photo>): (r: seq<Photo>)
    requires WinsNonIncreasing(s)
    ensures WinsNonIncreasing(r)
    ensures |r| == |s| + 1 && (r[0] == p || (s != [] && r[0] == s[0]))
  {
    if s == [] || p.wins >= s[0].wins then [p] + s
    else
      var rest := InsertByWins(p, s[1..]);
      assert forall j :: 0 <= j < |rest| ==> rest[j].wins <= rest[0].wins <= s[0].wins;
      [s[0]] + rest
  }

  lemma {:induction false} InsertByWinsPermutes(p: Photo, s: seq<Photo>)
    requires WinsNonIncreasing(s)
    ensures multiset(InsertByWins(p, s)) == multiset(s) + multiset{p}
  {
    if s != [] && p.wins < s[0].wins {
      InsertByWinsPermutes(p, s[1..]);
      assert s == [s[0]] + s[1..];
    }
  }

  /** `ORDER BY wins DESC`: a rearrangement of the rows with wins
      non-increasing. Rows with equal wins keep table order. */
  function SortByWins(t: seq<Photo>): (s: seq<Photo>)
    ensures WinsNonIncreasing(s)
    ensures multiset(s) == multiset(t)
  {
    if t == [] then []
    else
      var rest := SortByWins(t[1..]);
      InsertByWinsPermutes(t[0], rest);
      assert t == [t[0]] + t[1..];
      InsertByWins(t[0], rest)
  }

  /** A prefix of a sorted sequence is sorted and drawn from it. */
  lemma SortedPrefix(s: seq<Photo>, k: int)
    requires WinsNonIncreasing(s) && 0 <= k <= |s|
    ensures WinsNonIncreasing(s[..k])
    ensures multiset(s[..k]) + multiset(s[k..]) == multiset(s)
  {
    assert s == s[..k] + s[k..];
  }

  /** In a sorted sequence, no row after the cut has more wins than a row before it. */
  lemma SortedSplit(s: seq<Photo>, k: int)
    requires WinsNonIncreasing(s) && 0 <= k <= |s|
    ensures forall p, q :: p in s[k..] && q in s[..k] ==> p.wins <= q.wins
  {
    forall p, q | p in s[k..] && q in s[..k]
      ensures p.wins <= q.wins
    {
      var a :| k <= a < |s| && s[a] == p;
      var b :| 0 <= b < k && s[b] == q;
    }
  }

  /** The leaderboard: at most five rows, ordered by wins, all from the table. */
  function Leaderboard(t: seq<Photo>): (top: seq<Photo>)
    ensures |top| == if |t| < BoardSize then |t| else BoardSize
    ensures WinsNonIncreasing(top)
    ensures multiset(top) <= multiset(t)
  {
    var s := SortByWins(t);
    var k := if |t| < BoardSize then |t| else BoardSize;
    SortedPrefix(s, k);
    s[..k]
  }

  /** No row left off the leaderboard has more wins than any row on it. */
  lemma LeaderboardKeepsBest(t: seq<Photo>)
    ensures forall p, q :: p in multiset(t) - multiset(Leaderboard(t)) && q in Leaderboard(t) ==> p.wins <= q.wins
  {
    var s := SortByWins(t);
    var k := if |t| < BoardSize then |t| else BoardSize;
    SortedPrefix(s, k);
    assert Leaderboard(t) == s[..k];
    assert multiset(t) - multiset(s[..k]) == multiset(s[k..]);
    SortedSplit(s, k);
  }
}
