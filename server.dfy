/** The request handlers of the backend over one shared photos table. */
module Server {
  import opened PhotoStore
  import opened Bracket
  import opened Ballot
  import opened Matching

  /** Reply of the upload endpoint. */
  datatype UploadReply = Uploaded(count: nat) | NoFiles

  /** Reply of the vote endpoint. */
  datatype VoteReply = Voted | MissingIds

  /** A JavaScript request field is truthy: present, not null and not 0. */
  predicate Given(id: Option<int>) { id.Some? && id.value != 0 }

  class PhotoTable {
    /** The rows of the `photos` table, in id order. */
    var photos: seq<Photo>
    /** The id AUTOINCREMENT hands out next; deleting rows never lowers it. */
    var nextId: int

    ghost predicate Valid()
      reads this
    {
      WellFormed(photos, nextId)
    }

    /** A freshly created database: the table exists and is empty. */
    constructor ()
      ensures Valid() && photos == [] && nextId == 1
    {
      photos := [];
      nextId := 1;
    }

    /** `POST /api/photos`: rejects a missing or empty batch; otherwise
        inserts one row per file, in one transaction. */
    method UploadPhotos(files: Option<seq<UploadedFile>>) returns (reply: UploadReply)
      requires Valid()
      modifies this
      ensures Valid()
      ensures files.None? || files.value == [] ==>
                reply == NoFiles && photos == old(photos) && nextId == old(nextId)
      ensures files.Some? && files.value != [] ==>
                && reply == Uploaded(|files.value|)
                && photos == old(photos) + NewRows(files.value, old(nextId))
                && nextId == old(nextId) + |files.value|
                && ActiveCount(photos) == old(ActiveCount(photos)) + |files.value|
    {
      if files.None? || |files.value| == 0 {
        return NoFiles;
      }
      var batch := files.value;
      UploadKeepsWellFormed(photos, nextId, batch);
      photos := InsertMany(photos, batch, nextId);
      nextId := nextId + |batch|;
      reply := Uploaded(|batch|);
    }

    /** `findMatch`: with at most one active photo, report it (or none) as
        the winner. Otherwise scan the per-round summary in ascending round
        order up to the first round with a photo in it: two or more photos
        there yield a random pair from it; a single photo is promoted. */
    method FindMatch() returns (m: Match)
      requires Valid()
      modifies this
      ensures Valid() && nextId == old(nextId)
      ensures MatchStep(old(photos), photos, m)
    {
      var t := photos;
      var activeCount := ActiveCount(t);
      if activeCount <= 1 {
        return Winner(FirstActive(t));
      }
      var rounds := RoundGroups(t);
      var k := 0;
      while k < |rounds| && rounds[k].count == 0
        invariant 0 <= k <= |rounds|
        invariant forall j :: 0 <= j < k ==> rounds[j].count == 0
      {
        k := k + 1;
      }
      if k == |rounds| {
        FirstGroupIsLowest(t);
        assert false;
        return NoMatch;
      }
      ScanStopsAtLowest(t, k);
      var group := rounds[k];
      if group.count >= 2 {
        var left, right := PickPair(t, group.round);
        return Duel(left, right);
      }
      PromoteStep(t, nextId, group.round);
      photos := PromoteRound(t, group.round);
      m := Promoted;
    }

    /** `GET /api/duel`: runs `findMatch` until it no longer reports a
        promotion. The loop always stops, never ends in "no duel found", and
        with two or more active photos yields a pair from the lowest round. */
    method GetDuel() returns (m: Match)
      requires Valid()
      modifies this
      ensures Valid() && nextId == old(nextId)
      ensures DuelAnswer(old(photos), photos, m)
    {
      ghost var top := RoundCeiling(photos);
      ghost var before := photos;
      m := FindMatch();
      MatchStepProgress(before, photos, m, top);
      while m.Promoted?
        invariant Valid() && nextId == old(nextId)
        invariant AllAtMost(photos, top)
        invariant Progress(old(photos), photos, m)
        decreases Slack(photos, top), if m.Promoted? then 1 else 0
      {
        before := photos;
        m := FindMatch();
        RetryStep(old(photos), before, photos, m, top);
      }
    }

    /** `POST /api/vote`: rejects a request whose `winnerId` or `loserId` is
        missing or falsy; otherwise, as one transaction, moves the winner up
        a round with one more win and eliminates the loser. */
    method Vote(winnerId: Option<int>, loserId: Option<int>) returns (reply: VoteReply)
      requires Valid()
      modifies this
      ensures Valid() && nextId == old(nextId)
      ensures reply == if Given(winnerId) && Given(loserId) then Voted else MissingIds
      ensures reply == MissingIds ==> photos == old(photos)
      ensures reply == Voted ==> photos == ApplyVote(old(photos), winnerId.value, loserId.value)
    {
      if !Given(winnerId) || !Given(loserId) {
        return MissingIds;
      }
      VoteKeepsWellFormed(photos, nextId, winnerId.value, loserId.value);
      photos := CreditWin(photos, winnerId.value);
      photos := Eliminate(photos, loserId.value);
      reply := Voted;
    }

    /** `POST /api/restart`: `DELETE FROM photos`. */
    method Restart()
      requires Valid()
      modifies this
      ensures Valid()
      ensures photos == [] && nextId == old(nextId)
    {
      photos := [];
    }
  }

  /** `SELECT * FROM photos WHERE round = r AND status = 'active'
      ORDER BY RANDOM() LIMIT 2`: two different rows of the round. */
  method PickPair(t: seq<Photo>, r: int) returns (left: Photo, right: Photo)
    requires IdsAscending(t) && CountInRound(t, r) >= 2
    ensures left in t && right in t && InRound(left, r) && InRound(right, r)
    ensures left.id != right.id
  {
    ghost var i0, j0 := TwoInRound(t, r);
    var i, j :| 0 <= i < |t| && 0 <= j < |t| && i != j && InRound(t[i], r) && InRound(t[j], r);
    assert t[i].id != t[j].id by {
      if i < j { } else { }
    }
    left, right := t[i], t[j];
  }

  /** `insertMany`: the upload transaction, one INSERT per file in batch
      order, each row taking the next id. */
  method InsertMany(table: seq<Photo>, files: seq<UploadedFile>, firstId: int) returns (t: seq<Photo>)
    ensures t == table + NewRows(files, firstId)
  {
    t := table;
    var nextId := firstId;
    for i := 0 to |files|
      invariant t == table + NewRows(files[..i], firstId)
      invariant nextId == firstId + i
    {
      var row := Photo(nextId, files[i].filename, files[i].originalName, 1, 0, Active);
      assert NewRows(files[..i + 1], firstId) == NewRows(files[..i], firstId) + [row];
      t := t + [row];
      nextId := nextId + 1;
    }
    assert files[..|files|] == files;
  }
}
