/** The `photos` table of the tournament backend, its invariant, and the
    read-only queries the handlers run over it. The table is kept as a
    sequence of rows in id order (the order SQLite returns rows by default). */
module PhotoStore {

  datatype Option<T> = None | Some(value: T)

  /** The `status` column: 'active' or 'eliminated'. */
  datatype Status = Active | Eliminated

  /** One row of the `photos` table. */
  datatype Photo = Photo(id: int, filename: string, originalName: string, round: int, wins: int, status: Status)

  /** One file handed over by the upload middleware: the name it was stored
      under and the name the user gave it. */
  datatype UploadedFile = UploadedFile(filename: string, originalName: string)

  predicate IsActive(p: Photo) { p.status == Active }

  /** `round = r AND status = 'active'` */
  predicate InRound(p: Photo, r: int) { p.status == Active && p.round == r }

  /** Ids come from AUTOINCREMENT, so rows in table order have strictly ascending ids. */
  predicate IdsAscending(t: seq<Photo>) {
    forall i, j :: 0 <= i < j < |t| ==> t[i].id < t[j].id
  }

  /** The table invariant: ids are positive, ascending and below the next id
      to be handed out; every win also moved the photo up one round, so
      `0 <= wins < round` (rounds start at 1, wins at 0). */
  predicate WellFormed(t: seq<Photo>, nextId: int) {
    && 1 <= nextId
    && IdsAscending(t)
    && (forall i :: 0 <= i < |t| ==> 1 <= t[i].id < nextId)
    && (forall i :: 0 <= i < |t| ==> 0 <= t[i].wins < t[i].round)
  }

  /** The rows the upload transaction inserts: column defaults round 1, wins 0,
      status 'active', and consecutive ids starting at `firstId`. */
  function NewRows(files: seq<UploadedFile>, firstId: int): (rows: seq<Photo>)
    ensures |rows| == |files|
  {
    seq(|files|, k requires 0 <= k < |files| =>
      Photo(firstId + k, files[k].filename, files[k].originalName, 1, 0, Active))
  }

  /** `SELECT COUNT(*) FROM photos WHERE status = 'active'` */
  function ActiveCount(t: seq<Photo>): (n: nat)
    ensures n <= |t|
    ensures n == 0 <==> forall p :: p in t ==> !IsActive(p)
  {
    if t == [] then 0
    else (if IsActive(t[0]) then 1 else 0) + ActiveCount(t[1..])
  }

  /** The number of active photos waiting in round `r`. */
  function CountInRound(t: seq<Photo>, r: int): (n: nat)
    ensures n <= ActiveCount(t)
    ensures n == 0 <==> forall p :: p in t ==> !InRound(p, r)
  {
    if t == [] then 0
    else (if InRound(t[0], r) then 1 else 0) + CountInRound(t[1..], r)
  }

  /** `SELECT * FROM photos WHERE status = 'active'` read with `.get()`:
      the first active row, or nothing. */
  function FirstActive(t: seq<Photo>): (w: Option<Photo>)
    ensures w.None? <==> ActiveCount(t) == 0
    ensures w.Some? ==> w.value in t && IsActive(w.value)
  {
    if t == [] then None
    else if IsActive(t[0]) then Some(t[0])
    else FirstActive(t[1..])
  }

  /** The lowest round any active photo waits in. */
  function MinActiveRound(t: seq<Photo>): (m: int)
    requires ActiveCount(t) >= 1
    ensures exists p :: p in t && InRound(p, m)
    ensures forall p :: p in t && IsActive(p) ==> m <= p.round
  {
    if ActiveCount(t[1..]) == 0 || (IsActive(t[0]) && t[0].round <= MinActiveRound(t[1..])) then
      assert t[0] in t;
      t[0].round
    else
      MinActiveRound(t[1..])
  }

  /** With exactly one active photo, the first active row is that photo. */
  lemma {:induction false} SoleActiveIsFirst(t: seq<Photo>, p: Photo)
    requires ActiveCount(t) == 1
    requires p in t && IsActive(p)
    ensures FirstActive(t) == Some(p)
    ensures forall q :: q in t && IsActive(q) ==> q == p
  {
    if t[0] == p {
      assert forall q :: q in t[1..] ==> !IsActive(q);
      assert t == [t[0]] + t[1..];
    } else {
      assert p in t[1..];
      SoleActiveIsFirst(t[1..], p);
      assert t == [t[0]] + t[1..];
    }
  }

  lemma {:induction false} ActiveCountAppend(a: seq<Photo>, b: seq<Photo>)
    ensures ActiveCount(a + b) == ActiveCount(a) + ActiveCount(b)
  {
    if a != [] {
      assert (a + b)[1..] == a[1..] + b;
      ActiveCountAppend(a[1..], b);
    } else {
      assert a + b == b;
    }
  }

  /** Rows that agree on their status have the same active count. */
  lemma {:induction false} ActiveCountOfSameStatuses(a: seq<Photo>, b: seq<Photo>)
    requires |a| == |b|
    requires forall i :: 0 <= i < |a| ==> a[i].status == b[i].status
    ensures ActiveCount(a) == ActiveCount(b)
  {
    if a != [] {
      ActiveCountOfSameStatuses(a[1..], b[1..]);
    }
  }

  /** Fresh upload rows are all active. */
  lemma {:induction false} NewRowsAllActive(files: seq<UploadedFile>, firstId: int)
    ensures ActiveCount(NewRows(files, firstId)) == |files|
  {
    if files != [] {
      assert NewRows(files, firstId)[1..] == NewRows(files[1..], firstId + 1);
      NewRowsAllActive(files[1..], firstId + 1);
    }
  }

  /** Appending an upload batch keeps the invariant and adds one active photo per file. */
  lemma UploadKeepsWellFormed(t: seq<Photo>, nextId: int, files: seq<UploadedFile>)
    requires WellFormed(t, nextId)
    ensures WellFormed(t + NewRows(files, nextId), nextId + |files|)
    ensures ActiveCount(t + NewRows(files, nextId)) == ActiveCount(t) + |files|
  {
    var rows := NewRows(files, nextId);
    var u := t + rows;
    forall i | 0 <= i < |u|
      ensures 1 <= u[i].id < nextId + |files| && 0 <= u[i].wins < u[i].round
    {
      if i >= |t| {
        assert u[i] == rows[i - |t|];
      }
    }
    forall i, j | 0 <= i < j < |u|
      ensures u[i].id < u[j].id
    {
      if j < |t| {
      } else if i < |t| {
        assert u[j] == rows[j - |t|];
      } else {
        assert u[i] == rows[i - |t|] && u[j] == rows[j - |t|];
      }
    }
    ActiveCountAppend(t, rows);
    NewRowsAllActive(files, nextId);
  }

  /** When round `r` holds fewer than all active photos, some active photo waits in another round. */
  lemma {:induction false} OtherRoundExists(t: seq<Photo>, r: int)
    requires CountInRound(t, r) < ActiveCount(t)
    ensures exists p :: p in t && IsActive(p) && p.round != r
  {
    if IsActive(t[0]) && t[0].round != r {
      assert t[0] in t;
    } else {
      OtherRoundExists(t[1..], r);
      var p :| p in t[1..] && IsActive(p) && p.round != r;
      assert p in t;
    }
  }
}
