/** The state the routes of `app.py` share: the `materials` and `reviews`
    tables, held as sequences in insertion (row id) order, with the
    `add`, `review`, `mark_reviewed` and `materials` routes as pure
    transitions and queries over them. */
module App {
  import opened Wrappers
  import opened PyStr
  import opened Dates
  import opened Uploads
  import opened Schedule

  /** `UPLOAD_FOLDER`. */
  const UploadFolder := "uploads"

  /** A row of `materials`; `uploadDate` is the `str(date)` text stored. */
  datatype Material = Material(id: int, userId: int, title: string, notes: string,
                               uploadDate: string, filePath: Option<string>)

  /** A row of `reviews`; `done` is the `INTEGER DEFAULT 0` column. */
  datatype Review = Review(id: int, materialId: int, reviewDate: string, done: int)

  /** Both tables, with the next id each `AUTOINCREMENT` key hands out. */
  datatype Db = Db(materials: seq<Material>, reviews: seq<Review>, nextMaterialId: int, nextReviewId: int)

  /** A freshly created database: no rows, ids start at 1. */
  const EmptyDb := Db([], [], 1, 1)

  /** The file part of an `add` request: the name the browser sent and
      the name `secure_filename` made of it (a library call, so given). */
  datatype Upload = Upload(filename: string, savedName: string)

  /** The `file_path` the `add` route stores: set only for an allowed file
      name, under the upload folder. (An empty file name, which makes the
      upload object false in Python, is refused by `AllowedFile` too.) */
  function StoredPath(upload: Option<Upload>): (r: Option<string>)
    ensures r.Some? <==> upload.Some? && AllowedFile(upload.value.filename)
    ensures r.Some? ==> StartsWith(r.value, UploadFolder + "/")
  {
    if upload.Some? && AllowedFile(upload.value.filename)
    then Some(UploadFolder + "/" + upload.value.savedName)
    else None
  }

  function MaterialIds(db: Db): set<int> {
    set m | m in db.materials :: m.id
  }

  /** How many review rows refer to material `mid`. */
  function CountFor(rs: seq<Review>, mid: int): nat {
    if rs == [] then 0
    else CountFor(rs[..|rs| - 1], mid) + (if rs[|rs| - 1].materialId == mid then 1 else 0)
  }

  /** Material ids increase with insertion order, from 1, below the next
      id to hand out. */
  predicate MaterialIdsOk(db: Db) {
    && db.nextMaterialId >= 1
    && (forall i, j :: 0 <= i < j < |db.materials| ==> db.materials[i].id < db.materials[j].id)
    && (forall i :: 0 <= i < |db.materials| ==> 1 <= db.materials[i].id < db.nextMaterialId)
  }

  /** Review ids likewise. */
  predicate ReviewIdsOk(db: Db) {
    && db.nextReviewId >= 1
    && (forall i, j :: 0 <= i < j < |db.reviews| ==> db.reviews[i].id < db.reviews[j].id)
    && (forall i :: 0 <= i < |db.reviews| ==> 1 <= db.reviews[i].id < db.nextReviewId)
  }

  /** Every review refers to an existing material and is 0 or 1 done. */
  predicate ReviewRowsOk(db: Db) {
    forall r :: r in db.reviews ==> r.materialId in MaterialIds(db) && (r.done == 0 || r.done == 1)
  }

  /** Every material has exactly six reviews. */
  predicate SixEach(db: Db) {
    forall m :: m in db.materials ==> CountFor(db.reviews, m.id) == 6
  }

  /** What every reachable database satisfies. */
  predicate Wf(db: Db) {
    MaterialIdsOk(db) && ReviewIdsOk(db) && ReviewRowsOk(db) && SixEach(db)
  }

  lemma EmptyDbWf()
    ensures Wf(EmptyDb)
  {
  }

  /** The six review rows of material `mid`, ids from `firstId`, all not
      done. */
  function NewReviews(mid: int, dates: seq<Date>, firstId: int): (r: seq<Review>)
    requires forall k :: 0 <= k < |dates| ==> Valid(dates[k])
    ensures |r| == |dates|
    ensures forall k :: 0 <= k < |dates| ==> r[k] == Review(firstId + k, mid, Format(dates[k]), 0)
  {
    seq(|dates|, k requires 0 <= k < |dates| => Review(firstId + k, mid, Format(dates[k]), 0))
  }

  /** The `add` route. One material row is inserted, then a review row for
      every offset, and everything is committed once; when a review date
      overflows Python's date range the exception rolls the transaction
      back and the database is unchanged. */
  function AddMaterial(db: Db, user: int, title: string, notes: string, today: Date,
                       upload: Option<Upload>): (r: Db)
    requires Valid(today)
    ensures r == db <==> ToOrdinal(today) + 30 > MaxOrdinal
    ensures r != db ==>
      && r.materials == db.materials + [Material(db.nextMaterialId, user, title, notes,
                                                 Format(today), StoredPath(upload))]
      && |r.reviews| == |db.reviews| + 6
      && r.reviews[..|db.reviews|] == db.reviews
      && r.nextMaterialId == db.nextMaterialId + 1
      && r.nextReviewId == db.nextReviewId + 6
    ensures r != db ==> forall i :: |db.reviews| <= i < |r.reviews| ==>
      var k := i - |db.reviews|;
      && ReviewDates(today).Some? && k < |ReviewDates(today).value|
      && r.reviews[i] == Review(db.nextReviewId + k, db.nextMaterialId, Format(ReviewDates(today).value[k]), 0)
  {
    match ReviewDates(today)
    case None =>
      ReviewDatesShape(today);
      db
    case Some(dates) =>
      ReviewDatesShape(today);
      var r := Inserted(db, Material(db.nextMaterialId, user, title, notes, Format(today), StoredPath(upload)), dates);
      assert |r.reviews| != |db.reviews|;
      r
  }

  /** The rows one committed `add` transaction leaves: the material `m`, then
      one review per date, numbered on from the counters. */
  function Inserted(db: Db, m: Material, dates: seq<Date>): (r: Db)
    requires forall k :: 0 <= k < |dates| ==> Valid(dates[k])
    ensures r.materials == db.materials + [m]
    ensures |r.reviews| == |db.reviews| + |dates| && r.reviews[..|db.reviews|] == db.reviews
    ensures forall i :: |db.reviews| <= i < |r.reviews| ==>
      r.reviews[i] == Review(db.nextReviewId + (i - |db.reviews|), db.nextMaterialId,
                             Format(dates[i - |db.reviews|]), 0)
    ensures r.nextMaterialId == db.nextMaterialId + 1
    ensures r.nextReviewId == db.nextReviewId + |dates|
  {
    var added := NewReviews(db.nextMaterialId, dates, db.nextReviewId);
    assert (db.reviews + added)[..|db.reviews|] == db.reviews;
    assert forall i :: |db.reviews| <= i < |db.reviews| + |dates| ==>
      (db.reviews + added)[i] == added[i - |db.reviews|];
    Db(db.materials + [m], db.reviews + added, db.nextMaterialId + 1, db.nextReviewId + |dates|)
  }

  /** One row of the `review` page's query. */
  datatype DueItem = DueItem(reviewId: int, title: string, notes: string,
                             reviewDate: string, filePath: Option<string>)

  function Row(r: Review, m: Material): DueItem {
    DueItem(r.id, m.title, m.notes, r.reviewDate, m.filePath)
  }

  /** The join and `WHERE` clause of the `review` query. */
  predicate IsDue(r: Review, m: Material, today: string, user: int) {
    r.materialId == m.id && r.reviewDate == today && r.done == 0 && m.userId == user
  }

  /** The rows the join makes of one review. */
  function DueOf(r: Review, ms: seq<Material>, today: string, user: int): (out: seq<DueItem>)
    ensures forall x :: x in out <==> exists m :: m in ms && IsDue(r, m, today, user) && x == Row(r, m)
  {
    if ms == [] then []
    else (if IsDue(r, ms[0], today, user) then [Row(r, ms[0])] else []) + DueOf(r, ms[1..], today, user)
  }

  function Due(rs: seq<Review>, ms: seq<Material>, today: string, user: int): (out: seq<DueItem>)
    ensures forall x :: x in out <==>
      exists r, m :: r in rs && m in ms && IsDue(r, m, today, user) && x == Row(r, m)
  {
    if rs == [] then []
    else DueOf(rs[0], ms, today, user) + Due(rs[1..], ms, today, user)
  }

  /** The `review` route: the reviews dated today (compared as text), not
      done, of materials the session user owns, and nothing else. The
      query has no `ORDER BY`; the model lists rows in review order. */
  function DueReviews(db: Db, user: int, today: Date): (out: seq<DueItem>)
    requires Valid(today)
    ensures forall x :: x in out <==>
      exists r, m :: r in db.reviews && m in db.materials && x == Row(r, m)
                  && r.materialId == m.id && r.reviewDate == Format(today)
                  && r.done == 0 && m.userId == user
  {
    Due(db.reviews, db.materials, Format(today), user)
  }

  /** Under increasing material ids a review joins at most one material,
      so it gives at most one row, and that row carries its id. */
  lemma {:induction false} DueOfAtMostOne(r: Review, ms: seq<Material>, today: string, user: int)
    requires forall i, j :: 0 <= i < j < |ms| ==> ms[i].id < ms[j].id
    ensures |DueOf(r, ms, today, user)| <= 1
    ensures forall x :: x in DueOf(r, ms, today, user) ==> x.reviewId == r.id
    decreases |ms|
  {
    if ms != [] {
      if IsDue(r, ms[0], today, user) {
        forall m | m in ms[1..]
          ensures !IsDue(r, m, today, user)
        {
          var k :| 0 <= k < |ms[1..]| && ms[1..][k] == m;
          assert ms[k + 1] == m;
        }
        NoneDue(r, ms[1..], today, user);
      } else {
        DueOfAtMostOne(r, ms[1..], today, user);
      }
    }
  }

  /** A review no material joins gives no row. */
  lemma {:induction false} NoneDue(r: Review, ms: seq<Material>, today: string, user: int)
    requires forall m :: m in ms ==> !IsDue(r, m, today, user)
    ensures DueOf(r, ms, today, user) == []
    decreases |ms|
  {
    if ms != [] {
      assert ms[0] in ms;
      assert forall m :: m in ms[1..] ==> m in ms;
      NoneDue(r, ms[1..], today, user);
    }
  }

  predicate IdsIncrease(out: seq<DueItem>) {
    forall i, j :: 0 <= i < j < |out| ==> out[i].reviewId < out[j].reviewId
  }

  /** With both id columns increasing, the join lists each review at most
      once, in review id order. */
  lemma {:induction false} DueIdsIncrease(rs: seq<Review>, ms: seq<Material>, today: string, user: int)
    requires forall i, j :: 0 <= i < j < |rs| ==> rs[i].id < rs[j].id
    requires forall i, j :: 0 <= i < j < |ms| ==> ms[i].id < ms[j].id
    ensures IdsIncrease(Due(rs, ms, today, user))
    decreases |rs|
  {
    if rs != [] {
      var a := DueOf(rs[0], ms, today, user);
      var b := Due(rs[1..], ms, today, user);
      DueOfAtMostOne(rs[0], ms, today, user);
      DueIdsIncrease(rs[1..], ms, today, user);
      var out := a + b;
      assert out == Due(rs, ms, today, user);
      forall i, j | 0 <= i < j < |out|
        ensures out[i].reviewId < out[j].reviewId
      {
        if i < |a| {
          assert i == 0 && out[i] == a[0] && a[0] in a;
          assert out[j] == b[j - |a|] && b[j - |a|] in b;
          LaterReviewAbove(rs, ms, today, user, b[j - |a|]);
        } else {
          assert out[i] == b[i - |a|] && out[j] == b[j - |a|];
          assert b[i - |a|].reviewId < b[j - |a|].reviewId;
        }
      }
    }
  }

  /** A join row of a later review carries a larger id than the first. */
  lemma LaterReviewAbove(rs: seq<Review>, ms: seq<Material>, today: string, user: int, x: DueItem)
    requires forall i, j :: 0 <= i < j < |rs| ==> rs[i].id < rs[j].id
    requires rs != [] && x in Due(rs[1..], ms, today, user)
    ensures rs[0].id < x.reviewId
  {
    var r, m :| r in rs[1..] && m in ms && IsDue(r, m, today, user) && x == Row(r, m);
    var k :| 0 <= k < |rs[1..]| && rs[1..][k] == r;
    assert rs[k + 1] == r;
  }

  /** In every database the routes can reach, no review appears twice on
      the `review` page: with the membership clause of `DueReviews`, each
      due review is listed exactly once. */
  lemma DueReviewsOnce(db: Db, user: int, today: Date)
    requires Wf(db) && Valid(today)
    ensures var out := DueReviews(db, user, today);
      forall i, j :: 0 <= i < j < |out| ==> out[i].reviewId != out[j].reviewId
  {
    DueIdsIncrease(db.reviews, db.materials, Format(today), user);
    assert DueReviews(db, user, today) == Due(db.reviews, db.materials, Format(today), user);
  }

  /** The `mark_reviewed` route: `done` becomes 1 on the row with that id,
      whoever owns its material; every other row and field is kept. */
  function MarkReviewed(db: Db, reviewId: int): (r: Db)
    ensures r.materials == db.materials
    ensures r.nextMaterialId == db.nextMaterialId && r.nextReviewId == db.nextReviewId
    ensures |r.reviews| == |db.reviews|
    ensures forall i :: 0 <= i < |db.reviews| ==>
      && r.reviews[i].id == db.reviews[i].id
      && r.reviews[i].materialId == db.reviews[i].materialId
      && r.reviews[i].reviewDate == db.reviews[i].reviewDate
    ensures forall i :: 0 <= i < |db.reviews| ==>
      r.reviews[i].done == if db.reviews[i].id == reviewId then 1 else db.reviews[i].done
  {
    db.(reviews := seq(|db.reviews|, i requires 0 <= i < |db.reviews| =>
                         if db.reviews[i].id == reviewId then db.reviews[i].(done := 1) else db.reviews[i]))
  }

  /** Marking twice is marking once. */
  lemma MarkReviewedIdempotent(db: Db, reviewId: int)
    ensures MarkReviewed(MarkReviewed(db, reviewId), reviewId) == MarkReviewed(db, reviewId)
  {
    var once := MarkReviewed(db, reviewId);
    var twice := MarkReviewed(once, reviewId);
    assert forall i :: 0 <= i < |db.reviews| ==> twice.reviews[i] == once.reviews[i];
  }

  /** Marking an id no row has changes nothing. */
  lemma MarkUnknownId(db: Db, reviewId: int)
    requires forall r :: r in db.reviews ==> r.id != reviewId
    ensures MarkReviewed(db, reviewId) == db
  {
    var r := MarkReviewed(db, reviewId);
    assert forall i :: 0 <= i < |db.reviews| ==> r.reviews[i] == db.reviews[i];
  }

  /** After marking, no row of the `review` page carries that id, on any
      day and for any user. */
  lemma MarkedIsNotDue(db: Db, reviewId: int, user: int, today: Date)
    requires Valid(today)
    ensures forall x :: x in DueReviews(MarkReviewed(db, reviewId), user, today) ==> x.reviewId != reviewId
  {
    var after := MarkReviewed(db, reviewId);
    forall x | x in DueReviews(after, user, today)
      ensures x.reviewId != reviewId
    {
      var r, m :| r in after.reviews && m in after.materials && x == Row(r, m)
                  && r.materialId == m.id && r.reviewDate == Format(today)
                  && r.done == 0 && m.userId == user;
      var i :| 0 <= i < |after.reviews| && after.reviews[i] == r;
    }
  }

  /** Marking affects nothing but that review's presence on the page:
      every other row due before is still due. */
  lemma MarkKeepsOtherDue(db: Db, reviewId: int, user: int, today: Date, x: DueItem)
    requires Valid(today)
    requires x in DueReviews(db, user, today) && x.reviewId != reviewId
    ensures x in DueReviews(MarkReviewed(db, reviewId), user, today)
  {
    var after := MarkReviewed(db, reviewId);
    var r, m :| r in db.reviews && m in db.materials && x == Row(r, m)
                && r.materialId == m.id && r.reviewDate == Format(today)
                && r.done == 0 && m.userId == user;
    var i :| 0 <= i < |db.reviews| && db.reviews[i] == r;
    assert after.reviews[i] == r;
  }

  /** Ordered by `upload_date` text, largest first (`ORDER BY upload_date
      DESC`). */
  predicate NewestFirst(ms: seq<Material>) {
    forall i, j :: 0 <= i < j < |ms| ==> !Less(ms[i].uploadDate, ms[j].uploadDate)
  }

  /** Puts `m` into a newest-first list, before the first row it is not
      older than. */
  function InsertNewestFirst(m: Material, ms: seq<Material>): (r: seq<Material>)
    requires NewestFirst(ms)
    ensures NewestFirst(r)
    ensures multiset(r) == multiset(ms) + multiset{m}
  {
    if ms == [] then [m]
    else if !Less(m.uploadDate, ms[0].uploadDate) then
      NotOlderThanAll(m, ms);
      [m] + ms
    else
      var rest := InsertNewestFirst(m, ms[1..]);
      assert ms == [ms[0]] + ms[1..];
      HeadNotOlder(ms[0], m, ms[1..], rest);
      [ms[0]] + rest
  }

  lemma NotOlderThanAll(m: Material, ms: seq<Material>)
    requires NewestFirst(ms) && ms != [] && !Less(m.uploadDate, ms[0].uploadDate)
    ensures NewestFirst([m] + ms)
  {
    forall j | 0 < j < |ms|
      ensures !Less(m.uploadDate, ms[j].uploadDate)
    {
      NotLessTransitive(m.uploadDate, ms[0].uploadDate, ms[j].uploadDate);
    }
    var r := [m] + ms;
    assert forall j :: 0 < j < |r| ==> r[j] == ms[j - 1];
  }

  lemma HeadNotOlder(h: Material, m: Material, tail: seq<Material>, rest: seq<Material>)
    requires NewestFirst([h] + tail) && NewestFirst(rest)
    requires Less(m.uploadDate, h.uploadDate)
    requires multiset(rest) == multiset(tail) + multiset{m}
    ensures NewestFirst([h] + rest)
  {
    forall x | x in rest
      ensures !Less(h.uploadDate, x.uploadDate)
    {
      assert x in multiset(rest);
      if x == m {
        LessAsymmetric(m.uploadDate, h.uploadDate);
      } else {
        assert x in multiset(tail);
        var j :| 0 <= j < |tail| && tail[j] == x;
        assert ([h] + tail)[0] == h && ([h] + tail)[j + 1] == x;
      }
    }
    var r := [h] + rest;
    assert forall j :: 0 < j < |r| ==> r[j] == rest[j - 1] && r[j] in rest;
  }

  function SortNewestFirst(ms: seq<Material>): (r: seq<Material>)
    ensures NewestFirst(r)
    ensures multiset(r) == multiset(ms)
  {
    if ms == [] then []
    else
      assert ms == [ms[0]] + ms[1..];
      InsertNewestFirst(ms[0], SortNewestFirst(ms[1..]))
  }

  /** The rows of `ms` owned by `user`, in order. */
  function OwnedBy(ms: seq<Material>, user: int): (r: seq<Material>)
    ensures forall m :: multiset(r)[m] == if m.userId == user then multiset(ms)[m] else 0
  {
    if ms == [] then []
    else
      assert ms == [ms[0]] + ms[1..];
      (if ms[0].userId == user then [ms[0]] else []) + OwnedBy(ms[1..], user)
  }

  /** The `materials` route: exactly the session user's materials (each
      as often as stored), newest upload date first. Rows with equal
      dates may come in any order in SQLite; the model keeps one. */
  function MaterialsOf(db: Db, user: int): (r: seq<Material>)
    ensures NewestFirst(r)
    ensures forall m :: multiset(r)[m] == if m.userId == user then multiset(db.materials)[m] else 0
  {
    SortNewestFirst(OwnedBy(db.materials, user))
  }

  /** Because the stored text is `str(date)`, newest-first text order is
      newest-first calendar order. */
  lemma MaterialsOfByDate(db: Db, user: int, i: int, j: int, a: Date, b: Date)
    requires 0 <= i < j < |MaterialsOf(db, user)|
    requires Valid(a) && MaterialsOf(db, user)[i].uploadDate == Format(a)
    requires Valid(b) && MaterialsOf(db, user)[j].uploadDate == Format(b)
    ensures !Before(a, b)
  {
    FormatOrder(a, b);
  }
}
