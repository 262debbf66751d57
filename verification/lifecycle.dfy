/** How the routes of `app.py` combine: the database invariant every
    route keeps, what an upload puts on the review page, and the one-way
    `done` flag across any sequence of requests. */
module Lifecycle {
  import opened Wrappers
  import opened Dates
  import opened Schedule
  import opened App

  lemma {:induction false} CountAppend(a: seq<Review>, b: seq<Review>, mid: int)
    ensures CountFor(a + b, mid) == CountFor(a, mid) + CountFor(b, mid)
    decreases |b|
  {
    if b == [] {
      assert a + b == a;
    } else {
      assert (a + b)[..|a + b| - 1] == a + b[..|b| - 1];
      CountAppend(a, b[..|b| - 1], mid);
    }
  }

  lemma {:induction false} CountNone(rs: seq<Review>, mid: int)
    requires forall r :: r in rs ==> r.materialId != mid
    ensures CountFor(rs, mid) == 0
    decreases |rs|
  {
    if rs != [] {
      assert forall r :: r in rs[..|rs| - 1] ==> r in rs;
      CountNone(rs[..|rs| - 1], mid);
    }
  }

  lemma {:induction false} CountAll(rs: seq<Review>, mid: int)
    requires forall r :: r in rs ==> r.materialId == mid
    ensures CountFor(rs, mid) == |rs|
    decreases |rs|
  {
    if rs != [] {
      assert forall r :: r in rs[..|rs| - 1] ==> r in rs;
      CountAll(rs[..|rs| - 1], mid);
    }
  }

  lemma {:induction false} CountSameRefs(a: seq<Review>, b: seq<Review>, mid: int)
    requires |a| == |b| && forall i :: 0 <= i < |a| ==> a[i].materialId == b[i].materialId
    ensures CountFor(a, mid) == CountFor(b, mid)
    decreases |a|
  {
    if a != [] {
      CountSameRefs(a[..|a| - 1], b[..|b| - 1], mid);
    }
  }

  /** The rows an upload appends all belong to the new material. */
  lemma AddedRows(db: Db, user: int, title: string, notes: string, today: Date,
                  upload: Option<Upload>)
    requires Valid(today)
    requires AddMaterial(db, user, title, notes, today, upload) != db
    ensures var r := AddMaterial(db, user, title, notes, today, upload);
      && r.reviews == db.reviews + r.reviews[|db.reviews|..]
      && |r.reviews[|db.reviews|..]| == 6
      && forall x :: x in r.reviews[|db.reviews|..] ==> x.materialId == db.nextMaterialId && x.done == 0
  {
    var r := AddMaterial(db, user, title, notes, today, upload);
    var added := r.reviews[|db.reviews|..];
    assert r.reviews == r.reviews[..|db.reviews|] + added;
    forall x | x in added
      ensures x.materialId == db.nextMaterialId && x.done == 0
    {
      var k :| 0 <= k < 6 && added[k] == x;
      assert added[k] == r.reviews[|db.reviews| + k];
    }
  }

  /** No existing review refers to the id the next material will get. */
  lemma NextIdUnreferenced(db: Db)
    requires Wf(db)
    ensures forall x :: x in db.reviews ==> x.materialId != db.nextMaterialId
    ensures forall m :: m in db.materials ==> m.id < db.nextMaterialId
  {
    forall m | m in db.materials
      ensures m.id < db.nextMaterialId
    {
      var i :| 0 <= i < |db.materials| && db.materials[i] == m;
    }
  }

  /** Appending rows of a fresh material gives it their number of
      reviews and leaves every other material's count alone. */
  lemma AppendCounts(prior: seq<Review>, added: seq<Review>, mid: int, other: int)
    requires forall x :: x in prior ==> x.materialId != mid
    requires forall x :: x in added ==> x.materialId == mid
    requires other != mid
    ensures CountFor(prior + added, mid) == |added|
    ensures CountFor(prior + added, other) == CountFor(prior, other)
  {
    CountAll(added, mid);
    CountNone(prior, mid);
    CountAppend(prior, added, mid);
    CountNone(added, other);
    CountAppend(prior, added, other);
  }

  /** A successful upload gives the new material exactly six reviews and
      leaves every other material's count alone. */
  lemma AddCounts(db: Db, user: int, title: string, notes: string, today: Date,
                  upload: Option<Upload>)
    requires Wf(db) && Valid(today)
    requires AddMaterial(db, user, title, notes, today, upload) != db
    ensures var r := AddMaterial(db, user, title, notes, today, upload);
      && CountFor(r.reviews, db.nextMaterialId) == 6
      && forall m :: m in db.materials ==> CountFor(r.reviews, m.id) == 6
  {
    var r := AddMaterial(db, user, title, notes, today, upload);
    AddedRows(db, user, title, notes, today, upload);
    NextIdUnreferenced(db);
    var added := r.reviews[|db.reviews|..];
    forall m | m in db.materials
      ensures CountFor(r.reviews, m.id) == 6
    {
      AppendCounts(db.reviews, added, db.nextMaterialId, m.id);
    }
    AppendCounts(db.reviews, added, db.nextMaterialId, db.nextMaterialId + 1);
  }

  /** Appending one material with the next id keeps material ids in
      order. */
  lemma AppendMaterialIds(prior: Db, r: Db)
    requires MaterialIdsOk(prior)
    requires |r.materials| == |prior.materials| + 1
    requires r.materials[..|prior.materials|] == prior.materials
    requires r.materials[|prior.materials|].id == prior.nextMaterialId
    requires r.nextMaterialId == prior.nextMaterialId + 1
    ensures MaterialIdsOk(r)
  {
    var n := |prior.materials|;
    assert forall i :: 0 <= i < n ==> r.materials[i] == r.materials[..n][i];
  }

  /** Appending reviews numbered on from the next id keeps review ids in
      order. */
  lemma AppendReviewIds(prior: Db, r: Db, count: nat)
    requires ReviewIdsOk(prior)
    requires |r.reviews| == |prior.reviews| + count
    requires r.reviews[..|prior.reviews|] == prior.reviews
    requires forall i :: |prior.reviews| <= i < |r.reviews| ==>
               r.reviews[i].id == prior.nextReviewId + (i - |prior.reviews|)
    requires r.nextReviewId == prior.nextReviewId + count
    ensures ReviewIdsOk(r)
  {
    var n := |prior.reviews|;
    assert forall i :: 0 <= i < n ==> r.reviews[i] == r.reviews[..n][i];
  }

  lemma AddKeepsMaterialIds(db: Db, user: int, title: string, notes: string, today: Date,
                             upload: Option<Upload>)
    requires MaterialIdsOk(db) && Valid(today)
    ensures MaterialIdsOk(AddMaterial(db, user, title, notes, today, upload))
  {
    var r := AddMaterial(db, user, title, notes, today, upload);
    if r != db {
      AppendMaterialIds(db, r);
    }
  }

  lemma AddKeepsReviewIds(db: Db, user: int, title: string, notes: string, today: Date,
                           upload: Option<Upload>)
    requires ReviewIdsOk(db) && Valid(today)
    ensures ReviewIdsOk(AddMaterial(db, user, title, notes, today, upload))
  {
    var r := AddMaterial(db, user, title, notes, today, upload);
    if r != db {
      AppendReviewIds(db, r, 6);
    }
  }

  lemma AddKeepsIds(db: Db, user: int, title: string, notes: string, today: Date,
                     upload: Option<Upload>)
    requires Wf(db) && Valid(today)
    ensures var r := AddMaterial(db, user, title, notes, today, upload);
      MaterialIdsOk(r) && ReviewIdsOk(r)
  {
    AddKeepsMaterialIds(db, user, title, notes, today, upload);
    AddKeepsReviewIds(db, user, title, notes, today, upload);
  }

  lemma AddKeepsRows(db: Db, user: int, title: string, notes: string, today: Date,
                     upload: Option<Upload>)
    requires ReviewRowsOk(db) && Valid(today)
    ensures ReviewRowsOk(AddMaterial(db, user, title, notes, today, upload))
  {
    var r := AddMaterial(db, user, title, notes, today, upload);
    if r != db {
      AddedRows(db, user, title, notes, today, upload);
      var added := r.reviews[|db.reviews|..];
      var newest := r.materials[|db.materials|];
      assert newest in r.materials && newest.id == db.nextMaterialId;
      forall x | x in r.reviews
        ensures x.materialId in MaterialIds(r) && (x.done == 0 || x.done == 1)
      {
        if x in db.reviews {
          var m :| m in db.materials && m.id == x.materialId;
          assert m in r.materials;
        } else {
          assert x in added;
        }
      }
    }
  }

  lemma SixForAppended(prior: seq<Material>, newest: Material, reviews: seq<Review>)
    requires forall m :: m in prior ==> CountFor(reviews, m.id) == 6
    requires CountFor(reviews, newest.id) == 6
    ensures forall m :: m in prior + [newest] ==> CountFor(reviews, m.id) == 6
  {
  }

  lemma AddKeepsSix(db: Db, user: int, title: string, notes: string, today: Date,
                    upload: Option<Upload>)
    requires Wf(db) && Valid(today)
    ensures SixEach(AddMaterial(db, user, title, notes, today, upload))
  {
    var r := AddMaterial(db, user, title, notes, today, upload);
    if r != db {
      AddCounts(db, user, title, notes, today, upload);
      var newest := r.materials[|db.materials|];
      assert r.materials == db.materials + [newest];
      SixForAppended(db.materials, newest, r.reviews);
    }
  }

  /** The `add` route keeps the database invariant. */
  lemma AddPreservesWf(db: Db, user: int, title: string, notes: string, today: Date,
                       upload: Option<Upload>)
    requires Wf(db) && Valid(today)
    ensures Wf(AddMaterial(db, user, title, notes, today, upload))
  {
    AddKeepsIds(db, user, title, notes, today, upload);
    AddKeepsRows(db, user, title, notes, today, upload);
    AddKeepsSix(db, user, title, notes, today, upload);
  }

  /** The `mark_reviewed` route keeps the database invariant. */
  lemma MarkPreservesWf(db: Db, reviewId: int)
    requires Wf(db)
    ensures Wf(MarkReviewed(db, reviewId))
  {
    var r := MarkReviewed(db, reviewId);
    forall m | m in r.materials
      ensures CountFor(r.reviews, m.id) == 6
    {
      CountSameRefs(db.reviews, r.reviews, m.id);
    }
    forall x | x in r.reviews
      ensures x.materialId in MaterialIds(r) && (x.done == 0 || x.done == 1)
    {
      var i :| 0 <= i < |r.reviews| && r.reviews[i] == x;
      assert db.reviews[i] in db.reviews;
    }
  }

  /** Each review an upload creates shows up on the uploader's review page
      on its own day: offset 0 on the upload day itself. */
  lemma AddedReviewComesDue(db: Db, user: int, title: string, notes: string, today: Date,
                            upload: Option<Upload>, k: int)
    requires Valid(today) && 0 <= k < 6
    requires ToOrdinal(today) + 30 <= MaxOrdinal
    ensures var r := AddMaterial(db, user, title, notes, today, upload);
      var ds := ReviewDates(today);
      && ds.Some? && |ds.value| == 6 && Valid(ds.value[k])
      && Row(r.reviews[|db.reviews| + k], r.materials[|db.materials|])
         in DueReviews(r, user, ds.value[k])
  {
    ReviewDatesShape(today);
    var r := AddMaterial(db, user, title, notes, today, upload);
    var rv := r.reviews[|db.reviews| + k];
    var m := r.materials[|db.materials|];
    assert rv in r.reviews && m in r.materials;
  }

  /** A request that changes the database. */
  datatype Op =
    | AddOp(user: int, title: string, notes: string, today: Date, upload: Option<Upload>)
    | MarkOp(reviewId: int)

  /** The request's date is a real date, as `datetime.today()` always is. */
  predicate OpOk(op: Op) {
    op.AddOp? ==> Valid(op.today)
  }

  function Apply(db: Db, op: Op): Db
    requires OpOk(op)
  {
    match op
    case AddOp(user, title, notes, today, upload) => AddMaterial(db, user, title, notes, today, upload)
    case MarkOp(id) => MarkReviewed(db, id)
  }

  /** The database after the requests `ops`, in order. */
  function Run(db: Db, ops: seq<Op>): Db
    requires forall i :: 0 <= i < |ops| ==> OpOk(ops[i])
    decreases |ops|
  {
    if ops == [] then db else Run(Apply(db, ops[0]), ops[1..])
  }

  /** Every database the application can reach satisfies the invariant. */
  lemma {:induction false} RunPreservesWf(db: Db, ops: seq<Op>)
    requires Wf(db)
    requires forall i :: 0 <= i < |ops| ==> OpOk(ops[i])
    ensures Wf(Run(db, ops))
    decreases |ops|
  {
    if ops != [] {
      ApplyPreservesWf(db, ops[0]);
      RunPreservesWf(Apply(db, ops[0]), ops[1..]);
    }
  }

  lemma ApplyPreservesWf(db: Db, op: Op)
    requires Wf(db) && OpOk(op)
    ensures Wf(Apply(db, op))
  {
    match op
    case AddOp(user, title, notes, today, upload) =>
      AddPreservesWf(db, user, title, notes, today, upload);
    case MarkOp(id) =>
      MarkPreservesWf(db, id);
  }

  /** One request keeps every existing review row in place, with the same
      id, material and date, and never clears `done`. */
  predicate KeepsReviews(before: Db, after: Db) {
    && |before.reviews| <= |after.reviews|
    && forall i :: 0 <= i < |before.reviews| ==>
         && after.reviews[i].id == before.reviews[i].id
         && after.reviews[i].materialId == before.reviews[i].materialId
         && after.reviews[i].reviewDate == before.reviews[i].reviewDate
         && (before.reviews[i].done == 1 ==> after.reviews[i].done == 1)
  }

  lemma KeepsReviewsTransitive(a: Db, b: Db, c: Db)
    requires KeepsReviews(a, b) && KeepsReviews(b, c)
    ensures KeepsReviews(a, c)
  {
  }

  /** One request removes, moves or re-dates no review and sets no `done`
      back to 0. */
  lemma ApplyNeverUndoes(db: Db, op: Op)
    requires OpOk(op)
    ensures KeepsReviews(db, Apply(db, op))
  {
    var next := Apply(db, op);
    if op.AddOp? && next != db {
      assert forall i :: 0 <= i < |db.reviews| ==> next.reviews[i] == next.reviews[..|db.reviews|][i];
    }
  }

  /** No sequence of requests removes, moves or re-dates a review, or
      sets `done` back to 0. */
  lemma {:induction false} RunNeverUndoes(db: Db, ops: seq<Op>)
    requires forall i :: 0 <= i < |ops| ==> OpOk(ops[i])
    ensures KeepsReviews(db, Run(db, ops))
    decreases |ops|
  {
    if ops != [] {
      var next := Apply(db, ops[0]);
      ApplyNeverUndoes(db, ops[0]);
      RunNeverUndoes(next, ops[1..]);
      KeepsReviewsTransitive(db, next, Run(next, ops[1..]));
    }
  }
}
