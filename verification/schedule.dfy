/** The spaced-repetition curve of the `add` route: one review on the
    upload day and after 1, 3, 7, 14 and 30 days. */
module Schedule {
  import opened Wrappers
  import opened PyStr
  import opened Dates

  /** The `days` list of the `add` route. */
  const Offsets: seq<nat> := [0, 1, 3, 7, 14, 30]

  /** `start + timedelta(days=o)` for every offset `o`, in order; `None`
      when one of them overflows Python's date range. */
  function Shift(start: Date, offsets: seq<nat>): (r: Option<seq<Date>>)
    requires Valid(start)
    ensures r.Some? <==> forall k :: 0 <= k < |offsets| ==> ToOrdinal(start) + offsets[k] <= MaxOrdinal
    ensures r.Some? ==> |r.value| == |offsets|
    ensures r.Some? ==> forall k :: 0 <= k < |offsets| ==>
              Valid(r.value[k]) && ToOrdinal(r.value[k]) == ToOrdinal(start) + offsets[k]
    decreases |offsets|
  {
    if offsets == [] then Some([])
    else match AddDays(start, offsets[0])
         case None => None
         case Some(d) =>
           match Shift(start, offsets[1..])
           case None => None
           case Some(rest) => Some([d] + rest)
  }

  /** The six review dates of a material uploaded on `upload`. */
  function ReviewDates(upload: Date): Option<seq<Date>>
    requires Valid(upload)
  {
    Shift(upload, Offsets)
  }

  /** The schedule exists unless the last review would fall after
      9999-12-31; it then has six valid dates, the k-th exactly
      `Offsets[k]` days after the upload, so the first is the upload day
      itself. */
  lemma ReviewDatesSpec(upload: Date)
    requires Valid(upload)
    ensures ReviewDates(upload).Some? <==> ToOrdinal(upload) + 30 <= MaxOrdinal
    ensures ReviewDates(upload).Some? ==>
      var ds := ReviewDates(upload).value;
      && |ds| == 6
      && ds[0] == upload
      && forall k :: 0 <= k < 6 ==> Valid(ds[k]) && ToOrdinal(ds[k]) == ToOrdinal(upload) + Offsets[k]
  {
    var r := ReviewDates(upload);
    assert |Offsets| == 6 && Offsets[0] == 0 && Offsets[5] == 30;
    forall k | 0 <= k < 6
      ensures Offsets[k] <= 30
    {
      if k < 5 {
        OffsetsIncrease(k, 5);
      }
    }
    if r.Some? {
      OrdinalOrder(r.value[0], upload);
    }
  }

  /** The schedule's shape without the ordinals: when it exists it has six
      valid dates. */
  lemma ReviewDatesShape(upload: Date)
    requires Valid(upload)
    ensures ReviewDates(upload).Some? <==> ToOrdinal(upload) + 30 <= MaxOrdinal
    ensures ReviewDates(upload).Some? ==> |ReviewDates(upload).value| == 6
    ensures ReviewDates(upload).Some? ==> forall k :: 0 <= k < 6 ==> Valid(ReviewDates(upload).value[k])
  {
    ReviewDatesSpec(upload);
  }

  /** The k-th review date is `upload + timedelta(days=Offsets[k])`. */
  lemma ReviewDatesAreShifts(upload: Date)
    requires Valid(upload) && ReviewDates(upload).Some?
    ensures forall k :: 0 <= k < 6 ==> AddDays(upload, Offsets[k]) == Some(ReviewDates(upload).value[k])
  {
    ReviewDatesSpec(upload);
    var dates := ReviewDates(upload).value;
    forall k | 0 <= k < 6
      ensures AddDays(upload, Offsets[k]) == Some(dates[k])
    {
      AddDaysUnique(upload, Offsets[k], dates[k]);
    }
  }

  /** The offsets grow strictly, so no two reviews share a day. */
  lemma {:induction false} OffsetsIncrease(i: int, j: int)
    requires 0 <= i < j < |Offsets|
    ensures Offsets[i] < Offsets[j]
    decreases j - i
  {
    if j > i + 1 {
      OffsetsIncrease(i, j - 1);
    }
    assert Offsets[j - 1] < Offsets[j];
  }

  /** The review dates are strictly increasing, both as dates and as the
      `YYYY-MM-DD` text that is stored. */
  lemma ReviewDatesAscending(upload: Date, i: int, j: int)
    requires Valid(upload) && ReviewDates(upload).Some?
    requires 0 <= i < j < 6
    ensures Before(ReviewDates(upload).value[i], ReviewDates(upload).value[j])
    ensures Less(Format(ReviewDates(upload).value[i]), Format(ReviewDates(upload).value[j]))
  {
    ReviewDatesSpec(upload);
    var ds := ReviewDates(upload).value;
    OffsetsIncrease(i, j);
    OrdinalOrder(ds[i], ds[j]);
    FormatOrder(ds[i], ds[j]);
  }

  /** A material uploaded on 2024-01-01 is reviewed on 2024-01-01, 01-02,
      01-04, 01-08, 01-15 and 01-31. */
  lemma ReviewDatesExample(up: Date)
    requires up == Date(2024, 1, 1)
    ensures ReviewDates(up) == Some([Date(2024, 1, 1), Date(2024, 1, 2), Date(2024, 1, 4),
                                     Date(2024, 1, 8), Date(2024, 1, 15), Date(2024, 1, 31)])
  {
    assert ToOrdinal(up) == 738886;
    ReviewDatesSpec(up);
    ExampleDates(ReviewDates(up).value);
  }

  lemma ExampleDates(ds: seq<Date>)
    requires |ds| == 6
    requires forall k :: 0 <= k < 6 ==> Valid(ds[k]) && ToOrdinal(ds[k]) == 738886 + Offsets[k]
    ensures ds == [Date(2024, 1, 1), Date(2024, 1, 2), Date(2024, 1, 4),
                   Date(2024, 1, 8), Date(2024, 1, 15), Date(2024, 1, 31)]
  {
    SameOrdinal(ds[0], Date(2024, 1, 1));
    SameOrdinal(ds[1], Date(2024, 1, 2));
    SameOrdinal(ds[2], Date(2024, 1, 4));
    SameOrdinal(ds[3], Date(2024, 1, 8));
    SameOrdinal(ds[4], Date(2024, 1, 15));
    SameOrdinal(ds[5], Date(2024, 1, 31));
  }

  lemma SameOrdinal(a: Date, b: Date)
    requires Valid(a) && Valid(b) && ToOrdinal(a) == ToOrdinal(b)
    ensures a == b
  {
    OrdinalOrder(a, b);
  }

  /** The same schedule as stored text. */
  lemma ReviewDatesExampleText()
    ensures Format(Date(2024, 1, 1)) == "2024-01-01"
    ensures Format(Date(2024, 1, 31)) == "2024-01-31"
  {
  }
}
