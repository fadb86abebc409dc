/**
 * The sidebar of the dashboard script: the date-range filter followed by the
 * cascade of select boxes (region, then purpose, then intervention, then
 * status). The script rebinds `df` after each step and builds each select
 * box's options from the rows the earlier steps left, so later menus narrow
 * with earlier picks.
 */
module Sidebar {
  import opened StringOrder
  import opened Counting
  import opened Incidents

  /** A calendar date, by its day ordinal: Python compares `date` values this way. */
  type Date = int

  /**
   * What the two date widgets give the script: the oldest and latest dates of
   * the dataset, the picked start and end dates, and those two picked dates
   * already formatted as `%Y-%m-%dT%H:%M:%S+03:00` (midnight, UTC+3).
   */
  datatype DatePicks = DatePicks(
    oldest: Date,
    latest: Date,
    start: Date,
    end: Date,
    startStamp: string,
    endStamp: string)

  /** The values the four select boxes return, in cascade order. */
  datatype Picks = Picks(region: string, purpose: string, intervention: string, status: string)

  /** The option lists the four select boxes are given. */
  datatype Menus = Menus(
    region: seq<string>,
    purpose: seq<string>,
    intervention: seq<string>,
    status: seq<string>)

  /** The picked range is the whole dataset: the script skips the date filter. */
  predicate FullRange(d: DatePicks)
  {
    d.start == d.oldest && d.end == d.latest
  }

  /** The picked range is refused with a warning: not the full range, and the end is not after the start. */
  predicate RangeRejected(d: DatePicks)
  {
    !FullRange(d) && d.end <= d.start
  }

  /** The mask the date step applies, if any. */
  function DateMasks(d: DatePicks): seq<Criterion>
  {
    if FullRange(d) then []
    else if d.end > d.start then [TimeIn(d.startStamp, d.endStamp)]
    else []
  }

  /**
   * The mask a select box applies, if any: an empty pick is falsy in Python
   * and skips the step, and `'All'` leaves the rows as they are.
   */
  function PickMasks(c: Column, pick: string): seq<Criterion>
  {
    if pick == "" || pick == AllChoice then [] else [Equals(c, pick)]
  }

  function UpToRegion(d: DatePicks, p: Picks): seq<Criterion>
  {
    DateMasks(d) + PickMasks(Region, p.region)
  }

  function UpToPurpose(d: DatePicks, p: Picks): seq<Criterion>
  {
    UpToRegion(d, p) + PickMasks(Purpose, p.purpose)
  }

  function UpToIntervention(d: DatePicks, p: Picks): seq<Criterion>
  {
    UpToPurpose(d, p) + PickMasks(Intervention, p.intervention)
  }

  /** Every mask the sidebar applies, in the order the script applies them. */
  function Masks(d: DatePicks, p: Picks): seq<Criterion>
  {
    UpToIntervention(d, p) + PickMasks(Status, p.status)
  }

  /** The value the shared `my_data` holder ends with: the last non-empty pick. */
  function LastPick(p: Picks, before: string): string
  {
    if p.status != "" then p.status
    else if p.intervention != "" then p.intervention
    else if p.purpose != "" then p.purpose
    else if p.region != "" then p.region
    else before
  }

  /** Every pick is one of the options its select box was given. */
  predicate Offered(p: Picks, m: Menus)
  {
    p.region in m.region && p.purpose in m.purpose
    && p.intervention in m.intervention && p.status in m.status
  }

  /** One select-box step: store the pick in `my_data`, then filter unless it is `'All'`. */
  method ApplyPick(rows: seq<Row>, c: Column, pick: string, myData: string)
    returns (out: seq<Row>, myDataAfter: string)
    ensures out == Select(rows, PickMasks(c, pick))
    ensures myDataAfter == if pick == "" then myData else pick
  {
    out, myDataAfter := rows, myData;
    if pick != "" {
      myDataAfter := pick;
      if myDataAfter == AllChoice {
        out := rows;
      } else {
        out := Where(rows, Equals(c, myDataAfter));
      }
    }
    SelectNothing(rows);
  }

  /**
   * The sidebar script: the date step, then each select box in cascade
   * order, each offered the options of the rows left so far.
   */
  method RunSidebar(data: seq<Row>, d: DatePicks, p: Picks, myDataBefore: string)
    returns (df: seq<Row>, warned: bool, menus: Menus, myData: string)
    ensures df == Select(data, Masks(d, p))
    ensures warned <==> RangeRejected(d)
    ensures menus.region == Options(Select(data, DateMasks(d)), Region)
    ensures menus.purpose == Options(Select(data, UpToRegion(d, p)), Purpose)
    ensures menus.intervention == Options(Select(data, UpToPurpose(d, p)), Intervention)
    ensures menus.status == Options(Select(data, UpToIntervention(d, p)), Status)
    ensures myData == LastPick(p, myDataBefore)
    ensures Offered(p, menus) ==> (|df| > 0 <==> |Select(data, DateMasks(d))| > 0)
  {
    df := data;
    warned := false;
    if FullRange(d) {
    } else if d.end > d.start {
      df := Where(df, TimeIn(d.startStamp, d.endStamp));
    } else {
      warned := true;
    }
    SelectNothing(data);
    assert df == Select(data, DateMasks(d));

    var regionMenu := Options(df, Region);
    ghost var afterDate := df;
    df, myData := ApplyPick(df, Region, p.region, myDataBefore);
    SelectThenSelect(data, DateMasks(d), PickMasks(Region, p.region));
    ghost var afterRegion := df;

    var purposeMenu := Options(df, Purpose);
    df, myData := ApplyPick(df, Purpose, p.purpose, myData);
    SelectThenSelect(data, UpToRegion(d, p), PickMasks(Purpose, p.purpose));
    ghost var afterPurpose := df;

    var interventionMenu := Options(df, Intervention);
    df, myData := ApplyPick(df, Intervention, p.intervention, myData);
    SelectThenSelect(data, UpToPurpose(d, p), PickMasks(Intervention, p.intervention));
    ghost var afterIntervention := df;

    var statusMenu := Options(df, Status);
    df, myData := ApplyPick(df, Status, p.status, myData);
    SelectThenSelect(data, UpToIntervention(d, p), PickMasks(Status, p.status));

    menus := Menus(regionMenu, purposeMenu, interventionMenu, statusMenu);
    if Offered(p, menus) {
      PickFromMenuKeepsSomeRows(afterDate, Region, p.region);
      PickFromMenuKeepsSomeRows(afterRegion, Purpose, p.purpose);
      PickFromMenuKeepsSomeRows(afterPurpose, Intervention, p.intervention);
      PickFromMenuKeepsSomeRows(afterIntervention, Status, p.status);
    }
  }

  /** Whether a row passes the date step. */
  predicate PassesDate(d: DatePicks, r: Row)
  {
    FullRange(d) || d.end <= d.start
    || (AtMost(d.startStamp, r.incidentDateTime) && Less(r.incidentDateTime, d.endStamp))
  }

  /** Whether a row passes a select-box step. */
  predicate PassesPick(c: Column, pick: string, r: Row)
  {
    pick == "" || pick == AllChoice || Field(r, c) == pick
  }

  lemma DateMasksMeaning(d: DatePicks, r: Row)
    ensures HoldsAll(DateMasks(d), r) <==> PassesDate(d, r)
  {
    if !FullRange(d) && d.end > d.start {
      HoldsOne(TimeIn(d.startStamp, d.endStamp), r);
    }
  }

  lemma PickMasksMeaning(c: Column, pick: string, r: Row)
    ensures HoldsAll(PickMasks(c, pick), r) <==> PassesPick(c, pick, r)
  {
    if pick != "" && pick != AllChoice {
      HoldsOne(Equals(c, pick), r);
    }
  }

  /** A row passes the whole sidebar exactly when it passes each step. */
  lemma MasksMeaning(d: DatePicks, p: Picks, r: Row)
    ensures HoldsAll(Masks(d, p), r) <==>
      PassesDate(d, r) && PassesPick(Region, p.region, r) && PassesPick(Purpose, p.purpose, r)
      && PassesPick(Intervention, p.intervention, r) && PassesPick(Status, p.status, r)
  {
    DateMasksMeaning(d, r);
    PickMasksMeaning(Region, p.region, r);
    PickMasksMeaning(Purpose, p.purpose, r);
    PickMasksMeaning(Intervention, p.intervention, r);
    PickMasksMeaning(Status, p.status, r);
    HoldsAllAppend(DateMasks(d), PickMasks(Region, p.region), r);
    HoldsAllAppend(UpToRegion(d, p), PickMasks(Purpose, p.purpose), r);
    HoldsAllAppend(UpToPurpose(d, p), PickMasks(Intervention, p.intervention), r);
    HoldsAllAppend(UpToIntervention(d, p), PickMasks(Status, p.status), r);
  }

  /**
   * The rows the sidebar leaves are the loaded rows that pass the date step
   * and every select box, in their loaded order; so never more than were loaded.
   */
  lemma SidebarKeeps(data: seq<Row>, d: DatePicks, p: Picks)
    ensures SubseqOf(Select(data, Masks(d, p)), data)
    ensures |Select(data, Masks(d, p))| <= |data|
    ensures forall r :: r in Select(data, Masks(d, p)) <==>
      r in data && PassesDate(d, r) && PassesPick(Region, p.region, r) && PassesPick(Purpose, p.purpose, r)
      && PassesPick(Intervention, p.intervention, r) && PassesPick(Status, p.status, r)
  {
    SelectIsSubsequence(data, Masks(d, p));
    SelectMembers(data, Masks(d, p));
    forall r {
      MasksMeaning(d, p, r);
    }
  }

  /** With the full date range and `'All'` in every select box, every row is kept. */
  lemma {:induction false} DefaultsKeepEveryRow(data: seq<Row>, d: DatePicks, p: Picks)
    requires FullRange(d)
    requires p.region == AllChoice && p.purpose == AllChoice
    requires p.intervention == AllChoice && p.status == AllChoice
    ensures Select(data, Masks(d, p)) == data
  {
    assert Masks(d, p) == [];
    SelectNothing(data);
  }

  /** When the picked range is the dataset's whole range, the date step changes nothing. */
  lemma {:induction false} FullRangeSkipsDateStep(data: seq<Row>, d: DatePicks)
    requires FullRange(d)
    ensures Select(data, DateMasks(d)) == data
  {
    SelectNothing(data);
  }

  /**
   * When the end comes after the start, a row survives the date step exactly
   * when `startStamp <= incident_date_time < endStamp` as strings, and the
   * survivors keep their order.
   */
  lemma DateWindow(data: seq<Row>, d: DatePicks)
    requires !FullRange(d) && d.end > d.start
    ensures SubseqOf(Select(data, DateMasks(d)), data)
    ensures forall r :: r in Select(data, DateMasks(d)) <==>
      r in data && AtMost(d.startStamp, r.incidentDateTime) && Less(r.incidentDateTime, d.endStamp)
  {
    SelectIsSubsequence(data, DateMasks(d));
    SelectMembers(data, DateMasks(d));
    forall r {
      DateMasksMeaning(d, r);
    }
  }

  /**
   * A row on or after the end stamp never survives the date step, whatever its
   * other fields: the end date is excluded from its midnight on.
   */
  lemma DateWindowExcludesEnd(data: seq<Row>, d: DatePicks, r: Row)
    requires !FullRange(d) && d.end > d.start
    requires AtMost(d.endStamp, r.incidentDateTime)
    ensures r !in Select(data, DateMasks(d))
  {
    DateWindow(data, d);
    LessIsNotAtMost(r.incidentDateTime, d.endStamp);
  }

  /**
   * A range that is not the full one and whose end is not after its start
   * (a single day included) is refused: the date step leaves every row.
   */
  lemma {:induction false} RejectedRangeKeepsRows(data: seq<Row>, d: DatePicks)
    requires RangeRejected(d)
    ensures Select(data, DateMasks(d)) == data
  {
    SelectNothing(data);
  }

  /**
   * `'All'` (or an empty pick) keeps the rows as they are; any other pick keeps
   * exactly the rows whose column equals it, in their order.
   */
  lemma PickMeaning(rows: seq<Row>, c: Column, pick: string)
    ensures pick == "" || pick == AllChoice ==> Select(rows, PickMasks(c, pick)) == rows
    ensures pick != "" && pick != AllChoice ==>
      && SubseqOf(Select(rows, PickMasks(c, pick)), rows)
      && forall r :: r in Select(rows, PickMasks(c, pick)) <==> r in rows && Field(r, c) == pick
  {
    SelectNothing(rows);
    SelectIsSubsequence(rows, PickMasks(c, pick));
    SelectMembers(rows, PickMasks(c, pick));
    forall r {
      PickMasksMeaning(c, pick, r);
    }
  }

  /**
   * A pick taken from the menu built from `rows` empties the rows only if
   * they were empty already.
   */
  lemma {:induction false} PickFromMenuKeepsSomeRows(rows: seq<Row>, c: Column, pick: string)
    requires pick in Options(rows, c)
    ensures |Select(rows, PickMasks(c, pick))| > 0 <==> |rows| > 0
  {
    SelectNothing(rows);
    if pick != "" && pick != AllChoice {
      PickFromOptionsKeepsRows(rows, c, pick);
    }
  }

  /** `q` picks the same as `p` wherever `p` picks a value. */
  predicate Narrows(q: Picks, p: Picks)
  {
    && (p.region == "" || p.region == AllChoice || q.region == p.region)
    && (p.purpose == "" || p.purpose == AllChoice || q.purpose == p.purpose)
    && (p.intervention == "" || p.intervention == AllChoice || q.intervention == p.intervention)
    && (p.status == "" || p.status == AllChoice || q.status == p.status)
  }

  /**
   * Narrowing any select box from `'All'` to a value keeps a part of the
   * rows kept before, in the same order, and never more of them.
   */
  lemma NarrowingNeverGrows(data: seq<Row>, d: DatePicks, p: Picks, q: Picks)
    requires Narrows(q, p)
    ensures SubseqOf(Select(data, Masks(d, q)), Select(data, Masks(d, p)))
    ensures |Select(data, Masks(d, q))| <= |Select(data, Masks(d, p))|
  {
    forall r | r in data && HoldsAll(Masks(d, q), r)
      ensures HoldsAll(Masks(d, p), r)
    {
      MasksMeaning(d, q, r);
      MasksMeaning(d, p, r);
    }
    SelectStronger(data, Masks(d, q), Masks(d, p));
  }
}
