/** The pipeline run (`hubspot_to_bigquery_etl`): reference data, deals, their
    rows, the deals load, then the meetings, and a status report that is
    always returned, never raised.

    Every external answer is an input: the environment check, the API
    listings and scripts, the two tables and where the warehouse fails. */
module Orchestrator {
  import opened Wrappers
  import opened Calendar
  import opened Coerce
  import opened Paging
  import opened DealFetch
  import opened ReferenceData
  import opened Contacts
  import opened DealTransform
  import opened Meetings
  import opened SnapshotLoad

  /** What the API and the warehouse answer during one run. */
  datatype World = World(
    environmentValid: bool,
    pipelineListing: Option<seq<Pipeline>>,
    activeOwners: seq<PageResult<OwnerRecord>>,
    archivedOwners: seq<PageResult<OwnerRecord>>,
    dealScript: seq<Attempt>,
    contactsOf: string -> seq<Contact>,
    meetingPages: seq<PageResult<RawMeeting>>,
    dealIdsOf: string -> seq<string>,
    read: string -> Option<real>,
    dealTable: seq<Row<DealRow>>, dealFault: Fault,
    meetingTable: seq<Row<MeetingRow>>, meetingFault: Fault)

  /** The success report's figures. */
  datatype Summary = Summary(
    dealsExtracted: nat, rowsLoaded: nat,
    meetingsExtracted: nat, meetingsLoaded: nat,
    openDeals: nat, totalPipeline: real, weightedPipeline: real,
    pipelinesFetched: nat, ownersFetched: nat)

  /** The report: a full success, a success with no deals, or an error.
      `Incomplete` stands for a deal script that ran out before the listing
      ended, which the source cannot produce. */
  datatype Status = Success(summary: Summary) | NoDeals | Error | Incomplete

  /** The report with the tables as the run leaves them. */
  datatype Run = Run(status: Status, dealTable: seq<Row<DealRow>>, meetingTable: seq<Row<MeetingRow>>)

  function DealRowsOf(rows: seq<DealRow>): (r: seq<Row<DealRow>>)
    ensures |r| == |rows|
    ensures forall i :: 0 <= i < |rows| ==> r[i] == Row(rows[i].snapshotDate, rows[i])
  {
    seq(|rows|, i requires 0 <= i < |rows| => Row(rows[i].snapshotDate, rows[i]))
  }

  function MeetingRowsOf(rows: seq<MeetingRow>): (r: seq<Row<MeetingRow>>)
    ensures |r| == |rows|
  {
    seq(|rows|, i requires 0 <= i < |rows| => Row(rows[i].snapshotDate, rows[i]))
  }

  function CountOpen(rows: seq<DealRow>): (n: nat)
    ensures n <= |rows|
  {
    if |rows| == 0 then 0 else (if rows[0].isOpen then 1 else 0) + CountOpen(rows[1..])
  }

  /** A column's sum over the open rows, missing values skipped (pandas' `sum`). */
  function SumOpen(rows: seq<DealRow>, column: DealRow -> Option<real>): real {
    if |rows| == 0 then 0.0
    else (if rows[0].isOpen && column(rows[0]).Some? then column(rows[0]).value else 0.0)
         + SumOpen(rows[1..], column)
  }

  function Amount(row: DealRow): Option<real> {
    row.amount
  }

  function Weighted(row: DealRow): Option<real> {
    row.weightedAmount
  }

  /** `hubspot_to_bigquery_etl`. */
  function RunEtl(w: World, snapshot: Instant): (r: Run)
    ensures r.status.Success? ==>
              r.status.summary.rowsLoaded == r.status.summary.dealsExtracted > 0
              && r.status.summary.openDeals <= r.status.summary.dealsExtracted
              && r.status.summary.meetingsLoaded == r.status.summary.meetingsExtracted
    ensures !w.environmentValid ==> r == Run(Error, w.dealTable, w.meetingTable)
  {
    if !w.environmentValid then Run(Error, w.dealTable, w.meetingTable)
    else
      var catalog := FetchPipelines(w.pipelineListing);
      var owners := FetchOwners(w.activeOwners, w.archivedOwners);
      match FetchAllDeals(w.dealScript, catalog.target)
      case Raised(_) => Run(Error, w.dealTable, w.meetingTable)
      case Unfinished(_, _) => Run(Incomplete, w.dealTable, w.meetingTable)
      case Completed(deals, _) =>
        if |deals| == 0 then Run(NoDeals, w.dealTable, w.meetingTable)
        else
          var rows := TransformDeals(deals, snapshot, catalog, owners, w.contactsOf, w.read);
          match Load(w.dealTable, DealRowsOf(rows), w.dealFault)
          case Raised(t) => Run(Error, t, w.meetingTable)
          case Loaded(dealTable, rowsLoaded) =>
            var meetings := FetchAllMeetings(w.meetingPages, owners);
            var meetingLoad :=
              if |meetings| == 0 then Loaded(w.meetingTable, 0)
              else Load(w.meetingTable, MeetingRowsOf(TransformMeetings(meetings, w.dealIdsOf, snapshot)),
                        w.meetingFault);
            match meetingLoad
            case Raised(t) => Run(Error, dealTable, t)
            case Loaded(meetingTable, meetingsLoaded) =>
              Run(Success(Summary(|deals|, rowsLoaded, |meetings|, meetingsLoaded,
                                  CountOpen(rows), SumOpen(rows, Amount), SumOpen(rows, Weighted),
                                  |catalog.pipelines|, |owners|)),
                  dealTable, meetingTable)
  }

  // ----- Properties -----

  /** The run reports an error exactly when something raised: the environment
      check, the deal listing, or one of the loads. */
  lemma ErrorMeansSomethingRaised(w: World, snapshot: Instant)
    ensures var r := RunEtl(w, snapshot);
            var deals := FetchAllDeals(w.dealScript, FetchPipelines(w.pipelineListing).target);
            r.status.Error? <==>
              !w.environmentValid || deals.Raised?
              || (deals.Completed? && |deals.deals| > 0
                  && (w.dealFault != NoFault
                      || (|FetchAllMeetings(w.meetingPages, FetchOwners(w.activeOwners, w.archivedOwners))| > 0
                          && w.meetingFault != NoFault)))
  {
  }

  /** A run whose listing completes without deals reports success with
      nothing extracted and leaves both tables alone. */
  lemma NoDealsLoadsNothing(w: World, snapshot: Instant)
    requires w.environmentValid
    requires var deals := FetchAllDeals(w.dealScript, FetchPipelines(w.pipelineListing).target);
             deals.Completed? && deals.deals == []
    ensures RunEtl(w, snapshot) == Run(NoDeals, w.dealTable, w.meetingTable)
  {
  }

  lemma RowsOfOneDay(rows: seq<DealRow>, d: int)
    requires forall i :: 0 <= i < |rows| ==> rows[i].snapshotDate == d
    ensures Uniform(DealRowsOf(rows), d)
  {
  }

  /** After a successful run, the snapshot's day in the deals table holds
      exactly this run's rows, and every other day is as it was. */
  lemma SuccessReplacesDealDay(w: World, snapshot: Instant, e: int)
    requires RunEtl(w, snapshot).status.Success?
    ensures var r := RunEtl(w, snapshot);
            |Select(r.dealTable, DayOf(snapshot))| == r.status.summary.dealsExtracted
            && (e != DayOf(snapshot) ==> Select(r.dealTable, e) == Select(w.dealTable, e))
  {
    var catalog := FetchPipelines(w.pipelineListing);
    var owners := FetchOwners(w.activeOwners, w.archivedOwners);
    var deals := FetchAllDeals(w.dealScript, catalog.target).deals;
    var rows := TransformDeals(deals, snapshot, catalog, owners, w.contactsOf, w.read);
    RowsOfOneDay(rows, DayOf(snapshot));
    LoadReplacesDay(w.dealTable, DealRowsOf(rows), DayOf(snapshot), e);
  }

  /** A failing meetings load still reports an error, though the deals have
      already replaced their day: the run is not atomic. */
  lemma MeetingFailureAfterDeals(w: World, snapshot: Instant)
    requires w.environmentValid && w.dealFault == NoFault && w.meetingFault == FailsBeforeDelete
    requires var deals := FetchAllDeals(w.dealScript, FetchPipelines(w.pipelineListing).target);
             deals.Completed? && |deals.deals| > 0
    requires |FetchAllMeetings(w.meetingPages, FetchOwners(w.activeOwners, w.archivedOwners))| > 0
    ensures var r := RunEtl(w, snapshot);
            var deals := FetchAllDeals(w.dealScript, FetchPipelines(w.pipelineListing).target);
            r.status.Error? && r.meetingTable == w.meetingTable
            && |Select(r.dealTable, DayOf(snapshot))| == |deals.deals|
  {
    var catalog := FetchPipelines(w.pipelineListing);
    var owners := FetchOwners(w.activeOwners, w.archivedOwners);
    var deals := FetchAllDeals(w.dealScript, catalog.target).deals;
    var rows := TransformDeals(deals, snapshot, catalog, owners, w.contactsOf, w.read);
    RowsOfOneDay(rows, DayOf(snapshot));
    LoadReplacesDay(w.dealTable, DealRowsOf(rows), DayOf(snapshot), DayOf(snapshot));
  }

  lemma {:induction false} WeightedBelowTotal(rows: seq<DealRow>)
    requires forall i :: 0 <= i < |rows| ==>
               (rows[i].amount.Some? ==> rows[i].amount.value >= 0.0)
               && (rows[i].probability.Some? ==> 0.0 <= rows[i].probability.value <= 1.0)
               && rows[i].weightedAmount == WeightedAmount(rows[i].amount, rows[i].probability)
    ensures 0.0 <= SumOpen(rows, Weighted) <= SumOpen(rows, Amount)
    decreases |rows|
  {
    if |rows| > 0 {
      WeightedBelowTotal(rows[1..]);
      var r := rows[0];
      if r.weightedAmount.Some? {
        assert r.weightedAmount.value == r.amount.value * r.probability.value;
        assert r.amount.value * r.probability.value <= r.amount.value * 1.0;
      }
    }
  }

  /** With non-negative amounts and probabilities between 0 and 1, the
      weighted pipeline never exceeds the total pipeline. */
  lemma WeightedPipelineBelowTotal(w: World, snapshot: Instant)
    requires RunEtl(w, snapshot).status.Success?
    requires var deals := FetchAllDeals(w.dealScript, FetchPipelines(w.pipelineListing).target).deals;
             forall i :: 0 <= i < |deals| ==>
               var amount := SafeFloat(Prop(deals[i], "amount"), w.read);
               var probability := SafeFloat(Prop(deals[i], "hs_deal_stage_probability"), w.read);
               (amount.Some? ==> amount.value >= 0.0) && (probability.Some? ==> 0.0 <= probability.value <= 1.0)
    ensures var s := RunEtl(w, snapshot).status.summary;
            0.0 <= s.weightedPipeline <= s.totalPipeline
  {
    var catalog := FetchPipelines(w.pipelineListing);
    var owners := FetchOwners(w.activeOwners, w.archivedOwners);
    var deals := FetchAllDeals(w.dealScript, catalog.target).deals;
    var rows := TransformDeals(deals, snapshot, catalog, owners, w.contactsOf, w.read);
    forall i | 0 <= i < |rows|
      ensures (rows[i].amount.Some? ==> rows[i].amount.value >= 0.0)
              && (rows[i].probability.Some? ==> 0.0 <= rows[i].probability.value <= 1.0)
              && rows[i].weightedAmount == WeightedAmount(rows[i].amount, rows[i].probability)
    {
      var key := OrEmpty(Prop(deals[i], "hs_object_id"));
      assert rows[i] == TransformDeal(deals[i], snapshot, catalog, owners, w.contactsOf(key), w.read);
    }
    WeightedBelowTotal(rows);
  }
}
