/** Meetings: the listing (`fetch_all_meetings`), the row mapping it applies to
    each meeting, and the row `transform_meetings` writes, with the associated
    deal ids flattened into one comma-joined string. */
module Meetings {
  import opened Wrappers
  import opened Text
  import opened Properties
  import opened Calendar
  import opened Timestamps
  import opened Paging
  import opened ReferenceData
  import opened DealTransform

  /** A meeting as the API serves it. */
  datatype RawMeeting = RawMeeting(id: string, props: Props)

  /** A meeting as `fetch_all_meetings` returns it (the fields used downstream). */
  datatype Meeting = Meeting(
    meetingId: string,
    ownerId: string, ownerName: string, ownerEmail: string,
    createdById: string, createdByName: string, createdByEmail: string,
    start: Option<Instant>, end: Option<Instant>,
    durationMinutes: Option<int>)

  /** A row of the meetings snapshot table. */
  datatype MeetingRow = MeetingRow(meeting: Meeting, dealIds: Option<string>, snapshotDate: int)

  /** Python's `int(x / y)` for a positive divisor: truncation toward zero. */
  function TruncDiv(x: int, y: int): (q: int)
    requires y > 0
    ensures x >= 0 ==> q * y <= x < (q + 1) * y
    ensures x < 0 ==> (q - 1) * y < x <= q * y
  {
    if x >= 0 then x / y else -((-x) / y)
  }

  /** Whole minutes from start to end, when both read as timestamps. */
  function DurationMinutes(start: Option<Instant>, end: Option<Instant>): (r: Option<int>)
    ensures r.Some? <==> start.Some? && end.Some?
  {
    if start.Some? && end.Some? then Some(TruncDiv(end.value - start.value, MicrosPerMinute)) else None
  }

  /** The mapping `fetch_all_meetings` applies to each meeting it receives. */
  function MeetingOf(m: RawMeeting, owners: map<string, Owner>): (r: Meeting)
    ensures r.meetingId == m.id
    ensures r.ownerId == OrEmpty(Value(m.props, "hubspot_owner_id"))
    ensures r.ownerName == OwnerDetails(owners, r.ownerId).name
    ensures r.ownerEmail == OwnerDetails(owners, r.ownerId).email
    ensures r.createdById == OrEmpty(Value(m.props, "hs_created_by_user_id"))
    ensures r.createdByName == OwnerDetails(owners, r.createdById).name
    ensures r.createdByEmail == OwnerDetails(owners, r.createdById).email
    ensures r.start == Convert(Value(m.props, "hs_meeting_start_time"))
    ensures r.end == Convert(Value(m.props, "hs_meeting_end_time"))
    ensures r.durationMinutes == DurationMinutes(r.start, r.end)
    ensures r.durationMinutes.Some? <==> r.start.Some? && r.end.Some?
  {
    var ownerId := OrEmpty(Value(m.props, "hubspot_owner_id"));
    var creatorId := OrEmpty(Value(m.props, "hs_created_by_user_id"));
    var owner := OwnerDetails(owners, ownerId);
    var creator := OwnerDetails(owners, creatorId);
    var start := Convert(Value(m.props, "hs_meeting_start_time"));
    var end := Convert(Value(m.props, "hs_meeting_end_time"));
    Meeting(m.id, ownerId, owner.name, owner.email, creatorId, creator.name, creator.email,
            start, end, DurationMinutes(start, end))
  }

  /** `fetch_all_meetings`: every meeting of every page served before the first
      failed page or the first page without a successor, mapped in order. */
  function FetchAllMeetings(pages: seq<PageResult<RawMeeting>>, owners: map<string, Owner>): (ms: seq<Meeting>)
    ensures |ms| == |Collect(pages)|
    ensures forall i :: 0 <= i < |ms| ==> ms[i].meetingId == Collect(pages)[i].id
    ensures forall i :: 0 <= i < |ms| ==> ms[i] == MeetingOf(Collect(pages)[i], owners)
  {
    var raw := Collect(pages);
    seq(|raw|, i requires 0 <= i < |raw| => MeetingOf(raw[i], owners))
  }

  /** `','.join(ids) if ids else None`. */
  function JoinIds(ids: seq<string>): (r: Option<string>)
    ensures r.None? <==> |ids| == 0
  {
    if |ids| == 0 then None else Some(Join(ids, ","))
  }

  /** `transform_meetings`: each meeting with its associated deal ids and the
      snapshot's day. */
  function TransformMeetings(ms: seq<Meeting>, dealIdsOf: string -> seq<string>, snapshot: Instant)
    : (rows: seq<MeetingRow>)
    ensures |rows| == |ms|
    ensures forall i :: 0 <= i < |rows| ==>
              rows[i].meeting == ms[i] && rows[i].snapshotDate == DayOf(snapshot)
              && (rows[i].dealIds.None? <==> |dealIdsOf(ms[i].meetingId)| == 0)
              && rows[i].dealIds == JoinIds(dealIdsOf(ms[i].meetingId))
  {
    seq(|ms|, i requires 0 <= i < |ms| => MeetingRow(ms[i], JoinIds(dealIdsOf(ms[i].meetingId)), DayOf(snapshot)))
  }

  // ----- Properties -----

  /** The duration is the elapsed time in whole minutes, rounded toward zero
      whichever way the meeting runs. */
  lemma DurationTowardZero(start: Instant, end: Instant)
    ensures var d := DurationMinutes(Some(start), Some(end)).value;
            (end >= start ==> d >= 0 && d * MicrosPerMinute <= end - start < (d + 1) * MicrosPerMinute)
            && (end < start ==> d <= 0 && (d - 1) * MicrosPerMinute < end - start <= d * MicrosPerMinute)
  {
  }

  /** A meeting that ends half a minute before it starts lasts zero minutes,
      not minus one: the division truncates rather than floors. */
  lemma DurationIsNotFloored(start: Instant)
    ensures var end := start - 30 * MicrosPerSecond;
            DurationMinutes(Some(start), Some(end)) == Some(0)
            && (end - start) / MicrosPerMinute == -1
  {
  }

  /** Every fetched meeting's duration is its elapsed time in whole minutes,
      rounded toward zero, and exists exactly when both ends read. */
  lemma FetchedDurationsTowardZero(pages: seq<PageResult<RawMeeting>>, owners: map<string, Owner>, i: nat)
    requires i < |FetchAllMeetings(pages, owners)|
    ensures var m := FetchAllMeetings(pages, owners)[i];
            var props := Collect(pages)[i].props;
            && m.start == Convert(Value(props, "hs_meeting_start_time"))
            && m.end == Convert(Value(props, "hs_meeting_end_time"))
            && (m.durationMinutes.Some? <==> m.start.Some? && m.end.Some?)
            && (m.durationMinutes.Some? ==>
                  var d := m.durationMinutes.value;
                  var span := m.end.value - m.start.value;
                  (span >= 0 ==> d >= 0 && d * MicrosPerMinute <= span < (d + 1) * MicrosPerMinute)
                  && (span < 0 ==> d <= 0 && (d - 1) * MicrosPerMinute < span <= d * MicrosPerMinute))
  {
    var m := FetchAllMeetings(pages, owners)[i];
    if m.durationMinutes.Some? {
      DurationTowardZero(m.start.value, m.end.value);
    }
  }

  /** The joined id string splits back into the ids, when no id holds a comma. */
  lemma JoinIdsRoundTrip(ids: seq<string>)
    requires |ids| > 0
    requires forall i :: 0 <= i < |ids| ==> ',' !in ids[i]
    ensures JoinIds(ids).Some? && Split(JoinIds(ids).value, ',') == ids
  {
    SplitJoin(ids, ',');
  }

  /** The risk view links a meeting to a deal when the deal's id occurs
      anywhere in the joined string (`LIKE '%' || id || '%'`). */
  predicate LinkedByLike(dealIds: Option<string>, dealId: string) {
    dealIds.Some? && Contains(dealIds.value, dealId)
  }

  /** Every associated deal is linked. */
  lemma LikeFindsEveryDeal(ids: seq<string>, k: nat)
    requires k < |ids|
    ensures LinkedByLike(JoinIds(ids), ids[k])
  {
    JoinContainsParts(ids, ",", k);
  }

  /** But the link is a substring test: a meeting of deal 123 alone is also
      linked to deal 12. */
  lemma LikeLinksPrefixIds()
    ensures LinkedByLike(JoinIds(["123"]), "12")
    ensures "12" !in ["123"]
  {
    assert Join(["123"], ",") == "123";
    ContainsPrefix("123", "12");
  }
}
