/** The per-deal risk classifier of the `v_deals_at_risk` view: the flags of
    its `risk_flags` step and the final selection's `is_at_risk`,
    `primary_risk_reason` and `risk_flag_count`.

    SQL NULL is `None`; the view's boolean expressions are evaluated in SQL's
    three-valued logic, and a `CASE WHEN` arm fires only on TRUE. */
module RiskView {
  import opened Wrappers
  import opened Text
  import opened Calendar
  import opened Meetings
  import opened DealTransform

  // ----- Three-valued logic -----

  type Tri = Option<bool>

  function And3(a: Tri, b: Tri): (r: Tri)
    ensures r == Some(true) <==> a == Some(true) && b == Some(true)
    ensures r == Some(false) <==> a == Some(false) || b == Some(false)
  {
    if a == Some(false) || b == Some(false) then Some(false)
    else if a.Some? && b.Some? then assert a.value && b.value; Some(true)
    else None
  }

  function Or3(a: Tri, b: Tri): (r: Tri)
    ensures r == Some(true) <==> a == Some(true) || b == Some(true)
    ensures r == Some(false) <==> a == Some(false) && b == Some(false)
  {
    if a == Some(true) || b == Some(true) then Some(true)
    else if a.Some? && b.Some? then assert !a.value && !b.value; Some(false)
    else None
  }

  function Not3(a: Tri): (r: Tri)
    ensures r == None <==> a == None
    ensures r.Some? ==> r.value == !a.value
  {
    if a.Some? then Some(!a.value) else None
  }

  function IsNull<T>(x: Option<T>): Tri {
    Some(x.None?)
  }

  /** Comparisons of a nullable number with a constant. */
  function AtLeast(x: Option<real>, c: real): Tri {
    if x.Some? then Some(x.value >= c) else None
  }

  function Below(x: Option<real>, c: real): Tri {
    if x.Some? then Some(x.value < c) else None
  }

  function Exceeds(x: Option<int>, c: int): Tri {
    if x.Some? then Some(x.value > c) else None
  }

  function AtMost(x: Option<int>, c: int): Tri {
    if x.Some? then Some(x.value <= c) else None
  }

  function Equals(x: Option<string>, c: string): Tri {
    if x.Some? then Some(x.value == c) else None
  }

  /** `LOWER(x) LIKE '%needle%'`. */
  function LowerLike(x: Option<string>, needle: string): Tri {
    if x.Some? then Some(Contains(Lower(x.value), needle)) else None
  }

  /** `LOWER(COALESCE(x, '')) NOT LIKE '%w%'` for every word: never NULL. */
  predicate NoneOf(x: Option<string>, words: seq<string>) {
    forall i :: 0 <= i < |words| ==> !Contains(Lower(x.GetOr("")), words[i])
  }

  /** One `WHEN cond THEN result` arm. */
  datatype Arm = Arm(cond: Tri, result: bool)

  /** Arm `k` fires: its condition is TRUE and no earlier arm's from `i` on is. */
  predicate FiresFrom(arms: seq<Arm>, i: nat, k: int) {
    i <= k < |arms| && arms[k].cond == Some(true)
    && forall j :: i <= j < k ==> arms[j].cond != Some(true)
  }

  /** `CASE WHEN ... ELSE FALSE END` evaluated from arm `i` on. */
  function CaseWhenFrom(arms: seq<Arm>, i: nat): (r: bool)
    requires i <= |arms|
    ensures r <==> exists k :: FiresFrom(arms, i, k) && arms[k].result
    decreases |arms| - i
  {
    if i == |arms| then false
    else if arms[i].cond == Some(true) then
      assert FiresFrom(arms, i, i);
      arms[i].result
    else
      var r := CaseWhenFrom(arms, i + 1);
      assert forall k :: FiresFrom(arms, i, k) <==> FiresFrom(arms, i + 1, k);
      r
  }

  /** `CASE WHEN ... ELSE FALSE END`: the result of the first arm whose
      condition is TRUE, FALSE when none is. */
  function CaseWhen(arms: seq<Arm>): (r: bool)
    ensures r <==> exists k :: FiresFrom(arms, 0, k) && arms[k].result
  {
    CaseWhenFrom(arms, 0)
  }

  lemma CaseWhenTwo(a: Arm, b: Arm)
    ensures CaseWhen([a, b]) == if a.cond == Some(true) then a.result else b.cond == Some(true) && b.result
  {
    var arms := [a, b];
    assert CaseWhenFrom(arms, 2) == false;
    assert CaseWhenFrom(arms, 1) == (b.cond == Some(true) && b.result);
    assert CaseWhen(arms) == CaseWhenFrom(arms, 0);
  }

  lemma CaseWhenOne(a: Arm)
    ensures CaseWhen([a]) == (a.cond == Some(true) && a.result)
  {
    var arms := [a];
    assert CaseWhenFrom(arms, 1) == false;
    assert CaseWhen(arms) == CaseWhenFrom(arms, 0);
  }

  lemma CaseWhenFour(a: Arm, b: Arm, c: Arm, d: Arm)
    ensures CaseWhen([a, b, c, d]) ==
              if a.cond == Some(true) then a.result
              else if b.cond == Some(true) then b.result
              else if c.cond == Some(true) then c.result
              else d.cond == Some(true) && d.result
  {
    var arms := [a, b, c, d];
    assert CaseWhenFrom(arms, 4) == false;
    assert CaseWhenFrom(arms, 3) == (d.cond == Some(true) && d.result);
    assert CaseWhenFrom(arms, 2) == if c.cond == Some(true) then c.result else CaseWhenFrom(arms, 3);
    assert CaseWhenFrom(arms, 1) == if b.cond == Some(true) then b.result else CaseWhenFrom(arms, 2);
    assert CaseWhen(arms) == CaseWhenFrom(arms, 0);
  }

  // ----- The deal row and its flags -----

  /** The columns of a deals snapshot row the view reads, and whether the
      meetings join found an upcoming meeting. */
  datatype RiskInput = RiskInput(
    hsArr: Option<real>, amount: Option<real>,
    ownerName: Option<string>,
    companyName: Option<string>, companyIndustry: Option<string>,
    stageLabel: Option<string>, daysInStage: Option<int>,
    lastModified: Option<Instant>, lastContacted: Option<Instant>,
    nextStep: Option<string>,
    hasUpcomingMeeting: bool)

  const EnterpriseArr: real := 100000.0

  /** `COALESCE(hs_arr, amount)`. */
  function Arr(x: RiskInput): Option<real> {
    if x.hsArr.Some? then x.hsArr else x.amount
  }

  /** `DATE_DIFF(CURRENT_DATE(), DATE(ts), DAY)`. */
  function DaysSinceDay(ts: Option<Instant>, today: int): (r: Option<int>)
    ensures r.Some? <==> ts.Some?
  {
    if ts.Some? then Some(today - DayOf(ts.value)) else None
  }

  function DaysSinceActivity(x: RiskInput, today: int): Option<int> {
    DaysSinceDay(x.lastModified, today)
  }

  predicate IsEnterprise(x: RiskInput) {
    AtLeast(Arr(x), EnterpriseArr) == Some(true)
  }

  /** The ownership flag as the view writes it. */
  predicate OwnershipAsWritten(x: RiskInput) {
    Or3(Or3(LowerLike(x.ownerName, "kurt"), LowerLike(x.ownerName, "hanan")),
        LowerLike(x.ownerName, "deactivated")) == Some(true)
  }

  /** The ownership flag as its comment describes it: Kurt, Hanan or a
      deactivated owner, but not Chanan. */
  predicate Ownership(x: RiskInput) {
    Or3(Or3(LowerLike(x.ownerName, "kurt"),
            And3(LowerLike(x.ownerName, "hanan"), Not3(LowerLike(x.ownerName, "chanan")))),
        LowerLike(x.ownerName, "deactivated")) == Some(true)
  }

  predicate PendingRebook(x: RiskInput) {
    LowerLike(x.ownerName, "chanan") == Some(true)
  }

  /** The two arms `is_stalled` and `is_ghosted` both open with. */
  function MeetingShield(x: RiskInput): Arm {
    Arm(Some(x.hasUpcomingMeeting), false)
  }

  function ActivityShield(x: RiskInput, today: int): Arm {
    Arm(AtMost(DaysSinceActivity(x, today), 7), false)
  }

  predicate Stalled(x: RiskInput, today: int) {
    CaseWhen([
      MeetingShield(x), ActivityShield(x, today),
      Arm(And3(AtLeast(Arr(x), EnterpriseArr), Exceeds(x.daysInStage, 30)), true),
      Arm(And3(Below(Arr(x), EnterpriseArr), Exceeds(x.daysInStage, 14)), true)])
  }

  /** Untouched and uncontacted (a NULL last contact counts as stale) for
      more than `limit` days. */
  function Silent(x: RiskInput, today: int, limit: int): Tri {
    var contacted := DaysSinceDay(x.lastContacted, today);
    And3(Or3(IsNull(contacted), Exceeds(contacted, limit)), Exceeds(DaysSinceActivity(x, today), limit))
  }

  predicate Ghosted(x: RiskInput, today: int) {
    CaseWhen([
      MeetingShield(x), ActivityShield(x, today),
      Arm(And3(AtLeast(Arr(x), EnterpriseArr), Silent(x, today, 10)), true),
      Arm(And3(Below(Arr(x), EnterpriseArr), Silent(x, today, 5)), true)])
  }

  const NameWordsNoIndustry: seq<string> :=
    ["3pl", "fulfillment", "logistics", "warehouse", "shipping", "freight", "distribution"]
  const IndustryWords: seq<string> := ["logistics", "transport", "warehouse", "supply chain"]
  const NameWords: seq<string> := ["3pl", "fulfillment", "logistics"]

  /** The first arm: no industry, and a name with none of the seven words. */
  function NoIndustryArm(x: RiskInput): Arm {
    Arm(And3(IsNull(x.companyIndustry), Some(NoneOf(x.companyName, NameWordsNoIndustry))), true)
  }

  /** The second arm's test: an industry (a missing one read as '') with none of
      the industry words, and a name with none of the three name words. */
  function IndustryTest(x: RiskInput): Tri {
    Some(NoneOf(x.companyIndustry, IndustryWords) && NoneOf(x.companyName, NameWords))
  }

  /** The Not-3PL flag as the view writes it: a company without an industry
      that fails the first arm still reaches the second. */
  predicate NotThreePlAsWritten(x: RiskInput) {
    CaseWhen([NoIndustryArm(x), Arm(IndustryTest(x), true)])
  }

  /** The Not-3PL flag with the second arm confined to companies that have an
      industry, so the first arm alone decides for the others. */
  predicate NotThreePl(x: RiskInput) {
    CaseWhen([NoIndustryArm(x), Arm(And3(Not3(IsNull(x.companyIndustry)), IndustryTest(x)), true)])
  }

  predicate StalledDelayed(x: RiskInput) {
    CaseWhen([
      Arm(And3(And3(LowerLike(x.stageLabel, "delay"), Exceeds(x.daysInStage, 30)),
               Or3(IsNull(x.nextStep), Equals(x.nextStep, ""))), true)])
  }

  // ----- The final selection -----

  datatype Flags = Flags(ownership: bool, pendingRebook: bool, stalled: bool, ghosted: bool,
                         notThreePl: bool, stalledDelayed: bool, enterprise: bool)

  datatype Assessment = Assessment(flags: Flags, atRisk: bool, reason: string, count: nat)

  function Count(b: bool): nat {
    if b then 1 else 0
  }

  /** The reason, by the first flag that holds in priority order. */
  function Reason(f: Flags): string {
    if f.pendingRebook then "Pending Rebook (Chanan)"
    else if f.ownership then "Ownership Risk"
    else if f.stalled && f.ghosted then "Stalled & Ghosted"
    else if f.stalled then (if f.enterprise then "Stalled (>30 days - Enterprise)" else "Stalled (>14 days)")
    else if f.ghosted then (if f.enterprise then "Ghosted (>10 days - Enterprise)" else "Ghosted (>5 days)")
    else if f.notThreePl then "Not 3PL Match"
    else "Healthy"
  }

  function Select(f: Flags): (a: Assessment)
    ensures a.count <= 4
    ensures a.atRisk <==> a.count > 0
  {
    Assessment(f, f.ownership || f.stalled || f.ghosted || f.notThreePl, Reason(f),
               Count(f.ownership) + Count(f.stalled) + Count(f.ghosted) + Count(f.notThreePl))
  }

  /** The view's row given the ownership and Not-3PL flags; the readings of
      those two flags below differ in nothing else. */
  function Evaluate(x: RiskInput, today: int, ownership: bool, notThreePl: bool): Assessment {
    Select(Flags(ownership, PendingRebook(x), Stalled(x, today), Ghosted(x, today),
                 notThreePl, StalledDelayed(x), IsEnterprise(x)))
  }

  /** The view as written. */
  function AssessAsWritten(x: RiskInput, today: int): (a: Assessment)
    ensures a.atRisk <==> OwnershipAsWritten(x) || Stalled(x, today) || Ghosted(x, today) || NotThreePlAsWritten(x)
    ensures a.reason == "Healthy" <==> !a.atRisk && !PendingRebook(x)
  {
    Evaluate(x, today, OwnershipAsWritten(x), NotThreePlAsWritten(x))
  }

  /** The view with the ownership and Not-3PL flags as their comments and
      arms describe them. */
  function Assess(x: RiskInput, today: int): (a: Assessment)
    ensures a.atRisk <==> Ownership(x) || Stalled(x, today) || Ghosted(x, today) || NotThreePl(x)
    ensures a.reason == "Healthy" <==> !a.atRisk && !PendingRebook(x)
  {
    Evaluate(x, today, Ownership(x), NotThreePl(x))
  }

  /** The `deal_meetings` join: some meeting of the same snapshot day whose
      joined id string mentions the deal starts now or later. */
  function HasUpcomingMeeting(dealId: string, day: int, meetings: seq<MeetingRow>, now: Instant): (r: bool)
    ensures r <==> exists i :: 0 <= i < |meetings| && Upcoming(dealId, day, meetings[i], now)
  {
    if |meetings| == 0 then false
    else Upcoming(dealId, day, meetings[0], now) || HasUpcomingMeeting(dealId, day, meetings[1..], now)
  }

  predicate Upcoming(dealId: string, day: int, m: MeetingRow, now: Instant) {
    LinkedByLike(m.dealIds, dealId) && m.snapshotDate == day
    && m.meeting.start.Some? && m.meeting.start.value >= now
  }

  /** The snapshot columns the view reads that the deal row of this model does
      not derive: they are copied from the deal's properties. */
  datatype DealColumns = DealColumns(
    hsArr: Option<real>, companyName: Option<string>, companyIndustry: Option<string>,
    lastModified: Option<Instant>, lastContacted: Option<Instant>, nextStep: Option<string>)

  /** What `risk_flags` reads for a written deal row: its derived columns, the
      copied ones, and the `deal_meetings` join over the meeting rows. */
  function RiskInputOf(row: DealRow, cols: DealColumns, meetings: seq<MeetingRow>, now: Instant): (x: RiskInput)
    ensures x.amount == row.amount && x.ownerName == Some(row.ownerName)
    ensures x.stageLabel == Some(row.stageLabel) && x.daysInStage == row.daysInCurrentStage
    ensures x.hsArr == cols.hsArr && x.companyName == cols.companyName && x.companyIndustry == cols.companyIndustry
    ensures x.lastModified == cols.lastModified && x.lastContacted == cols.lastContacted
    ensures x.nextStep == cols.nextStep
    ensures x.hasUpcomingMeeting <==>
              exists i :: 0 <= i < |meetings| && Upcoming(row.dealId, row.snapshotDate, meetings[i], now)
  {
    RiskInput(cols.hsArr, row.amount, Some(row.ownerName), cols.companyName, cols.companyIndustry,
              Some(row.stageLabel), row.daysInCurrentStage, cols.lastModified, cols.lastContacted,
              cols.nextStep, HasUpcomingMeeting(row.dealId, row.snapshotDate, meetings, now))
  }

  // ----- Properties -----

  /** An upcoming meeting or activity within the last week rules out both
      stalled and ghosted. */
  lemma RecentActivityShields(x: RiskInput, today: int)
    requires x.hasUpcomingMeeting || AtMost(DaysSinceActivity(x, today), 7) == Some(true)
    ensures !Stalled(x, today) && !Ghosted(x, today)
  {
    CaseWhenFour(MeetingShield(x), ActivityShield(x, today),
      Arm(And3(AtLeast(Arr(x), EnterpriseArr), Exceeds(x.daysInStage, 30)), true),
      Arm(And3(Below(Arr(x), EnterpriseArr), Exceeds(x.daysInStage, 14)), true));
    CaseWhenFour(MeetingShield(x), ActivityShield(x, today),
      Arm(And3(AtLeast(Arr(x), EnterpriseArr), Silent(x, today, 10)), true),
      Arm(And3(Below(Arr(x), EnterpriseArr), Silent(x, today, 5)), true));
  }

  /** A same-day meeting row that names the deal and starts now or later keeps
      the written deal from being stalled or ghosted. */
  lemma UpcomingMeetingShields(row: DealRow, cols: DealColumns, meetings: seq<MeetingRow>, now: Instant,
                               today: int, i: nat)
    requires i < |meetings| && Upcoming(row.dealId, row.snapshotDate, meetings[i], now)
    ensures var x := RiskInputOf(row, cols, meetings, now);
            !Stalled(x, today) && !Ghosted(x, today)
  {
    RecentActivityShields(RiskInputOf(row, cols, meetings, now), today);
  }

  /** Stalled: no upcoming meeting, no activity within the week, and more than
      30 days in stage for an enterprise deal or more than 14 otherwise; a
      missing ARR or day count never stalls. */
  lemma StalledExactly(x: RiskInput, today: int)
    ensures Stalled(x, today) <==>
              !x.hasUpcomingMeeting
              && !(DaysSinceActivity(x, today).Some? && DaysSinceActivity(x, today).value <= 7)
              && Arr(x).Some? && x.daysInStage.Some?
              && ((Arr(x).value >= EnterpriseArr && x.daysInStage.value > 30)
                  || (Arr(x).value < EnterpriseArr && x.daysInStage.value > 14))
  {
    CaseWhenFour(MeetingShield(x), ActivityShield(x, today),
      Arm(And3(AtLeast(Arr(x), EnterpriseArr), Exceeds(x.daysInStage, 30)), true),
      Arm(And3(Below(Arr(x), EnterpriseArr), Exceeds(x.daysInStage, 14)), true));
  }

  /** Ghosted: the same shields, then more than 10 days (enterprise) or 5
      days untouched, and no contact within that bound, a never-contacted deal
      counting as stale. */
  lemma GhostedExactly(x: RiskInput, today: int)
    ensures var activity := DaysSinceActivity(x, today);
            var contacted := DaysSinceDay(x.lastContacted, today);
            var limit := if Arr(x).Some? && Arr(x).value >= EnterpriseArr then 10 else 5;
            Ghosted(x, today) <==>
              !x.hasUpcomingMeeting
              && !(activity.Some? && activity.value <= 7)
              && Arr(x).Some? && activity.Some? && activity.value > limit
              && (contacted.None? || contacted.value > limit)
  {
    CaseWhenFour(MeetingShield(x), ActivityShield(x, today),
      Arm(And3(AtLeast(Arr(x), EnterpriseArr), Silent(x, today, 10)), true),
      Arm(And3(Below(Arr(x), EnterpriseArr), Silent(x, today, 5)), true));
  }

  /** The count is the number of the four risk flags that hold, and the deal is
      at risk exactly when it is positive; the pending-rebook and
      stalled-delayed flags never count. */
  lemma CountIsFlags(x: RiskInput, today: int, ownership: bool, notThreePl: bool)
    ensures var a := Evaluate(x, today, ownership, notThreePl);
            a.count == Count(ownership) + Count(Stalled(x, today)) + Count(Ghosted(x, today)) + Count(notThreePl)
            && (a.atRisk <==> ownership || Stalled(x, today) || Ghosted(x, today) || notThreePl)
            && a.count <= 4
  {
  }

  /** The reason is "Healthy" exactly when none of the five reason flags
      holds. */
  lemma HealthyExactly(f: Flags)
    ensures Reason(f) == "Healthy" <==>
              !f.pendingRebook && !f.ownership && !f.stalled && !f.ghosted && !f.notThreePl
  {
  }

  /** Each reason names the first flag, in priority order, that holds: pending
      rebook, ownership, stalled and ghosted together, stalled, ghosted, Not
      3PL. Read backwards, the reason tells exactly which higher flags are off. */
  lemma ReasonPriority(f: Flags)
    ensures Reason(f) == "Pending Rebook (Chanan)" <==> f.pendingRebook
    ensures Reason(f) == "Ownership Risk" <==> !f.pendingRebook && f.ownership
    ensures Reason(f) == "Stalled & Ghosted" <==> !f.pendingRebook && !f.ownership && f.stalled && f.ghosted
    ensures Reason(f) == "Stalled (>30 days - Enterprise)" <==>
              !f.pendingRebook && !f.ownership && f.stalled && !f.ghosted && f.enterprise
    ensures Reason(f) == "Stalled (>14 days)" <==>
              !f.pendingRebook && !f.ownership && f.stalled && !f.ghosted && !f.enterprise
    ensures Reason(f) == "Ghosted (>10 days - Enterprise)" <==>
              !f.pendingRebook && !f.ownership && !f.stalled && f.ghosted && f.enterprise
    ensures Reason(f) == "Ghosted (>5 days)" <==>
              !f.pendingRebook && !f.ownership && !f.stalled && f.ghosted && !f.enterprise
    ensures Reason(f) == "Not 3PL Match" <==>
              !f.pendingRebook && !f.ownership && !f.stalled && !f.ghosted && f.notThreePl
  {
  }

  /** A pending-rebook deal is at risk only through another flag: the flag
      itself sets the reason but not the risk. */
  lemma PendingRebookDoesNotCount(x: RiskInput, today: int, ownership: bool, notThreePl: bool)
    ensures var a := Evaluate(x, today, ownership, notThreePl);
            a.flags.pendingRebook == PendingRebook(x)
            && a.atRisk == (ownership || Stalled(x, today) || Ghosted(x, today) || notThreePl)
  {
  }

  lemma {:induction false} LowerChanan(name: string)
    requires Contains(Lower(name), "chanan")
    ensures Contains(Lower(name), "hanan")
  {
    assert "chanan" == "c" + "hanan" + "";
    ContainsInfix("c", "hanan", "");
    ContainsTransitive(Lower(name), "chanan", "hanan");
  }

  /** As written, '%hanan%' also matches every Chanan: his deals are flagged
      as an ownership risk, and so at risk. */
  lemma ChananFlaggedAsWritten(x: RiskInput, today: int)
    requires x.ownerName.Some? && Contains(Lower(x.ownerName.value), "chanan")
    ensures AssessAsWritten(x, today).flags.ownership
    ensures AssessAsWritten(x, today).flags.pendingRebook
    ensures AssessAsWritten(x, today).atRisk
  {
    LowerChanan(x.ownerName.value);
  }

  /** Corrected, a Chanan deal is an ownership risk only if the owner name also
      mentions Kurt or deactivation; otherwise only another flag can put it at
      risk. */
  lemma ChananNotOwnershipRisk(x: RiskInput, today: int)
    requires x.ownerName.Some? && Contains(Lower(x.ownerName.value), "chanan")
    requires !Contains(Lower(x.ownerName.value), "kurt") && !Contains(Lower(x.ownerName.value), "deactivated")
    ensures !Assess(x, today).flags.ownership
    ensures Assess(x, today).flags.pendingRebook
    ensures Assess(x, today).atRisk <==> Stalled(x, today) || Ghosted(x, today) || NotThreePl(x)
  {
  }

  /** Away from Chanan the two ownership readings agree. */
  lemma OwnershipAgreesWithoutChanan(x: RiskInput)
    requires x.ownerName.None? || !Contains(Lower(x.ownerName.value), "chanan")
    ensures Ownership(x) == OwnershipAsWritten(x)
  {
  }

  lemma NoneOfPrefix(x: Option<string>, words: seq<string>, n: nat)
    requires n <= |words| && NoneOf(x, words)
    ensures NoneOf(x, words[..n])
  {
  }

  lemma EmptyHasNoWord(words: seq<string>)
    requires forall i :: 0 <= i < |words| ==> |words[i]| > 0
    ensures NoneOf(None, words)
  {
    assert Lower("") == "";
  }

  /** As written, without an industry a company is not a 3PL match exactly
      when its name mentions none of 3pl, fulfillment and logistics: the
      first arm's further words (warehouse, shipping, freight, distribution)
      never decide the flag. */
  lemma NoIndustryAsWrittenUsesThreeWords(x: RiskInput)
    requires x.companyIndustry.None?
    ensures NotThreePlAsWritten(x) <==> NoneOf(x.companyName, NameWords)
  {
    CaseWhenTwo(NoIndustryArm(x), Arm(IndustryTest(x), true));
    assert NameWordsNoIndustry[..3] == NameWords;
    if NoneOf(x.companyName, NameWordsNoIndustry) {
      NoneOfPrefix(x.companyName, NameWordsNoIndustry, 3);
    }
    EmptyHasNoWord(IndustryWords);
  }

  /** So a warehouse without an industry is flagged as written. */
  lemma WarehouseFlaggedAsWritten(x: RiskInput)
    requires x.companyIndustry.None? && x.companyName == Some("acme warehouse")
    ensures NotThreePlAsWritten(x)
    ensures !NotThreePl(x)
  {
    WarehouseHasNoNameWord(x);
    WarehouseHasNoIndustryWord(x);
  }

  lemma WarehouseHasNoNameWord(x: RiskInput)
    requires x.companyIndustry.None? && x.companyName == Some("acme warehouse")
    ensures NotThreePlAsWritten(x)
  {
    var name := "acme warehouse";
    assert Lower(name) == name;
    assert forall i :: 0 <= i < |NameWords| ==> !Contains(name, NameWords[i]) by {
      NotContainsForeignChar(name, "3pl", '3');
      NotContainsForeignChar(name, "fulfillment", 'f');
      NotContainsForeignChar(name, "logistics", 'g');
    }
    NoIndustryAsWrittenUsesThreeWords(x);
  }

  lemma WarehouseHasNoIndustryWord(x: RiskInput)
    requires x.companyIndustry.None? && x.companyName == Some("acme warehouse")
    ensures !NotThreePl(x)
  {
    var name := "acme warehouse";
    assert Lower(name) == name;
    assert name == "acme " + "warehouse" + "";
    ContainsInfix("acme ", "warehouse", "");
    assert NameWordsNoIndustry[3] == "warehouse";
    NoIndustryUsesSevenWords(x);
  }

  /** Corrected, without an industry the first arm's seven name words decide. */
  lemma NoIndustryUsesSevenWords(x: RiskInput)
    requires x.companyIndustry.None?
    ensures NotThreePl(x) <==> NoneOf(x.companyName, NameWordsNoIndustry)
  {
    CaseWhenTwo(NoIndustryArm(x), Arm(And3(Not3(IsNull(x.companyIndustry)), IndustryTest(x)), true));
  }

  /** With an industry the two readings agree. */
  lemma KnownIndustryAgrees(x: RiskInput)
    requires x.companyIndustry.Some?
    ensures NotThreePl(x) == NotThreePlAsWritten(x)
    ensures NotThreePl(x) <==> NoneOf(x.companyIndustry, IndustryWords) && NoneOf(x.companyName, NameWords)
  {
    CaseWhenTwo(NoIndustryArm(x), Arm(IndustryTest(x), true));
    CaseWhenTwo(NoIndustryArm(x), Arm(And3(Not3(IsNull(x.companyIndustry)), IndustryTest(x)), true));
  }

  /** A company in logistics by industry is a 3PL match whatever its name. */
  lemma LogisticsIndustryMatches(x: RiskInput, prefix: string, suffix: string)
    requires x.companyIndustry == Some(prefix + "logistics" + suffix)
    ensures !NotThreePl(x)
  {
    var l := Lower(prefix + "logistics" + suffix);
    assert l == Lower(prefix) + "logistics" + Lower(suffix);
    ContainsInfix(Lower(prefix), "logistics", Lower(suffix));
    KnownIndustryAgrees(x);
    assert !NoneOf(x.companyIndustry, IndustryWords) by {
      assert IndustryWords[0] == "logistics";
    }
  }

  /** Stalled in a delay stage: a stage label mentioning "delay", more than 30
      days in it, and no next step (missing or empty). */
  lemma StalledDelayedExactly(x: RiskInput)
    ensures StalledDelayed(x) <==>
              x.stageLabel.Some? && Contains(Lower(x.stageLabel.value), "delay")
              && x.daysInStage.Some? && x.daysInStage.value > 30
              && (x.nextStep.None? || x.nextStep.value == "")
  {
    CaseWhenOne(Arm(And3(And3(LowerLike(x.stageLabel, "delay"), Exceeds(x.daysInStage, 30)),
                         Or3(IsNull(x.nextStep), Equals(x.nextStep, ""))), true));
  }

  /** The meeting join inherits the substring link: an upcoming meeting of
      deal 123 also shields deal 12. */
  lemma UpcomingMeetingOfPrefixId(m: Meeting, day: int, now: Instant)
    requires m.start.Some? && m.start.value >= now
    ensures HasUpcomingMeeting("12", day, [MeetingRow(m, JoinIds(["123"]), day)], now)
  {
    LikeLinksPrefixIds();
    assert Upcoming("12", day, [MeetingRow(m, JoinIds(["123"]), day)][0], now);
  }
}
