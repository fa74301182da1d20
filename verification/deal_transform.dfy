/** The derived fields of a deal row (`transform_deals`): labels resolved
    through the reference data, owner details, day counts, status flags, the
    weighted amount, the age status and the primary contact. */
module DealTransform {
  import opened Wrappers
  import opened Text
  import opened Calendar
  import opened Timestamps
  import opened Coerce
  import opened DealAge
  import opened DealFetch
  import opened ReferenceData
  import opened Contacts

  /** The derived part of a row of the deals snapshot table. */
  datatype DealRow = DealRow(
    dealId: string,
    pipelineId: string, pipelineLabel: string,
    stageId: string, stageLabel: string,
    ownerId: string, ownerName: string, ownerEmail: string,
    daysSinceCreated: Option<int>, daysInCurrentStage: Option<int>, daysToClose: Option<int>,
    isWon: bool, isLost: bool, isOpen: bool,
    amount: Option<real>, probability: Option<real>, weightedAmount: Option<real>,
    ageStatus: AgeStatus,
    contactCount: nat, primaryContact: Option<Contact>,
    snapshotDate: int)

  /** Python's `value or ''`. */
  function OrEmpty(v: Option<string>): string {
    v.GetOr("")
  }

  /** The pipeline's label, when the pipeline id is known. */
  function PipelineLabel(c: Catalog, pipelineId: string): (r: string)
    ensures r != "" ==> pipelineId in c.pipelines && r == c.pipelines[pipelineId].name
    ensures pipelineId != "" && pipelineId in c.pipelines ==> r == c.pipelines[pipelineId].name
    ensures pipelineId == "" || pipelineId !in c.pipelines ==> r == ""
  {
    if pipelineId != "" && pipelineId in c.pipelines then c.pipelines[pipelineId].name else ""
  }

  /** The stage's label as its own pipeline lists it, if it does. */
  function LabelInPipeline(c: Catalog, pipelineId: string, stageId: string): string {
    if pipelineId != "" && pipelineId in c.pipelines && stageId in c.pipelines[pipelineId].stageLabels
    then c.pipelines[pipelineId].stageLabels[stageId]
    else ""
  }

  /** The stage label: from the deal's pipeline first, then from the flat stage
      map when that gives nothing. */
  function StageLabel(c: Catalog, pipelineId: string, stageId: string): (r: string)
    ensures r != "" ==> r == LabelInPipeline(c, pipelineId, stageId)
                        || (stageId in c.stages && r == c.stages[stageId].name)
    ensures LabelInPipeline(c, pipelineId, stageId) != "" ==> r == LabelInPipeline(c, pipelineId, stageId)
    ensures LabelInPipeline(c, pipelineId, stageId) == "" && stageId in c.stages ==> r == c.stages[stageId].name
    ensures LabelInPipeline(c, pipelineId, stageId) == "" && stageId !in c.stages ==> r == ""
  {
    var fromPipeline := LabelInPipeline(c, pipelineId, stageId);
    if fromPipeline == "" && stageId in c.stages then c.stages[stageId].name else fromPipeline
  }

  /** The owner's name and email, or empty strings for an unknown owner. */
  function OwnerDetails(owners: map<string, Owner>, ownerId: string): (o: Owner)
    ensures ownerId == "" || ownerId !in owners ==> o == Owner("", "")
    ensures ownerId != "" && ownerId in owners ==> o == owners[ownerId]
  {
    if ownerId != "" && ownerId in owners then owners[ownerId] else Owner("", "")
  }

  /** `(later - earlier).days` when both instants are known. */
  function DaysSince(earlier: Option<Instant>, later: Instant): (r: Option<int>)
    ensures r.Some? <==> earlier.Some?
    ensures r.Some? ==> r.value * MicrosPerDay <= later - earlier.value < (r.value + 1) * MicrosPerDay
  {
    if earlier.Some? then Some(DaysBetween(earlier.value, later)) else None
  }

  function DaysUntil(later: Option<Instant>, earlier: Instant): (r: Option<int>)
    ensures r.Some? <==> later.Some?
    ensures r.Some? ==> r.value * MicrosPerDay <= later.value - earlier < (r.value + 1) * MicrosPerDay
  {
    if later.Some? then Some(DaysBetween(earlier, later.value)) else None
  }

  /** The property holding when the deal entered a stage. */
  function StageEntryKey(stageId: string): string {
    "hs_date_entered_" + stageId
  }

  /** Days in the current stage, falling back to days since creation when the
      stage entry date is missing or unreadable. */
  function DaysInStage(d: RawDeal, stageId: string, snapshot: Instant): Option<int> {
    var entered := if stageId != "" then Convert(Prop(d, StageEntryKey(stageId))) else None;
    if entered.Some? then DaysSince(entered, snapshot)
    else DaysSince(Convert(Prop(d, "createdate")), snapshot)
  }

  predicate IsWon(stageLabel: string) {
    var l := Lower(stageLabel);
    Find(l, "won") || Find(l, "closed won")
  }

  predicate IsLost(stageLabel: string) {
    var l := Lower(stageLabel);
    Find(l, "lost") || Find(l, "closed lost")
  }

  function WeightedAmount(amount: Option<real>, probability: Option<real>): (r: Option<real>)
    ensures r.Some? <==> amount.Some? && probability.Some?
    ensures r.Some? ==> r.value == amount.value * probability.value
  {
    if amount.Some? && probability.Some? then Some(amount.value * probability.value) else None
  }

  function PrimaryContact(contacts: seq<Contact>): (r: Option<Contact>)
    ensures r.Some? <==> |contacts| > 0
    ensures r.Some? ==> r.value == contacts[0]
  {
    if |contacts| > 0 then Some(contacts[0]) else None
  }

  /** One deal's row. `contacts` is what `fetch_associated_contacts` returned
      for it; `read` is the float reader behind `safe_float`. */
  function TransformDeal(d: RawDeal, snapshot: Instant, c: Catalog, owners: map<string, Owner>,
                         contacts: seq<Contact>, read: string -> Option<real>): (row: DealRow)
    ensures row.dealId == OrEmpty(Prop(d, "hs_object_id"))
    ensures row.pipelineId == OrEmpty(Prop(d, "pipeline")) && row.stageId == OrEmpty(Prop(d, "dealstage"))
    ensures row.ownerId == OrEmpty(Prop(d, "hubspot_owner_id"))
    ensures row.pipelineLabel == PipelineLabel(c, row.pipelineId)
    ensures row.stageLabel == StageLabel(c, row.pipelineId, row.stageId)
    ensures row.ownerName == OwnerDetails(owners, row.ownerId).name
    ensures row.ownerEmail == OwnerDetails(owners, row.ownerId).email
    ensures row.daysSinceCreated == DaysSince(Convert(Prop(d, "createdate")), snapshot)
    ensures row.daysToClose == DaysUntil(Convert(Prop(d, "closedate")), snapshot)
    ensures row.isWon == IsWon(row.stageLabel) && row.isLost == IsLost(row.stageLabel)
    ensures row.isOpen <==> !row.isWon && !row.isLost
    ensures row.ageStatus == AgeStatusOf(row.daysInCurrentStage, row.stageLabel)
    ensures row.snapshotDate == DayOf(snapshot)
    ensures row.daysSinceCreated.Some? <==> Convert(Prop(d, "createdate")).Some?
    ensures row.daysToClose.Some? <==> Convert(Prop(d, "closedate")).Some?
    ensures row.ageStatus == Unknown <==> row.daysInCurrentStage == None
    ensures row.contactCount == |contacts|
    ensures row.daysInCurrentStage == DaysInStage(d, row.stageId, snapshot)
    ensures row.amount == SafeFloat(Prop(d, "amount"), read)
    ensures row.probability == SafeFloat(Prop(d, "hs_deal_stage_probability"), read)
    ensures row.weightedAmount == WeightedAmount(row.amount, row.probability)
    ensures row.primaryContact == PrimaryContact(contacts)
  {
    var pipelineId := OrEmpty(Prop(d, "pipeline"));
    var stageId := OrEmpty(Prop(d, "dealstage"));
    var stage := StageLabel(c, pipelineId, stageId);
    var ownerId := OrEmpty(Prop(d, "hubspot_owner_id"));
    var owner := OwnerDetails(owners, ownerId);
    var days := DaysInStage(d, stageId, snapshot);
    var amount := SafeFloat(Prop(d, "amount"), read);
    var probability := SafeFloat(Prop(d, "hs_deal_stage_probability"), read);
    var won := IsWon(stage);
    var lost := IsLost(stage);
    DealRow(
      OrEmpty(Prop(d, "hs_object_id")),
      pipelineId, PipelineLabel(c, pipelineId),
      stageId, stage,
      ownerId, owner.name, owner.email,
      DaysSince(Convert(Prop(d, "createdate")), snapshot), days,
      DaysUntil(Convert(Prop(d, "closedate")), snapshot),
      won, lost, !won && !lost,
      amount, probability, WeightedAmount(amount, probability),
      AgeStatusOf(days, stage),
      |contacts|, PrimaryContact(contacts),
      DayOf(snapshot))
  }

  /** `transform_deals`: one row per deal, in order, all stamped with the
      snapshot's day. */
  function TransformDeals(deals: seq<RawDeal>, snapshot: Instant, c: Catalog, owners: map<string, Owner>,
                          contactsOf: string -> seq<Contact>, read: string -> Option<real>): (rows: seq<DealRow>)
    ensures |rows| == |deals|
    ensures forall i :: 0 <= i < |rows| ==>
              rows[i].dealId == OrEmpty(Prop(deals[i], "hs_object_id")) && rows[i].snapshotDate == DayOf(snapshot)
    ensures forall i :: 0 <= i < |rows| ==>
              rows[i] == TransformDeal(deals[i], snapshot, c, owners,
                                       contactsOf(OrEmpty(Prop(deals[i], "hs_object_id"))), read)
  {
    seq(|deals|, i requires 0 <= i < |deals| =>
      TransformDeal(deals[i], snapshot, c, owners, contactsOf(OrEmpty(Prop(deals[i], "hs_object_id"))), read))
  }

  // ----- Properties -----

  /** A label mentioning "won" is won whether or not it says "closed won", and
      likewise for "lost": the longer test is subsumed by the shorter. */
  lemma StatusIsSubstring(stageLabel: string)
    ensures IsWon(stageLabel) <==> Contains(Lower(stageLabel), "won")
    ensures IsLost(stageLabel) <==> Contains(Lower(stageLabel), "lost")
  {
    var l := Lower(stageLabel);
    assert "closed won" == "closed " + "won" + "";
    assert "closed lost" == "closed " + "lost" + "";
    ContainsInfix("closed ", "won", "");
    ContainsInfix("closed ", "lost", "");
    if Contains(l, "closed won") {
      ContainsTransitive(l, "closed won", "won");
    }
    if Contains(l, "closed lost") {
      ContainsTransitive(l, "closed lost", "lost");
    }
  }

  /** Won and lost are not exclusive: a label naming both is both, and then
      the deal is not open. */
  lemma WonAndLost(prefix: string, middle: string, suffix: string)
    ensures var stageLabel := prefix + "Won" + middle + "Lost" + suffix;
            IsWon(stageLabel) && IsLost(stageLabel)
  {
    var stageLabel := prefix + "Won" + middle + "Lost" + suffix;
    var l := Lower(stageLabel);
    assert l == Lower(prefix) + "won" + (Lower(middle) + "lost" + Lower(suffix));
    assert l == (Lower(prefix) + "won" + Lower(middle)) + "lost" + Lower(suffix);
    ContainsInfix(Lower(prefix), "won", Lower(middle) + "lost" + Lower(suffix));
    ContainsInfix(Lower(prefix) + "won" + Lower(middle), "lost", Lower(suffix));
  }

  /** Exactly one of open, won-or-lost holds: every row is open or closed. */
  lemma OpenOrClosed(d: RawDeal, snapshot: Instant, c: Catalog, owners: map<string, Owner>,
                     contacts: seq<Contact>, read: string -> Option<real>)
    ensures var row := TransformDeal(d, snapshot, c, owners, contacts, read);
            (row.isOpen || row.isWon || row.isLost)
            && (row.isOpen ==> !Contains(Lower(row.stageLabel), "won") && !Contains(Lower(row.stageLabel), "lost"))
  {
    StatusIsSubstring(TransformDeal(d, snapshot, c, owners, contacts, read).stageLabel);
  }

  /** An unlabelled stage is open. */
  lemma UnlabelledIsOpen()
    ensures !IsWon("") && !IsLost("")
  {
    StatusIsSubstring("");
    assert Lower("") == "";
  }

  /** Days in the current stage count from the stage entry date when the deal
      has a stage and the entry date reads; otherwise they are the days since
      creation, missing when the creation date does not read either. */
  lemma DaysInStageFallback(d: RawDeal, stageId: string, snapshot: Instant)
    ensures var entered := Convert(Prop(d, StageEntryKey(stageId)));
            var created := Convert(Prop(d, "createdate"));
            (stageId != "" && entered.Some? ==>
               DaysInStage(d, stageId, snapshot) == Some(DaysBetween(entered.value, snapshot)))
            && (stageId == "" || entered.None? ==>
                  (DaysInStage(d, stageId, snapshot).Some? <==> created.Some?)
                  && (created.Some? ==> DaysInStage(d, stageId, snapshot) == Some(DaysBetween(created.value, snapshot))))
  {
  }

  /** The stage label prefers the deal's own pipeline, and falls back to the
      flat stage map only when that gives no label. */
  lemma StageLabelResolution(c: Catalog, pipelineId: string, stageId: string)
    ensures var own := pipelineId != "" && pipelineId in c.pipelines
                       && stageId in c.pipelines[pipelineId].stageLabels
                       && c.pipelines[pipelineId].stageLabels[stageId] != "";
            && (own ==> StageLabel(c, pipelineId, stageId) == c.pipelines[pipelineId].stageLabels[stageId])
            && (!own && stageId in c.stages ==> StageLabel(c, pipelineId, stageId) == c.stages[stageId].name)
            && (!own && stageId !in c.stages ==> StageLabel(c, pipelineId, stageId) == "")
  {
  }

  /** With a directory of named owners, a deal's owner name is empty exactly
      when its owner id is missing or unknown. */
  lemma OwnerNameShowsLookup(owners: map<string, Owner>, ownerId: string)
    requires Named(owners)
    ensures OwnerDetails(owners, ownerId).name == "" <==> ownerId == "" || ownerId !in owners
  {
  }

  /** The weighted amount is missing unless both the amount and the
      probability read as numbers, and is then their product. */
  lemma WeightedNeedsBoth(amount: Option<string>, probability: Option<string>, read: string -> Option<real>)
    ensures var w := WeightedAmount(SafeFloat(amount, read), SafeFloat(probability, read));
            (w.Some? <==> amount.Some? && amount.value != "" && read(amount.value).Some?
                          && probability.Some? && probability.value != "" && read(probability.value).Some?)
            && (w.Some? ==> w.value == read(amount.value).value * read(probability.value).value)
  {
  }

  /** The primary contact is the first contact found, and there is one exactly
      when some contact was found. */
  lemma PrimaryIsFirst(d: RawDeal, snapshot: Instant, c: Catalog, owners: map<string, Owner>,
                       contacts: seq<Contact>, read: string -> Option<real>)
    ensures var row := TransformDeal(d, snapshot, c, owners, contacts, read);
            (row.primaryContact.Some? <==> row.contactCount > 0)
            && (row.primaryContact.Some? ==> row.primaryContact.value == contacts[0])
  {
  }

  /** Each row of `transform_deals` is its own deal's: the stage label comes
      from the deal's pipeline before the flat stage map, the won and lost
      flags are plain substring tests of it, and days in stage count from the
      stage entry date when that reads. */
  lemma DealRowsResolve(deals: seq<RawDeal>, snapshot: Instant, c: Catalog, owners: map<string, Owner>,
                        contactsOf: string -> seq<Contact>, read: string -> Option<real>, i: nat)
    requires i < |deals|
    ensures var row := TransformDeals(deals, snapshot, c, owners, contactsOf, read)[i];
            var p := OrEmpty(Prop(deals[i], "pipeline"));
            var s := OrEmpty(Prop(deals[i], "dealstage"));
            var entered := Convert(Prop(deals[i], StageEntryKey(s)));
            && row.dealId == OrEmpty(Prop(deals[i], "hs_object_id"))
            && row.contactCount == |contactsOf(row.dealId)|
            && (p != "" && p in c.pipelines && s in c.pipelines[p].stageLabels && c.pipelines[p].stageLabels[s] != ""
                ==> row.stageLabel == c.pipelines[p].stageLabels[s])
            && (row.isWon <==> Contains(Lower(row.stageLabel), "won"))
            && (row.isLost <==> Contains(Lower(row.stageLabel), "lost"))
            && (s != "" && entered.Some? ==> row.daysInCurrentStage == Some(DaysBetween(entered.value, snapshot)))
  {
    var row := TransformDeals(deals, snapshot, c, owners, contactsOf, read)[i];
    StatusIsSubstring(row.stageLabel);
    StageLabelResolution(c, OrEmpty(Prop(deals[i], "pipeline")), OrEmpty(Prop(deals[i], "dealstage")));
    DaysInStageFallback(deals[i], OrEmpty(Prop(deals[i], "dealstage")), snapshot);
  }
}
