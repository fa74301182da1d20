/** Reference data: the pipeline and stage maps (`fetch_pipelines`) and the
    owner directory (`fetch_owners`). */
module ReferenceData {
  import opened Wrappers
  import opened Text
  import opened Paging

  // ----- Pipelines -----

  /** The pipeline whose deals are extracted. */
  const TargetPipelineName: string := "3PL New Business"

  datatype Stage = Stage(id: string, name: string)
  datatype Pipeline = Pipeline(id: string, name: string, stages: seq<Stage>)

  /** `pipelines_dict[id]`: the name and the stage labels by stage id. */
  datatype PipelineInfo = PipelineInfo(name: string, stageLabels: map<string, string>)

  /** `stages_dict[id]`: the stage's name, pipeline and position. */
  datatype StageInfo = StageInfo(name: string, pipelineId: string, order: nat)

  datatype Catalog = Catalog(pipelines: map<string, PipelineInfo>, stages: map<string, StageInfo>,
                             target: Option<string>)

  /** Stage labels by id, a later stage with the same id overwriting. */
  function StageLabels(stages: seq<Stage>): (m: map<string, string>)
    ensures forall i :: 0 <= i < |stages| ==> stages[i].id in m
    ensures forall id :: id in m ==> exists i :: 0 <= i < |stages| && stages[i].id == id
  {
    if |stages| == 0 then map[]
    else StageLabels(stages[..|stages| - 1])[stages[|stages| - 1].id := stages[|stages| - 1].name]
  }

  /** The flat stage map gains one entry per stage of `p`, at its position. */
  function AddStages(m: map<string, StageInfo>, p: Pipeline, count: nat): map<string, StageInfo>
    requires count <= |p.stages|
  {
    if count == 0 then m
    else AddStages(m, p, count - 1)[p.stages[count - 1].id :=
                                      StageInfo(p.stages[count - 1].name, p.id, count - 1)]
  }

  function PipelinesOf(ps: seq<Pipeline>): map<string, PipelineInfo> {
    if |ps| == 0 then map[]
    else
      var p := ps[|ps| - 1];
      PipelinesOf(ps[..|ps| - 1])[p.id := PipelineInfo(p.name, StageLabels(p.stages))]
  }

  function StagesOf(ps: seq<Pipeline>): map<string, StageInfo> {
    if |ps| == 0 then map[]
    else
      var p := ps[|ps| - 1];
      AddStages(StagesOf(ps[..|ps| - 1]), p, |p.stages|)
  }

  function TargetOf(ps: seq<Pipeline>): Option<string> {
    if |ps| == 0 then None
    else if ps[|ps| - 1].name == TargetPipelineName then Some(ps[|ps| - 1].id)
    else TargetOf(ps[..|ps| - 1])
  }

  /** The pipelines are read in listing order, later entries overwriting. */
  function CatalogOf(ps: seq<Pipeline>): Catalog {
    Catalog(PipelinesOf(ps), StagesOf(ps), TargetOf(ps))
  }

  /** `fetch_pipelines`: the catalog of the pipelines listed, or an empty catalog
      with no target when the listing fails. */
  function FetchPipelines(listing: Option<seq<Pipeline>>): (c: Catalog)
    ensures listing == None ==> c == Catalog(map[], map[], None)
    ensures listing.Some? ==> c.pipelines.Keys == set i | 0 <= i < |listing.value| :: listing.value[i].id
  {
    match listing
    case None => Catalog(map[], map[], None)
    case Some(ps) => PipelineIds(ps); CatalogOf(ps)
  }

  lemma {:induction false} PipelineIds(ps: seq<Pipeline>)
    ensures PipelinesOf(ps).Keys == set i | 0 <= i < |ps| :: ps[i].id
    decreases |ps|
  {
    if |ps| > 0 {
      var init := ps[..|ps| - 1];
      PipelineIds(init);
      assert forall i :: 0 <= i < |init| ==> init[i] == ps[i];
      assert (set i | 0 <= i < |ps| :: ps[i].id) == (set i | 0 <= i < |init| :: init[i].id) + {ps[|ps| - 1].id};
    }
  }

  /** The target is the id of the last pipeline named like the target, and there
      is none exactly when no pipeline has that name. */
  lemma {:induction false} TargetIsLastMatch(ps: seq<Pipeline>)
    ensures TargetOf(ps) == None <==>
              forall i :: 0 <= i < |ps| ==> ps[i].name != TargetPipelineName
    ensures TargetOf(ps).Some? ==>
              exists i :: 0 <= i < |ps| && ps[i].name == TargetPipelineName
                && ps[i].id == TargetOf(ps).value
                && forall j :: i < j < |ps| ==> ps[j].name != TargetPipelineName
    decreases |ps|
  {
    if |ps| > 0 {
      var init := ps[..|ps| - 1];
      TargetIsLastMatch(init);
      assert forall i :: 0 <= i < |init| ==> init[i] == ps[i];
      if ps[|ps| - 1].name != TargetPipelineName && TargetOf(init).Some? {
        var i :| 0 <= i < |init| && init[i].name == TargetPipelineName
                 && init[i].id == TargetOf(init).value
                 && forall j :: i < j < |init| ==> init[j].name != TargetPipelineName;
        assert ps[i] == init[i];
      }
    }
  }

  /** An entry of the map after adding a pipeline's stages is either one of
      that pipeline's stages, at its position, or an entry that was there. */
  lemma {:induction false} AddStagesCases(m: map<string, StageInfo>, p: Pipeline, count: nat, id: string)
    requires count <= |p.stages| && id in AddStages(m, p, count)
    ensures var s := AddStages(m, p, count)[id];
            (s.pipelineId == p.id && s.order < count && p.stages[s.order] == Stage(id, s.name))
            || (id in m && s == m[id])
    decreases count
  {
    if count > 0 && p.stages[count - 1].id != id {
      AddStagesCases(m, p, count - 1, id);
    }
  }

  lemma {:induction false} AddStagesKeys(m: map<string, StageInfo>, p: Pipeline, count: nat)
    requires count <= |p.stages|
    ensures AddStages(m, p, count).Keys == m.Keys + set j | 0 <= j < count :: p.stages[j].id
    decreases count
  {
    if count > 0 {
      AddStagesKeys(m, p, count - 1);
      assert (set j | 0 <= j < count :: p.stages[j].id)
          == (set j | 0 <= j < count - 1 :: p.stages[j].id) + {p.stages[count - 1].id};
    }
  }

  /** The flat stage map holds every stage of every pipeline listed, and each
      of its entries points back to a listed pipeline holding that stage, with
      that label, at the recorded position. */
  lemma {:induction false} StagesPointBack(ps: seq<Pipeline>)
    ensures forall k, j :: 0 <= k < |ps| && 0 <= j < |ps[k].stages| ==> ps[k].stages[j].id in StagesOf(ps)
    ensures forall id :: id in StagesOf(ps) ==>
              exists k :: 0 <= k < |ps| && ps[k].id == StagesOf(ps)[id].pipelineId
                && StagesOf(ps)[id].order < |ps[k].stages|
                && ps[k].stages[StagesOf(ps)[id].order] == Stage(id, StagesOf(ps)[id].name)
    decreases |ps|
  {
    if |ps| > 0 {
      var init, p := ps[..|ps| - 1], ps[|ps| - 1];
      var prev := StagesOf(init);
      StagesPointBack(init);
      assert StagesOf(ps) == AddStages(prev, p, |p.stages|);
      AddStagesKeys(prev, p, |p.stages|);
      forall k, j | 0 <= k < |ps| && 0 <= j < |ps[k].stages| ensures ps[k].stages[j].id in StagesOf(ps) {
        if k < |init| {
          assert ps[k] == init[k];
        }
      }
      forall id | id in StagesOf(ps)
        ensures exists k :: 0 <= k < |ps| && ps[k].id == StagesOf(ps)[id].pipelineId
                  && StagesOf(ps)[id].order < |ps[k].stages|
                  && ps[k].stages[StagesOf(ps)[id].order] == Stage(id, StagesOf(ps)[id].name)
      {
        AddStagesCases(prev, p, |p.stages|, id);
        var st := StagesOf(ps)[id];
        if !(st.pipelineId == p.id && st.order < |p.stages| && p.stages[st.order] == Stage(id, st.name)) {
          var k :| 0 <= k < |init| && init[k].id == prev[id].pipelineId && prev[id].order < |init[k].stages|
                   && init[k].stages[prev[id].order] == Stage(id, prev[id].name);
          assert ps[k] == init[k];
        }
      }
    }
  }

  // ----- Owners -----

  datatype OwnerRecord = OwnerRecord(id: string, firstName: Option<string>, lastName: Option<string>,
                                     email: Option<string>)

  /** `owners_dict[id]`. */
  datatype Owner = Owner(name: string, email: string)

  /** `f"{first or ''} {last or ''}".strip()`. */
  function DisplayName(o: OwnerRecord): string {
    Strip(o.firstName.GetOr("") + " " + o.lastName.GetOr(""))
  }

  const ArchivedSuffix: string := " (Archived)"

  function ActiveEntry(o: OwnerRecord): (e: Owner)
    ensures e.name != ""
    ensures DisplayName(o) != "" ==> e.name == DisplayName(o)
  {
    Owner(if DisplayName(o) == "" then "Unknown" else DisplayName(o), o.email.GetOr(""))
  }

  /** An archived owner's entry as the source writes it: the fallback name
      already carries the suffix, which is then added again. */
  function ArchivedEntryAsWritten(o: OwnerRecord): Owner {
    var name := if DisplayName(o) == "" then "Unknown (Archived)" else DisplayName(o);
    Owner(name + ArchivedSuffix, o.email.GetOr(""))
  }

  /** An archived owner's entry with the suffix added once. */
  function ArchivedEntry(o: OwnerRecord): (e: Owner)
    ensures exists base :: base != "" && e.name == base + ArchivedSuffix
    ensures DisplayName(o) == "" ==> e.name == "Unknown (Archived)"
  {
    var name := if DisplayName(o) == "" then "Unknown" else DisplayName(o);
    Owner(name + ArchivedSuffix, o.email.GetOr(""))
  }

  /** A nameless archived owner shows the suffix twice as written. */
  lemma NamelessArchivedTwice(o: OwnerRecord)
    requires DisplayName(o) == ""
    ensures ArchivedEntryAsWritten(o).name == "Unknown (Archived) (Archived)"
    ensures ArchivedEntry(o).name == "Unknown (Archived)"
  {
  }

  /** Active owners, in listing order, a later record overwriting. */
  function AddActive(m: map<string, Owner>, os: seq<OwnerRecord>): map<string, Owner> {
    if |os| == 0 then m
    else AddActive(m, os[..|os| - 1])[os[|os| - 1].id := ActiveEntry(os[|os| - 1])]
  }

  /** An archived owner's entry matches the corrected one exactly when the
      owner has a display name. */
  lemma ArchivedEntriesAgree(o: OwnerRecord)
    ensures ArchivedEntryAsWritten(o) == ArchivedEntry(o) <==> DisplayName(o) != ""
  {
    if DisplayName(o) == "" {
      assert |ArchivedEntryAsWritten(o).name| != |ArchivedEntry(o).name|;
    }
  }

  /** Archived owners fill in only ids not yet known, an earlier record winning;
      `entry` is the rule that builds an archived owner's entry. */
  function AddArchived(m: map<string, Owner>, os: seq<OwnerRecord>, entry: OwnerRecord -> Owner)
    : map<string, Owner>
  {
    if |os| == 0 then m
    else
      var known := AddArchived(m, os[..|os| - 1], entry);
      var o := os[|os| - 1];
      if o.id in known then known else known[o.id := entry(o)]
  }

  function Ids(os: seq<OwnerRecord>): set<string> {
    set i | 0 <= i < |os| :: os[i].id
  }

  /** The owner directory for a given archived-entry rule: active owners first,
      then archived ones; each listing keeps what it collected before a failure. */
  function OwnersWith(active: seq<PageResult<OwnerRecord>>, archived: seq<PageResult<OwnerRecord>>,
                      entry: OwnerRecord -> Owner): (r: map<string, Owner>)
    ensures r.Keys == Ids(Collect(active)) + Ids(Collect(archived))
  {
    AddActiveKeys(map[], Collect(active));
    AddArchivedKeeps(AddActive(map[], Collect(active)), Collect(archived), entry);
    AddArchived(AddActive(map[], Collect(active)), Collect(archived), entry)
  }

  /** `fetch_owners` as written, with the doubled suffix for nameless archived
      owners. */
  function FetchOwnersAsWritten(active: seq<PageResult<OwnerRecord>>, archived: seq<PageResult<OwnerRecord>>)
    : (r: map<string, Owner>)
    ensures r.Keys == Ids(Collect(active)) + Ids(Collect(archived))
  {
    OwnersWith(active, archived, ArchivedEntryAsWritten)
  }

  /** `fetch_owners` with the archived suffix added once: the directory the
      rest of the model uses. */
  function FetchOwners(active: seq<PageResult<OwnerRecord>>, archived: seq<PageResult<OwnerRecord>>)
    : (r: map<string, Owner>)
    ensures r.Keys == Ids(Collect(active)) + Ids(Collect(archived))
    ensures Named(r)
  {
    OwnersNamed(active, archived);
    OwnersWith(active, archived, ArchivedEntry)
  }

  lemma IdsSnoc(os: seq<OwnerRecord>)
    requires |os| > 0
    ensures Ids(os) == Ids(os[..|os| - 1]) + {os[|os| - 1].id}
  {
    var init := os[..|os| - 1];
    assert forall i :: 0 <= i < |init| ==> init[i] == os[i];
  }

  /** The active listing adds exactly its ids and leaves other entries alone. */
  lemma {:induction false} AddActiveKeys(m: map<string, Owner>, os: seq<OwnerRecord>)
    ensures AddActive(m, os).Keys == m.Keys + Ids(os)
    ensures forall id :: id in m && id !in Ids(os) ==> AddActive(m, os)[id] == m[id]
    decreases |os|
  {
    if |os| > 0 {
      AddActiveKeys(m, os[..|os| - 1]);
      IdsSnoc(os);
    }
  }

  /** An active owner listed twice keeps its last record. */
  lemma {:induction false} AddActiveLastWins(m: map<string, Owner>, os: seq<OwnerRecord>, i: nat)
    requires i < |os|
    requires forall j :: i < j < |os| ==> os[j].id != os[i].id
    ensures os[i].id in AddActive(m, os)
    ensures AddActive(m, os)[os[i].id] == ActiveEntry(os[i])
    decreases |os|
  {
    if i < |os| - 1 {
      var init := os[..|os| - 1];
      assert init[i] == os[i];
      forall j | i < j < |init| ensures init[j].id != init[i].id {
        assert init[j] == os[j];
      }
      AddActiveLastWins(m, init, i);
    }
  }

  /** `os[i]` is the first record listed with its id. */
  predicate FirstOf(os: seq<OwnerRecord>, i: int) {
    0 <= i < |os| && forall j :: 0 <= j < i ==> os[j].id != os[i].id
  }

  /** Archived owners fill in exactly the unknown ids, each from the first
      record listed with that id; known entries never change. */
  lemma AddArchivedSpec(m: map<string, Owner>, os: seq<OwnerRecord>, entry: OwnerRecord -> Owner)
    ensures AddArchived(m, os, entry).Keys == m.Keys + Ids(os)
    ensures forall id :: id in m ==> AddArchived(m, os, entry)[id] == m[id]
    ensures forall i :: FirstOf(os, i) && os[i].id !in m ==> AddArchived(m, os, entry)[os[i].id] == entry(os[i])
  {
    AddArchivedKeeps(m, os, entry);
    forall i | FirstOf(os, i) && os[i].id !in m
      ensures AddArchived(m, os, entry)[os[i].id] == entry(os[i])
    {
      AddArchivedFirst(m, os, entry, i);
    }
  }

  lemma {:induction false} AddArchivedKeeps(m: map<string, Owner>, os: seq<OwnerRecord>, entry: OwnerRecord -> Owner)
    ensures AddArchived(m, os, entry).Keys == m.Keys + Ids(os)
    ensures forall id :: id in m ==> AddArchived(m, os, entry)[id] == m[id]
    decreases |os|
  {
    if |os| > 0 {
      AddArchivedKeeps(m, os[..|os| - 1], entry);
      IdsSnoc(os);
    }
  }

  lemma {:induction false} AddArchivedFirst(m: map<string, Owner>, os: seq<OwnerRecord>, entry: OwnerRecord -> Owner,
                                            i: nat)
    requires FirstOf(os, i) && os[i].id !in m
    ensures os[i].id in AddArchived(m, os, entry) && AddArchived(m, os, entry)[os[i].id] == entry(os[i])
    decreases |os|
  {
    var init, o := os[..|os| - 1], os[|os| - 1];
    var known := AddArchived(m, init, entry);
    assert AddArchived(m, os, entry) == if o.id in known then known else known[o.id := entry(o)];
    AddArchivedKeeps(m, init, entry);
    if i < |init| {
      assert init[i] == os[i];
      assert FirstOf(init, i) by {
        forall j | 0 <= j < i ensures init[j].id != init[i].id {
          assert init[j] == os[j];
        }
      }
      AddArchivedFirst(m, init, entry, i);
    } else {
      assert o == os[i];
      assert o.id !in Ids(init) by {
        forall j | 0 <= j < |init| ensures init[j].id != o.id {
          assert init[j] == os[j];
        }
      }
    }
  }

  /** Every listed id has a first record. */
  lemma {:induction false} FirstExists(os: seq<OwnerRecord>, id: string)
    requires id in Ids(os)
    ensures exists i :: FirstOf(os, i) && os[i].id == id
    decreases |os|
  {
    if os[0].id == id {
      assert FirstOf(os, 0);
    } else {
      var tail := os[1..];
      assert id in Ids(tail) by {
        var k :| 0 <= k < |os| && os[k].id == id;
        assert tail[k - 1] == os[k];
      }
      FirstExists(tail, id);
      var i :| FirstOf(tail, i) && tail[i].id == id;
      assert FirstOf(os, i + 1) by {
        forall j | 0 <= j < i + 1 ensures os[j].id != os[i + 1].id {
          if j > 0 { assert os[j] == tail[j - 1]; }
        }
      }
    }
  }

  /** Active owners take precedence: an id listed as active maps to its last
      active record, whatever the archived listing says; an id listed only as
      archived maps to the archived entry of its first archived record, under
      whichever rule builds archived entries; no other id is known. */
  lemma OwnersMerge(activePages: seq<PageResult<OwnerRecord>>, archivedPages: seq<PageResult<OwnerRecord>>,
                    entry: OwnerRecord -> Owner)
    ensures var active := Collect(activePages);
            var archived := Collect(archivedPages);
            var owners := OwnersWith(activePages, archivedPages, entry);
            && owners.Keys == Ids(active) + Ids(archived)
            && (forall i :: 0 <= i < |active| && (forall j :: i < j < |active| ==> active[j].id != active[i].id) ==>
                  owners[active[i].id] == ActiveEntry(active[i]))
            && (forall i :: FirstOf(archived, i) && archived[i].id !in Ids(active) ==>
                  owners[archived[i].id] == entry(archived[i]))
  {
    var active := Collect(activePages);
    var archived := Collect(archivedPages);
    AddActiveKeys(map[], active);
    forall i | 0 <= i < |active| && (forall j :: i < j < |active| ==> active[j].id != active[i].id)
      ensures AddActive(map[], active)[active[i].id] == ActiveEntry(active[i])
    {
      AddActiveLastWins(map[], active, i);
    }
    AddArchivedSpec(AddActive(map[], active), archived, entry);
  }

  /** The directory the program builds differs from the corrected one only for
      an id listed only as archived whose first archived record has no name:
      there the program's name carries the suffix twice. */
  lemma DirectoryAsWritten(activePages: seq<PageResult<OwnerRecord>>, archivedPages: seq<PageResult<OwnerRecord>>)
    ensures var written := FetchOwnersAsWritten(activePages, archivedPages);
            var owners := FetchOwners(activePages, archivedPages);
            var archived := Collect(archivedPages);
            && written.Keys == owners.Keys
            && (forall id :: id in Ids(Collect(activePages)) ==> written[id] == owners[id])
            && (forall i :: FirstOf(archived, i) && archived[i].id !in Ids(Collect(activePages)) ==>
                  (written[archived[i].id] == owners[archived[i].id] <==> DisplayName(archived[i]) != "")
                  && (DisplayName(archived[i]) == "" ==>
                        written[archived[i].id].name == "Unknown (Archived) (Archived)"
                        && owners[archived[i].id].name == "Unknown (Archived)"))
  {
    var archived := Collect(archivedPages);
    forall i | FirstOf(archived, i)
      ensures ArchivedEntryAsWritten(archived[i]) == ArchivedEntry(archived[i]) <==> DisplayName(archived[i]) != ""
      ensures DisplayName(archived[i]) == "" ==>
                ArchivedEntryAsWritten(archived[i]).name == "Unknown (Archived) (Archived)"
                && ArchivedEntry(archived[i]).name == "Unknown (Archived)"
    {
      ArchivedEntriesAgree(archived[i]);
      if DisplayName(archived[i]) == "" {
        NamelessArchivedTwice(archived[i]);
      }
    }
    ActiveIdsAgree(activePages, archivedPages);
    ArchivedOnlyDiffer(activePages, archivedPages);
  }

  /** The entry each directory holds for an owner listed only as archived. */
  lemma ArchivedOnlyDiffer(activePages: seq<PageResult<OwnerRecord>>, archivedPages: seq<PageResult<OwnerRecord>>)
    ensures var archived := Collect(archivedPages);
            forall i :: FirstOf(archived, i) && archived[i].id !in Ids(Collect(activePages)) ==>
              && FetchOwnersAsWritten(activePages, archivedPages)[archived[i].id] == ArchivedEntryAsWritten(archived[i])
              && FetchOwners(activePages, archivedPages)[archived[i].id] == ArchivedEntry(archived[i])
  {
    OwnersMerge(activePages, archivedPages, ArchivedEntryAsWritten);
    OwnersMerge(activePages, archivedPages, ArchivedEntry);
    assert FetchOwnersAsWritten(activePages, archivedPages) == OwnersWith(activePages, archivedPages, ArchivedEntryAsWritten);
    assert FetchOwners(activePages, archivedPages) == OwnersWith(activePages, archivedPages, ArchivedEntry);
  }

  /** Active owners' entries do not depend on the archived-entry rule. */
  lemma ActiveIdsAgree(activePages: seq<PageResult<OwnerRecord>>, archivedPages: seq<PageResult<OwnerRecord>>)
    ensures forall id :: id in Ids(Collect(activePages)) ==>
              FetchOwnersAsWritten(activePages, archivedPages)[id] == FetchOwners(activePages, archivedPages)[id]
  {
    var active, archived := Collect(activePages), Collect(archivedPages);
    var m := AddActive(map[], active);
    AddActiveKeys(map[], active);
    AddArchivedKeeps(m, archived, ArchivedEntryAsWritten);
    AddArchivedKeeps(m, archived, ArchivedEntry);
    assert FetchOwnersAsWritten(activePages, archivedPages) == AddArchived(m, archived, ArchivedEntryAsWritten);
    assert FetchOwners(activePages, archivedPages) == AddArchived(m, archived, ArchivedEntry);
  }

  predicate Named(m: map<string, Owner>) {
    forall id :: id in m ==> m[id].name != ""
  }

  lemma {:induction false} AddActiveNamed(m: map<string, Owner>, os: seq<OwnerRecord>)
    requires Named(m)
    ensures Named(AddActive(m, os))
    decreases |os|
  {
    if |os| > 0 {
      AddActiveNamed(m, os[..|os| - 1]);
    }
  }

  lemma {:induction false} AddArchivedNamed(m: map<string, Owner>, os: seq<OwnerRecord>)
    requires Named(m)
    ensures Named(AddArchived(m, os, ArchivedEntry))
    decreases |os|
  {
    if |os| > 0 {
      var known := AddArchived(m, os[..|os| - 1], ArchivedEntry);
      AddArchivedNamed(m, os[..|os| - 1]);
      var o := os[|os| - 1];
      var e := ArchivedEntry(o);
      var base :| base != "" && e.name == base + ArchivedSuffix;
      assert e.name != "" by { assert |e.name| > 0; }
      assert AddArchived(m, os, ArchivedEntry) == if o.id in known then known else known[o.id := e];
    }
  }

  /** Every owner in the directory has a non-empty name, so an empty owner
      name on a deal means the owner id was not found. */
  lemma OwnersNamed(active: seq<PageResult<OwnerRecord>>, archived: seq<PageResult<OwnerRecord>>)
    ensures Named(OwnersWith(active, archived, ArchivedEntry))
  {
    AddActiveNamed(map[], Collect(active));
    AddArchivedNamed(AddActive(map[], Collect(active)), Collect(archived));
  }
}
