/**
 * Lead attribution: the `leads` table, the `collector_lead` link table and
 * the per-collector analytics read from it.
 *
 * A lead is a visitor known by its platform id (`vkId`). A link records
 * that a lead came through a collector: one row per (collector, lead) pair,
 * created on the first visit with `checkedForm` set, and moved once to
 * `requestForm` with the submission time when the lead sends the form.
 *
 * The database is modelled as the fields of `LeadStore`: the leads in
 * insertion order, the links keyed by their composite primary key, the
 * next value of the leads id sequence, and the ids present in the
 * `collectors` table, which the link's foreign key refers to. Timestamps
 * are integers (seconds); "now" is a parameter.
 */
module LeadLedger {
  import opened Wrappers
  import Tables

  datatype Lead = Lead(id: int, vkId: string, fullName: string, phone: Option<string>)

  /** A `collector_lead` row, as `CollectorLeadRead` describes it. */
  datatype Link = Link(collectorId: int, leadId: int, checkedForm: bool, requestForm: bool, datetimeRequest: Option<int>)

  /** The composite primary key (collector_id, lead_id). */
  type LinkKey = (int, int)

  /** The funnel state every stored link is in: visited, and stamped with a
      time exactly when submitted. */
  predicate WellFormedLink(l: Link)
  {
    l.checkedForm && (l.datetimeRequest.Some? <==> l.requestForm)
  }

  /** The row a first visit inserts. */
  function NewVisit(collectorId: int, leadId: int): (l: Link)
    ensures l.collectorId == collectorId && l.leadId == leadId
    ensures WellFormedLink(l) && !l.requestForm
  {
    Link(collectorId, leadId, true, false, None)
  }

  /** The row after the submission update. */
  function Submitted(l: Link, now: int): (r: Link)
    requires WellFormedLink(l)
    ensures WellFormedLink(r) && r.requestForm && r.datetimeRequest == Some(now)
    ensures r.collectorId == l.collectorId && r.leadId == l.leadId
  {
    l.(requestForm := true, datetimeRequest := Some(now))
  }

  /** The condition `Lead.vk_id == vk_id`. */
  function VkIdIs(vkId: string): Lead -> bool
  {
    (l: Lead) => l.vkId == vkId
  }

  /** `select(Lead).where(Lead.vk_id == vk_id)` read with `scalar`: the
      first lead with that platform id, or `None`. */
  function LeadByVkId(leads: seq<Lead>, vkId: string): (r: Option<Lead>)
    ensures r.None? <==> forall j :: 0 <= j < |leads| ==> leads[j].vkId != vkId
    ensures r.Some? ==> r.value in leads && r.value.vkId == vkId
  {
    Tables.FirstWhere(leads, VkIdIs(vkId))
  }

  ghost predicate HasLeadId(leads: seq<Lead>, id: int)
  {
    exists i :: 0 <= i < |leads| && leads[i].id == id
  }

  /** The link that a submission for (platform id, collector) would update:
      the link of the lead found by platform id, if it exists and has not
      been submitted yet. */
  function PendingKey(leads: seq<Lead>, links: map<LinkKey, Link>, vkId: string, collectorId: int): (k: Option<LinkKey>)
    ensures k.Some? ==>
      && LeadByVkId(leads, vkId).Some?
      && k.value == (collectorId, LeadByVkId(leads, vkId).value.id)
      && k.value in links && !links[k.value].requestForm
    ensures k.None? ==>
      || LeadByVkId(leads, vkId).None?
      || (collectorId, LeadByVkId(leads, vkId).value.id) !in links
      || links[(collectorId, LeadByVkId(leads, vkId).value.id)].requestForm
  {
    match LeadByVkId(leads, vkId)
    case None => None
    case Some(lead) =>
      var key := (collectorId, lead.id);
      if key in links && !links[key].requestForm then Some(key) else None
  }

  /** Lead ids are positive, unique and below the sequence's next value;
      platform ids are unique (no operation creates a second lead for one). */
  ghost predicate LeadsKeyed(leads: seq<Lead>, nextLeadId: int)
  {
    && nextLeadId > 0
    && (forall i :: 0 <= i < |leads| ==> 0 < leads[i].id < nextLeadId)
    && (forall i, j :: 0 <= i < j < |leads| ==> leads[i].id != leads[j].id && leads[i].vkId != leads[j].vkId)
  }

  /** Every link sits under its own key, refers to an existing collector and
      lead, and is well formed. */
  ghost predicate LinksSound(links: map<LinkKey, Link>, leads: seq<Lead>, collectorIds: set<int>)
  {
    forall k :: k in links ==>
      && links[k].collectorId == k.0 && links[k].leadId == k.1
      && k.0 in collectorIds && HasLeadId(leads, k.1)
      && WellFormedLink(links[k])
  }

  /** Inserting a lead with a fresh id and a new platform id keeps the table
      keyed and every link sound, and the lookup then finds the new lead. */
  lemma LeadAppended(leads: seq<Lead>, nextLeadId: int, links: map<LinkKey, Link>, collectorIds: set<int>, lead: Lead)
    requires LeadsKeyed(leads, nextLeadId) && LinksSound(links, leads, collectorIds)
    requires LeadByVkId(leads, lead.vkId).None? && lead.id == nextLeadId
    ensures LeadsKeyed(leads + [lead], nextLeadId + 1)
    ensures LinksSound(links, leads + [lead], collectorIds)
    ensures LeadByVkId(leads + [lead], lead.vkId) == Some(lead)
  {
    var after := leads + [lead];
    forall k | k in links ensures HasLeadId(after, k.1) {
      var m :| 0 <= m < |leads| && leads[m].id == k.1;
      assert after[m] == leads[m];
    }
    assert forall j :: 0 <= j < |leads| ==> after[j] == leads[j];
    assert after[|leads|] == lead;
  }

  /** A link for an existing collector and lead, under its own key, keeps
      the link table sound. */
  lemma LinkStored(links: map<LinkKey, Link>, leads: seq<Lead>, collectorIds: set<int>, lead: Lead, l: Link)
    requires LinksSound(links, leads, collectorIds)
    requires lead in leads && l.leadId == lead.id && l.collectorId in collectorIds && WellFormedLink(l)
    ensures LinksSound(links[(l.collectorId, l.leadId) := l], leads, collectorIds)
  {
    var i :| 0 <= i < |leads| && leads[i] == lead;
    assert HasLeadId(leads, l.leadId);
  }

  class LeadStore {
    var leads: seq<Lead>
    var links: map<LinkKey, Link>
    var nextLeadId: int
    var collectorIds: set<int>

    ghost predicate Valid()
      reads this
    {
      LeadsKeyed(leads, nextLeadId) && LinksSound(links, leads, collectorIds)
    }

    /** An empty ledger beside a `collectors` table holding `collectors`. */
    constructor (collectors: set<int>)
      ensures Valid()
      ensures leads == [] && links == map[] && collectorIds == collectors
    {
      leads := [];
      links := map[];
      nextLeadId := 1;
      collectorIds := collectors;
    }

    /** `get_or_create_lead`: the lead with that platform id, unchanged (its
        stored name wins), or else a new lead with a fresh id, the given name
        and no phone. */
    method GetOrCreateLead(vkId: string, fullName: string) returns (lead: Lead)
      requires Valid()
      modifies this
      ensures Valid()
      ensures links == old(links) && collectorIds == old(collectorIds)
      ensures old(LeadByVkId(leads, vkId)).Some? ==>
        && lead == old(LeadByVkId(leads, vkId)).value
        && leads == old(leads) && nextLeadId == old(nextLeadId)
      ensures old(LeadByVkId(leads, vkId)).None? ==>
        && lead == Lead(old(nextLeadId), vkId, fullName, None)
        && leads == old(leads) + [lead] && nextLeadId == old(nextLeadId) + 1
      ensures LeadByVkId(leads, vkId) == Some(lead)
    {
      var i := Tables.IndexWhere(leads, VkIdIs(vkId));
      if i >= 0 {
        lead := leads[i];
        return;
      }
      lead := Lead(nextLeadId, vkId, fullName, None);
      LeadAppended(leads, nextLeadId, links, collectorIds, lead);
      leads := leads + [lead];
      nextLeadId := nextLeadId + 1;
    }

    /** `create_lead_visit`: resolves the lead, then records the visit once.
        A pair that already has a link keeps it unchanged; a new pair gets a
        fresh link in the visited state. A collector id that the `collectors`
        table does not hold violates the foreign key: the link insert is
        rolled back and the result is `None`, while the lead created on the
        way stays. On success the result is the lead, not the link. */
    method CreateLeadVisit(vkId: string, collectorId: int, fullName: string) returns (r: Option<Lead>)
      requires Valid()
      modifies this
      ensures Valid() && collectorIds == old(collectorIds)
      ensures old(LeadByVkId(leads, vkId)).Some? ==> leads == old(leads) && nextLeadId == old(nextLeadId)
      ensures old(LeadByVkId(leads, vkId)).None? ==>
        leads == old(leads) + [Lead(old(nextLeadId), vkId, fullName, None)] && nextLeadId == old(nextLeadId) + 1
      ensures LeadByVkId(leads, vkId).Some?
      ensures var lead := LeadByVkId(leads, vkId).value;
        var key := (collectorId, lead.id);
        if key in old(links) then
          r == Some(lead) && links == old(links)
        else if collectorId !in collectorIds then
          r == None && links == old(links)
        else
          r == Some(lead) && links == old(links)[key := NewVisit(collectorId, lead.id)]
    {
      var lead := GetOrCreateLead(vkId, fullName);
      var key := (collectorId, lead.id);
      if key in links {
        return Some(lead);
      }
      if collectorId !in collectorIds {
        return None;
      }
      LinkStored(links, leads, collectorIds, lead, NewVisit(collectorId, lead.id));
      links := links[key := NewVisit(collectorId, lead.id)];
      r := Some(lead);
    }

    /** `submit_lead_request`: moves the lead's link for that collector to the
        submitted state, stamped `now`, and returns it. Nothing changes and the
        result is `None` when no lead has the platform id, the pair has no
        link, or the link was already submitted. */
    method SubmitLeadRequest(vkId: string, collectorId: int, now: int) returns (r: Option<Link>)
      requires Valid()
      modifies this
      ensures Valid()
      ensures leads == old(leads) && nextLeadId == old(nextLeadId) && collectorIds == old(collectorIds)
      ensures old(PendingKey(leads, links, vkId, collectorId)).None? ==> r == None && links == old(links)
      ensures old(PendingKey(leads, links, vkId, collectorId)).Some? ==>
        var key := old(PendingKey(leads, links, vkId, collectorId)).value;
        && r == Some(Submitted(old(links)[key], now))
        && links == old(links)[key := r.value]
    {
      var i := Tables.IndexWhere(leads, VkIdIs(vkId));
      if i < 0 {
        return None;
      }
      var key := (collectorId, leads[i].id);
      if key in links && !links[key].requestForm {
        assert PendingKey(leads, links, vkId, collectorId) == Some(key);
        var l := Submitted(links[key], now);
        LinkStored(links, leads, collectorIds, leads[i], l);
        links := links[key := l];
        return Some(l);
      }
      return None;
    }
  }

  /** A submission can succeed only once: right after one, the same call
      finds nothing pending, so it returns `None` and leaves the stamped
      time alone. */
  lemma SubmitOnlyOnce(leads: seq<Lead>, links: map<LinkKey, Link>, vkId: string, collectorId: int, now: int)
    requires PendingKey(leads, links, vkId, collectorId).Some?
    requires forall k :: k in links ==> WellFormedLink(links[k])
    ensures var key := PendingKey(leads, links, vkId, collectorId).value;
      PendingKey(leads, links[key := Submitted(links[key], now)], vkId, collectorId).None?
  {
  }

  /** The same lead visiting the same collector twice, even under another
      name: the second call returns what the first did, and the two together
      add at most one lead and at most one link, the one for that pair. */
  method VisitTwice(s: LeadStore, vkId: string, collectorId: int, firstName: string, secondName: string)
    returns (first: Option<Lead>, second: Option<Lead>)
    requires s.Valid()
    modifies s
    ensures s.Valid()
    ensures second == first
    ensures LeadByVkId(s.leads, vkId).Some?
    ensures |s.leads| <= |old(s.leads)| + 1
    ensures s.links.Keys - old(s.links).Keys <= {(collectorId, LeadByVkId(s.leads, vkId).value.id)}
  {
    first := s.CreateLeadVisit(vkId, collectorId, firstName);
    ghost var afterFirst := s.links;
    second := s.CreateLeadVisit(vkId, collectorId, secondName);
    assert s.links == afterFirst;
  }

  // ---------------------------------------------------------------------
  // get_collector_analytics

  const SecondsPerDay: int := 86400

  /** The analysis window: one day, one week or 30 days; any other period
      string silently counts as a day. */
  function WindowSeconds(period: string): (w: int)
    ensures w == SecondsPerDay || w == 7 * SecondsPerDay || w == 30 * SecondsPerDay
    ensures period == "week" <==> w == 7 * SecondsPerDay
    ensures period == "month" <==> w == 30 * SecondsPerDay
  {
    if period == "day" then SecondsPerDay
    else if period == "week" then 7 * SecondsPerDay
    else if period == "month" then 30 * SecondsPerDay
    else SecondsPerDay
  }

  /** `datetime_request >= start_date` in SQL: a missing time is never in
      the window. */
  predicate InWindow(t: Option<int>, start: int)
  {
    t.Some? && t.value >= start
  }

  /** The rows `leads_count` counts. */
  function LeadRows(links: map<LinkKey, Link>, collectorId: int, start: int): set<LinkKey>
  {
    set k | k in links && links[k].collectorId == collectorId && links[k].requestForm
                       && InWindow(links[k].datetimeRequest, start)
  }

  /** The rows `visit_count` counts: the filter is on `checked_form`, but the
      time condition is the same `datetime_request` one. */
  function VisitRows(links: map<LinkKey, Link>, collectorId: int, start: int): set<LinkKey>
  {
    set k | k in links && links[k].collectorId == collectorId && links[k].checkedForm
                       && InWindow(links[k].datetimeRequest, start)
  }

  datatype Analytics = Analytics(collectorId: int, leadsCount: nat, visitCount: nat, conversionRate: real)

  /** `leads_count / visit_count * 100`, or exactly 0.0 without visits. */
  function ConversionRate(leadsCount: nat, visitCount: nat): (r: real)
    ensures visitCount == 0 ==> r == 0.0
    ensures visitCount > 0 ==> r * visitCount as real == leadsCount as real * 100.0
    ensures leadsCount <= visitCount ==> 0.0 <= r <= 100.0
  {
    if visitCount == 0 then 0.0 else leadsCount as real / visitCount as real * 100.0
  }

  /** `get_collector_analytics`: a read of the link table. */
  function CollectorAnalytics(links: map<LinkKey, Link>, collectorId: int, period: string, now: int): (a: Analytics)
    ensures a.collectorId == collectorId
    ensures a.visitCount == 0 ==> a.conversionRate == 0.0
    ensures a.visitCount > 0 ==> a.conversionRate * a.visitCount as real == a.leadsCount as real * 100.0
  {
    var start := now - WindowSeconds(period);
    var leadsCount, visitCount := |LeadRows(links, collectorId, start)|, |VisitRows(links, collectorId, start)|;
    Analytics(collectorId, leadsCount, visitCount, ConversionRate(leadsCount, visitCount))
  }

  /** The counts come from the collector's own links, and a link never
      submitted is counted in neither. */
  lemma CountedRowsAreSubmittedLinks(links: map<LinkKey, Link>, collectorId: int, period: string, now: int)
    ensures var start := now - WindowSeconds(period);
      forall k :: k in LeadRows(links, collectorId, start) + VisitRows(links, collectorId, start) ==>
        && k in links && links[k].collectorId == collectorId
        && links[k].datetimeRequest.Some? && links[k].datetimeRequest.value >= start
  {
  }

  /** With every link well formed, both counts select the same rows: each
      counted visit is a submission in the window, so the conversion rate is
      0.0 without visits and exactly 100.0 otherwise. */
  lemma ConversionIsAllOrNothing(links: map<LinkKey, Link>, collectorId: int, period: string, now: int)
    requires forall k :: k in links ==> WellFormedLink(links[k])
    ensures var a := CollectorAnalytics(links, collectorId, period, now);
      && a.leadsCount == a.visitCount
      && a.conversionRate == if a.visitCount == 0 then 0.0 else 100.0
  {
    var start := now - WindowSeconds(period);
    assert LeadRows(links, collectorId, start) == VisitRows(links, collectorId, start);
    var v := |VisitRows(links, collectorId, start)|;
    if v > 0 {
      RatioOfEqualCounts(v);
    }
  }

  lemma RatioOfEqualCounts(v: nat)
    requires v > 0
    ensures ConversionRate(v, v) == 100.0
  {
    var x := v as real;
    assert x / x == 1.0;
  }

  /** Without links in the window the analytics report zeros and a 0.0 rate:
      no division by zero. */
  lemma NoVisitsNoRate(links: map<LinkKey, Link>, collectorId: int, period: string, now: int)
    requires forall k :: k in links && links[k].collectorId == collectorId ==>
      !InWindow(links[k].datetimeRequest, now - WindowSeconds(period))
    ensures CollectorAnalytics(links, collectorId, period, now) == Analytics(collectorId, 0, 0, 0.0)
  {
    var start := now - WindowSeconds(period);
    assert LeadRows(links, collectorId, start) == {};
    assert VisitRows(links, collectorId, start) == {};
  }
}
