/** Which switch a pass turns off (the loop over the candidates in `one_pass` of
    `examples/p4_energy_saving/energy_saving.py`), and what its choice guarantees. */
module EnergyChoice {
  import opened Prelude
  import opened RouteWalk
  import opened PortsToward
  import opened EnergyPlan
  import opened ConsistentUpdate
  import opened EnergyPass

  /** What one pass has read: the links, the hosts on links that are up, every host of a usable switch
      (also behind a link that is down), the tables, and the usable switches. */
  datatype Reading = Reading(links: Links, order: Order, hosts: Hosts, walked: Hosts, walkOrder: seq<Ip>,
                             tables: map<Dpid, Table>, switches: seq<Dpid>)

  ghost predicate IsReading(r: Reading) {
    && Lists(r.order, r.links)
    && (forall ip :: ip in r.walkOrder <==> ip in r.walked)
    && (forall d | d in r.switches :: d in r.tables)
  }

  ghost function EntriesOf(tables: map<Dpid, Table>): Tables {
    map d | d in tables :: tables[d].entries
  }

  /** `plans` turn the tables as read into `now`, and `now` delivers every pair past `victim`. */
  ghost predicate IsAccepted(r: Reading, victim: Dpid, plans: seq<Rewrite>, now: Tables) {
    var was := EntriesOf(r.tables);
    && IsDetourPlan(r.links, victim, was, now)
    && (forall p | p in plans :: IsPlanned(was, now, p))
    && (forall d, i | d in now && 0 <= i < |was[d]| && LeadsTo(r.links, d, was[d][i].port, victim) ::
          Rewrite(d, was[d][i], now[d][i]) in plans)
    && AllRoutesAvoid(Fabric(now, r.links, r.walked), victim)
  }

  function SceneOf(r: Reading, victim: Dpid): Scene {
    Scene(r.links, r.order, r.hosts, victim)
  }

  /** `now` are the tables planning makes for turning off `victim`. */
  ghost predicate IsPlanOf(r: Reading, victim: Dpid, now: Tables) {
    && (forall d :: d in now <==> d in r.switches && d != victim)
    && (forall d | d in now :: d in r.tables && IsRewrittenTable(SceneOf(r, victim), d, r.tables[d].entries, now[d]))
  }

  /** The switch stays on: it cannot be planned for, or some route breaks under its plan. */
  ghost predicate IsRejected(r: Reading, victim: Dpid) {
    || (exists why :: IsReason(SceneOf(r, victim), r.tables, r.switches, why))
    || (exists now: Tables :: IsPlanOf(r, victim, now) && !AllRoutesAvoid(Fabric(now, r.links, r.walked), victim))
  }

  /** The loop over the candidates: the first one that can be planned for and whose plan passes the
      route check. A candidate has no host attached, which is what makes it one. */
  method ChooseSwitch(r: Reading, found: seq<Dpid>) returns (choice: Choice, ghost now: Tables)
    requires IsReading(r)
    requires forall v, ip | v in found && ip in r.hosts :: r.hosts[ip].sw != v
    ensures choice.NoSwitch? ==> forall v | v in found :: IsRejected(r, v)
    ensures choice.Chosen? ==>
              && IsAccepted(r, choice.victim, choice.plans, now)
              && exists k :: && 0 <= k < |found| && found[k] == choice.victim
                             && forall j | 0 <= j < k :: IsRejected(r, found[j])
  {
    now := map[];
    for k := 0 to |found|
      invariant forall j | 0 <= j < k :: IsRejected(r, found[j])
    {
      var victim := found[k];
      assert victim in found;
      var scene := SceneOf(r, victim);
      var planned := PlanRewrites(scene, r.tables, r.switches);
      if planned.Refused? {
        continue;
      }
      assert IsPlanOf(r, victim, planned.tables);
      var broken := FirstBrokenRoute(Fabric(planned.tables, r.links, r.walked), r.walkOrder, victim);
      if broken.Some? {
        continue;
      }
      now := planned.tables;
      PlanIsAccepted(r, scene, planned.plans, now);
      return Chosen(victim, planned.plans), now;
    }
    choice := NoSwitch;
  }

  lemma PlanIsAccepted(r: Reading, s: Scene, plans: seq<Rewrite>, now: Tables)
    requires IsReading(r) && s.links == r.links && s.order == r.order
    requires s.victim !in now && forall ip | ip in s.hosts :: s.hosts[ip].sw != s.victim
    requires forall d | d in now :: d in r.tables && IsRewrittenTable(s, d, r.tables[d].entries, now[d])
    requires forall p :: p in plans <==>
               p.dpid in now && IsPlanFor(s, p.dpid, r.tables[p.dpid].entries, now[p.dpid], p)
    requires AllRoutesAvoid(Fabric(now, r.links, r.walked), s.victim)
    ensures IsAccepted(r, s.victim, plans, now)
  {
    var was := EntriesOf(r.tables);
    PlanIsDetour(s, r.tables, was, now);
    forall d, i | d in now && 0 <= i < |was[d]| && LeadsTo(r.links, d, was[d][i].port, s.victim)
      ensures Rewrite(d, was[d][i], now[d][i]) in plans
    {
      assert IsRewrittenTable(s, d, r.tables[d].entries, now[d]);
      assert IsPlanFor(s, d, r.tables[d].entries, now[d], Rewrite(d, was[d][i], now[d][i]));
    }
    forall p | p in plans ensures IsPlanned(was, now, p) {
      assert IsPlanFor(s, p.dpid, r.tables[p.dpid].entries, now[p.dpid], p);
    }
  }

  // ---------------------------------------------------------------- every moment of a pass

  /** `landed` are writes that may be in effect after the first `k` exchanges: every answered one is, and
      any that was sent can be, in whatever order and however often. */
  ghost predicate MayHaveLanded(log: seq<Exchange>, ws: seq<Watch>, from: nat, k: nat, landed: seq<Rewrite>)
    requires from <= k <= |log| && |ws| == |log| + 1
  {
    && (forall p | p in landed :: exists j :: from <= j < k && log[j].call == WriteEntry(p))
    && (forall p | p in ws[k].answered :: p in landed)
  }

  /** The two halves joined: in every conversation that keeps to an accepted choice, at every moment and
      for everything that may have landed by then, every pair of hosts that was connected still is; and
      a power-off is only ever sent for the chosen switch, at a moment when doing without that switch
      leaves every pair of hosts connected. */
  lemma NoMomentLosesARoute(r: Reading, victim: Dpid, plans: seq<Rewrite>, now: Tables, log: seq<Exchange>,
                            ws: seq<Watch>, from: nat, k: nat, landed: seq<Rewrite>)
    requires IsReading(r) && IsAccepted(r, victim, plans, now) && HasUniqueKeys(EntriesOf(r.tables))
    requires IsSafeFrom(log, ws, from, victim, plans) && from <= k <= |log| && MayHaveLanded(log, ws, from, k, landed)
    ensures var was := EntriesOf(r.tables);
            forall s, d | s in r.walked && d in r.walked && s != d
                          && Delivers(Fabric(was, r.links, r.walked), r.walked[s].sw, d) ::
              Delivers(Fabric(WriteAll(was, landed), r.links, r.walked), r.walked[s].sw, d)
    ensures k < |log| && log[k].call.PowerOff? ==>
              && log[k].call.victim == victim
              && AllRoutesAvoid(PoweredOff(Fabric(WriteAll(EntriesOf(r.tables), landed), r.links, r.walked), victim),
                                victim)
  {
    var was := EntriesOf(r.tables);
    forall p | p in landed ensures p in plans {
      var j :| from <= j < k && log[j].call == WriteEntry(p);
      assert IsLicensed(log, ws, from, j, victim, plans);
    }
    EveryWritePrefixDelivers(r.links, r.walked, victim, was, now, landed);
    if k < |log| && log[k].call.PowerOff? {
      assert IsLicensed(log, ws, from, k, victim, plans);
      PassEndsWithEveryRoute(r.links, r.walked, victim, was, now, landed);
    }
  }
}
