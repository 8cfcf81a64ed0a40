/**
 * How the three programs fit together. The two controllers probe different
 * hosts (the proxy polls status.php, the mesh controller polls the agents'
 * /stats), but their selection rules agree: given the same probe outcomes they
 * derive the same selection data and name the same node. And an agent that
 * reports its own counter to the mesh controller is offered traffic exactly
 * when its /connect would admit one more user.
 */
module Mesh {
  import opened Wrappers
  import Table
  import Probe
  import Selection
  import Node
  import Master
  import Brain

  /** For every probe outcome the two controllers' records look the same to the selection rule. */
  lemma ControllersAgreeOnProbe(node: Probe.NodeAddr, outcome: Probe.Outcome)
    ensures Master.CandidateOf(Master.ProbeRecord(node, outcome)) == Brain.CandidateOf(Brain.ProbeRecord(node, outcome))
    ensures Master.ProbeRecord(node, outcome).ip == Brain.ProbeRecord(node, outcome).ip
  {
  }

  /** Two tables with the same names in the same order, and entries that agree on ip and on what the selection reads. */
  predicate Mirrors(mt: seq<(string, Master.Stats)>, bt: seq<(string, Brain.Status)>) {
    && |mt| == |bt|
    && forall i :: 0 <= i < |mt| ==>
         && mt[i].0 == bt[i].0
         && mt[i].1.ip == bt[i].1.ip
         && Master.CandidateOf(mt[i].1) == Brain.CandidateOf(bt[i].1)
  }

  /** Writing the records of the same probe under the same name keeps two tables mirrored. */
  lemma {:induction false} MirrorAssign(mt: seq<(string, Master.Stats)>, bt: seq<(string, Brain.Status)>,
                                        k: string, node: Probe.NodeAddr, outcome: Probe.Outcome)
    requires Mirrors(mt, bt)
    ensures Mirrors(Table.Assign(mt, k, Master.ProbeRecord(node, outcome)),
                    Table.Assign(bt, k, Brain.ProbeRecord(node, outcome)))
    decreases |mt|
  {
    var mr, br := Master.ProbeRecord(node, outcome), Brain.ProbeRecord(node, outcome);
    ControllersAgreeOnProbe(node, outcome);
    var ma, ba := Table.Assign(mt, k, mr), Table.Assign(bt, k, br);
    if mt == [] {
      assert ma == [(k, mr)] && ba == [(k, br)];
    } else if mt[0].0 == k {
      assert ma == [(k, mr)] + mt[1..] && ba == [(k, br)] + bt[1..];
      forall i | 0 < i < |ma|
        ensures ma[i] == mt[i] && ba[i] == bt[i]
      {
      }
    } else {
      assert Mirrors(mt[1..], bt[1..]);
      MirrorAssign(mt[1..], bt[1..], k, node, outcome);
      var mr1, br1 := Table.Assign(mt[1..], k, mr), Table.Assign(bt[1..], k, br);
      assert ma == [mt[0]] + mr1 && ba == [bt[0]] + br1;
      forall i | 0 < i < |ma|
        ensures ma[i] == mr1[i - 1] && ba[i] == br1[i - 1]
      {
      }
    }
  }

  /** Health rounds over the same nodes with the same probe outcomes keep two tables mirrored. */
  lemma {:induction false} MirrorRounds(mt: seq<(string, Master.Stats)>, bt: seq<(string, Brain.Status)>,
                                        nodes: seq<Probe.NodeAddr>, outcomes: seq<Probe.Outcome>)
    requires Mirrors(mt, bt) && |outcomes| == |nodes|
    ensures Mirrors(Table.AssignAll(mt, Master.RoundRecords(nodes, outcomes)),
                    Table.AssignAll(bt, Brain.RoundRecords(nodes, outcomes)))
    decreases |nodes|
  {
    if nodes != [] {
      var n := |nodes| - 1;
      assert Master.RoundRecords(nodes, outcomes)[..n] == Master.RoundRecords(nodes[..n], outcomes[..n]);
      assert Brain.RoundRecords(nodes, outcomes)[..n] == Brain.RoundRecords(nodes[..n], outcomes[..n]);
      MirrorRounds(mt, bt, nodes[..n], outcomes[..n]);
      MirrorAssign(Table.AssignAll(mt, Master.RoundRecords(nodes[..n], outcomes[..n])),
                   Table.AssignAll(bt, Brain.RoundRecords(nodes[..n], outcomes[..n])),
                   nodes[n].name, nodes[n], outcomes[n]);
    }
  }

  /**
   * Given mirrored tables, the proxy controller's choice and the mesh
   * controller's answer name the same node, and both decline together.
   */
  method ControllersChooseAlike(m: Master.Controller, b: Brain.Controller) returns (best: Option<Master.Stats>, reply: Brain.BestReply)
    requires Mirrors(m.nodeStats, b.serverStatus)
    ensures best.None? <==> reply.Unavailable?
    ensures best.Some? ==> reply.Target? && reply.ip == best.value.ip && reply.port == 80
  {
    assert Master.Candidates(m.nodeStats) == Brain.Candidates(b.serverStatus);
    best := m.GetBestNode();
    reply := b.ApiGetBest();
    if best.Some? {
      var i :| Selection.IsBest(Master.Candidates(m.nodeStats), i) && best.value == m.nodeStats[i].1;
      var k :| Selection.IsBest(Brain.Candidates(b.serverStatus), k) && reply.ip == b.serverStatus[k].1.ip;
      Selection.BestIsUnique(Master.Candidates(m.nodeStats), i, k);
    }
  }

  /**
   * A node agent answering the mesh controller's probe of /stats with its own
   * report is eligible exactly when its /connect would admit one more user.
   */
  lemma ReportedNodeEligibleIffAdmitting(agent: Node.Agent, node: Probe.NodeAddr, latencyMs: real, cpuLoad: real)
    ensures var outcome := Probe.Responded(200, latencyMs, agent.StatsReport(cpuLoad));
            var admits := Node.Next(agent.currentUsers, agent.config.maxUsers, Node.Connect) == agent.currentUsers + 1;
            Brain.Eligible(Brain.ProbeRecord(node, outcome)) <==> admits
  {
  }
}
