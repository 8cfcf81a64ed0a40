/**
 * The mesh controller (src/brain.py): the SERVER_STATUS table its monitor
 * loop fills and the /api/get-best route that names the node a client should
 * use.
 */
module Brain {
  import opened Wrappers
  import Table
  import Probe
  import Selection

  /**
   * An entry of SERVER_STATUS. A record for a node that answered has users,
   * max and load; one for a node that failed has none of them and carries the
   * error text instead.
   */
  datatype Status = Status(
    ip: string, alive: bool, ping: real,
    users: Option<int>, max: Option<int>, load: Option<real>,
    error: Option<string>)

  /** The record written for a node whose probe failed with `message`. */
  function DeadStatus(ip: string, message: string): Status {
    Status(ip, false, 9999.0, None, None, None, Some(message))
  }

  /**
   * The record monitor_mesh writes after probing `node`: on a 200 answer the
   * measured ping and the reported users, max and load (0, 100 and 0 when
   * absent); on another status the error "Bad Status"; on an exception its message.
   */
  function ProbeRecord(node: Probe.NodeAddr, outcome: Probe.Outcome): (r: Status)
    ensures r.ip == node.ip
    ensures r.alive <==> outcome.Responded? && outcome.status == 200
    ensures r.alive ==> && r.error == None && r.ping == outcome.latencyMs
                        && r.users == Some(outcome.body.currentUsers.GetOr(0))
                        && r.max == Some(outcome.body.maxUsers.GetOr(100))
                        && r.load == Some(outcome.body.cpuLoad.GetOr(0.0))
    ensures !r.alive ==> r.ping == 9999.0 && r.users == r.max == None && r.load == None && r.error.Some?
    ensures outcome.Responded? && outcome.status != 200 ==> r.error == Some("Bad Status")
    ensures outcome.Raised? ==> r.error == Some(outcome.message)
  {
    match outcome
    case Responded(status, latencyMs, body) =>
      if status == 200 then
        Status(node.ip, true, latencyMs,
               Some(body.currentUsers.GetOr(0)), Some(body.maxUsers.GetOr(100)), Some(body.cpuLoad.GetOr(0.0)),
               None)
      else DeadStatus(node.ip, "Bad Status")
    case Raised(message) => DeadStatus(node.ip, message)
  }

  /** The (name, record) pairs one monitor round assigns, in NODES order. */
  function RoundRecords(nodes: seq<Probe.NodeAddr>, outcomes: seq<Probe.Outcome>): (ps: seq<(string, Status)>)
    requires |outcomes| == |nodes|
    ensures |ps| == |nodes|
    ensures forall i :: 0 <= i < |nodes| ==> ps[i] == (nodes[i].name, ProbeRecord(nodes[i], outcomes[i]))
  {
    seq(|nodes|, i requires 0 <= i < |nodes| => (nodes[i].name, ProbeRecord(nodes[i], outcomes[i])))
  }

  // ------------------------------------------------------------------
  // Selection rule
  // ------------------------------------------------------------------

  /** Alive, and fewer users (0 when absent) than its capacity (100 when absent). */
  predicate Eligible(s: Status)
    ensures Eligible(s) ==> s.alive
    ensures s.alive && s.users.None? && s.max.None? ==> Eligible(s)
  {
    s.alive && s.users.GetOr(0) < s.max.GetOr(100)
  }

  /** Ping plus twice the load (0 when absent). */
  function Score(s: Status): (r: real)
    ensures s.load.None? ==> r == s.ping
    ensures s.load.Some? && s.load.value >= 0.0 ==> r >= s.ping
  {
    s.ping + s.load.GetOr(0.0) * 2.0
  }

  function CandidateOf(s: Status): Selection.Candidate {
    Selection.Candidate(Eligible(s), Score(s))
  }

  function Candidates(t: seq<(string, Status)>): (c: seq<Selection.Candidate>)
    ensures |c| == |t|
    ensures forall i :: 0 <= i < |t| ==> c[i] == CandidateOf(t[i].1)
  {
    seq(|t|, i requires 0 <= i < |t| => CandidateOf(t[i].1))
  }

  /** A node whose probe failed is never chosen, although its record has no users or max to compare. */
  lemma FailedNodeNeverChosen(t: seq<(string, Status)>, i: int, node: Probe.NodeAddr, outcome: Probe.Outcome)
    requires 0 <= i < |t| && t[i].1 == ProbeRecord(node, outcome)
    requires !(outcome.Responded? && outcome.status == 200)
    ensures !Selection.IsBest(Candidates(t), i)
  {
  }

  /** The reply of /api/get-best. */
  datatype BestReply = Target(ip: string, port: int) | Unavailable(error: string, code: int)

  class Controller {
    /** SERVER_STATUS, in insertion order. */
    var serverStatus: seq<(string, Status)>

    ghost predicate Valid()
      reads this
    {
      Table.Distinct(Table.Keys(serverStatus))
    }

    constructor ()
      ensures Valid() && serverStatus == []
    {
      serverStatus := [];
    }

    /** One pass of monitor_mesh over `nodes`, with the outcome of each node's probe given in the same order. */
    method MonitorMesh(nodes: seq<Probe.NodeAddr>, outcomes: seq<Probe.Outcome>)
      requires Valid() && |outcomes| == |nodes|
      modifies this
      ensures Valid()
      ensures serverStatus == Table.AssignAll(old(serverStatus), RoundRecords(nodes, outcomes))
    {
      ghost var ps := RoundRecords(nodes, outcomes);
      for i := 0 to |nodes|
        invariant Valid()
        invariant serverStatus == Table.AssignAll(old(serverStatus), ps[..i])
      {
        Table.AssignKeepsDistinct(serverStatus, nodes[i].name, ProbeRecord(nodes[i], outcomes[i]));
        serverStatus := Table.Assign(serverStatus, nodes[i].name, ProbeRecord(nodes[i], outcomes[i]));
        assert ps[..i + 1][..i] == ps[..i];
      }
      assert ps[..|nodes|] == ps;
    }

    /**
     * /api/get-best: the ip of the first eligible entry with the smallest score,
     * always with port 80; 503 when no entry is eligible.
     */
    method ApiGetBest() returns (reply: BestReply)
      ensures reply.Unavailable? <==> Selection.NoneEligible(Candidates(serverStatus))
      ensures reply.Unavailable? ==> reply == Unavailable("No servers available", 503)
      ensures reply.Target? ==>
                reply.port == 80
                && exists i :: Selection.IsBest(Candidates(serverStatus), i) && reply.ip == serverStatus[i].1.ip
    {
      ghost var c := Candidates(serverStatus);
      ghost var at := 0;
      var best: Option<Status> := None;
      var lowestScore: Option<real> := None;
      for k := 0 to |serverStatus|
        invariant best.None? <==> lowestScore.None?
        invariant best.None? <==> forall j :: 0 <= j < k ==> !c[j].eligible
        invariant best.Some? ==>
                    && 0 <= at < k && c[at].eligible
                    && best.value == serverStatus[at].1 && lowestScore == Some(c[at].score)
                    && (forall j :: 0 <= j < k && c[j].eligible ==> c[at].score <= c[j].score)
                    && (forall j :: 0 <= j < at && c[j].eligible ==> c[at].score < c[j].score)
      {
        var s := serverStatus[k].1;
        if s.alive && s.users.GetOr(0) < s.max.GetOr(100) {
          var score := s.ping + s.load.GetOr(0.0) * 2.0;
          if lowestScore.None? || score < lowestScore.value {
            lowestScore := Some(score);
            best := Some(s);
            at := k;
          }
        }
      }
      if best.Some? {
        assert Selection.IsBest(c, at);
        return Target(best.value.ip, 80);
      }
      return Unavailable("No servers available", 503);
    }
  }

  /** After a monitor round over nodes with distinct names, each node's entry holds the record of its own probe. */
  lemma RoundRecordsEveryNode(t: seq<(string, Status)>, nodes: seq<Probe.NodeAddr>, outcomes: seq<Probe.Outcome>, i: int)
    requires |outcomes| == |nodes| && 0 <= i < |nodes|
    requires forall a, b :: 0 <= a < b < |nodes| ==> nodes[a].name != nodes[b].name
    ensures Table.Get(Table.AssignAll(t, RoundRecords(nodes, outcomes)), nodes[i].name)
            == Some(ProbeRecord(nodes[i], outcomes[i]))
  {
    var ps := RoundRecords(nodes, outcomes);
    Table.LastValueOfDistinct(ps, i);
    Table.AssignAllGet(t, ps, nodes[i].name);
  }
}
