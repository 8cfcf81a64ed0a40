/**
 * The reverse-proxy controller (src/master.py): the NODE_STATS table its
 * health loop fills, the choice of the best node, and the header rules of the
 * proxy.
 */
module Master {
  import opened Wrappers
  import Text
  import Table
  import Probe
  import Selection

  /** An entry of NODE_STATS. */
  datatype Stats = Stats(ip: string, alive: bool, ping: real, load: real, users: int, max: int)

  /** The record written for a node that failed its probe. */
  function DeadRecord(ip: string): Stats {
    Stats(ip, false, 9999.0, 0.0, 0, 0)
  }

  /**
   * The record check_health writes after probing `node`: on a 200 answer the
   * measured ping and the reported load, users and capacity (0, 0 and 100 when
   * absent); on any other status or an exception, the dead record.
   */
  function ProbeRecord(node: Probe.NodeAddr, outcome: Probe.Outcome): (r: Stats)
    ensures r.ip == node.ip
    ensures r.alive <==> outcome.Responded? && outcome.status == 200
    ensures !r.alive ==> r == DeadRecord(node.ip)
    ensures r.alive ==> && r.ping == outcome.latencyMs
                        && r.load == outcome.body.cpuLoad.GetOr(0.0)
                        && r.users == outcome.body.currentUsers.GetOr(0)
                        && r.max == outcome.body.maxUsers.GetOr(100)
  {
    match outcome
    case Responded(status, latencyMs, body) =>
      if status == 200 then
        Stats(node.ip, true, latencyMs, body.cpuLoad.GetOr(0.0), body.currentUsers.GetOr(0), body.maxUsers.GetOr(100))
      else DeadRecord(node.ip)
    case Raised(_) => DeadRecord(node.ip)
  }

  /** The (name, record) pairs one health round assigns, in NODES order. */
  function RoundRecords(nodes: seq<Probe.NodeAddr>, outcomes: seq<Probe.Outcome>): (ps: seq<(string, Stats)>)
    requires |outcomes| == |nodes|
    ensures |ps| == |nodes|
    ensures forall i :: 0 <= i < |nodes| ==> ps[i] == (nodes[i].name, ProbeRecord(nodes[i], outcomes[i]))
  {
    seq(|nodes|, i requires 0 <= i < |nodes| => (nodes[i].name, ProbeRecord(nodes[i], outcomes[i])))
  }

  // ------------------------------------------------------------------
  // Selection rule
  // ------------------------------------------------------------------

  /** A node may receive traffic when it is alive and not full. */
  predicate Eligible(s: Stats)
    ensures s == DeadRecord(s.ip) ==> !Eligible(s)
    ensures Eligible(s) ==> s.alive && s.users < s.max
  {
    s.alive && !(s.users >= s.max)
  }

  /** Lower is better: ping plus twice the load. */
  function Score(s: Stats): (r: real)
    ensures s.load == 0.0 ==> r == s.ping
    ensures s.load >= 0.0 ==> r >= s.ping
  {
    s.ping + s.load * 2.0
  }

  function CandidateOf(s: Stats): Selection.Candidate {
    Selection.Candidate(Eligible(s), Score(s))
  }

  function Candidates(t: seq<(string, Stats)>): (c: seq<Selection.Candidate>)
    ensures |c| == |t|
    ensures forall i :: 0 <= i < |t| ==> c[i] == CandidateOf(t[i].1)
  {
    seq(|t|, i requires 0 <= i < |t| => CandidateOf(t[i].1))
  }

  /** A node whose last probe failed is never eligible, so it is never chosen. */
  lemma DeadNodeNeverChosen(t: seq<(string, Stats)>, i: int)
    requires 0 <= i < |t| && !t[i].1.alive
    ensures !Selection.IsBest(Candidates(t), i)
  {
  }

  // ------------------------------------------------------------------
  // Header rules of the proxy
  // ------------------------------------------------------------------

  type Header = (string, string)

  /** Hop-by-hop and length headers the proxy does not copy back, in lower case. */
  const ExcludedHeaders: seq<string> := ["content-encoding", "content-length", "transfer-encoding", "connection"]

  predicate KeepResponseHeader(name: string) {
    Text.Lower(name) !in ExcludedHeaders
  }

  /** The upstream response headers the proxy copies back to the client. */
  function FilterResponseHeaders(hs: seq<Header>): (r: seq<Header>)
    ensures |r| <= |hs|
    ensures forall h :: h in r <==> h in hs && KeepResponseHeader(h.0)
  {
    if hs == [] then []
    else (if KeepResponseHeader(hs[0].0) then [hs[0]] else []) + FilterResponseHeaders(hs[1..])
  }

  /** Filtering works piece by piece, so the kept headers stay in their upstream order. */
  lemma {:induction false} FilterResponseHeadersAppend(a: seq<Header>, b: seq<Header>)
    ensures FilterResponseHeaders(a + b) == FilterResponseHeaders(a) + FilterResponseHeaders(b)
    decreases |a|
  {
    if a == [] {
      assert a + b == b;
    } else {
      assert (a + b)[0] == a[0] && (a + b)[1..] == a[1..] + b;
      FilterResponseHeadersAppend(a[1..], b);
    }
  }

  /** Filtering a second time removes nothing more. */
  lemma {:induction false} FilterResponseHeadersIdempotent(hs: seq<Header>)
    ensures FilterResponseHeaders(FilterResponseHeaders(hs)) == FilterResponseHeaders(hs)
    decreases |hs|
  {
    if hs != [] {
      var head := if KeepResponseHeader(hs[0].0) then [hs[0]] else [];
      FilterResponseHeadersAppend(head, FilterResponseHeaders(hs[1..]));
      FilterResponseHeadersIdempotent(hs[1..]);
    }
  }

  /** The exclusion ignores letter case: "Content-Length" is dropped like "content-length". */
  lemma ExclusionIgnoresCase()
    ensures !KeepResponseHeader("Content-Length")
    ensures !KeepResponseHeader("Connection")
  {
    assert Text.Lower("Content-Length") == "content-length";
    assert Text.Lower("Connection") == "connection";
  }

  /** The incoming headers without those whose name is exactly "Host". */
  function WithoutHost(hs: seq<Header>): (r: seq<Header>)
    ensures forall h :: h in r <==> h in hs && h.0 != "Host"
  {
    if hs == [] then []
    else (if hs[0].0 != "Host" then [hs[0]] else []) + WithoutHost(hs[1..])
  }

  /** The headers sent upstream: a dict built from the incoming pairs other than "Host". */
  function ForwardedHeaders(incoming: seq<Header>): (r: seq<Header>)
    ensures Table.Distinct(Table.Keys(r))
  {
    Table.AssignAllKeepsDistinct([], WithoutHost(incoming));
    Table.AssignAll([], WithoutHost(incoming))
  }

  /** Removing "Host" works piece by piece, so the other headers stay in their incoming order. */
  lemma {:induction false} WithoutHostAppend(a: seq<Header>, b: seq<Header>)
    ensures WithoutHost(a + b) == WithoutHost(a) + WithoutHost(b)
    decreases |a|
  {
    if a == [] {
      assert a + b == b;
    } else {
      assert (a + b)[0] == a[0] && (a + b)[1..] == a[1..] + b;
      WithoutHostAppend(a[1..], b);
    }
  }

  /** Removing "Host" does not change the last value of any other name. */
  lemma {:induction false} WithoutHostLastValue(hs: seq<Header>, name: string)
    requires name != "Host"
    ensures Table.LastValue(WithoutHost(hs), name) == Table.LastValue(hs, name)
    decreases |hs|
  {
    if hs != [] {
      var n := |hs| - 1;
      var pre, last := hs[..n], hs[n];
      assert hs == pre + [last];
      var w, wl := WithoutHost(pre), WithoutHost([last]);
      WithoutHostAppend(pre, [last]);
      assert WithoutHost(hs) == w + wl;
      WithoutHostLastValue(pre, name);
      Table.LastValueSnoc(pre, last, name);
      if last.0 == "Host" {
        assert wl == [];
        assert w + wl == w;
      } else {
        assert wl == [last];
        Table.LastValueSnoc(w, last, name);
      }
    }
  }

  /**
   * The forwarded headers have distinct names, exactly the incoming names other
   * than "Host" (compared case-sensitively), each with the last value it came with.
   */
  lemma ForwardedHeadersSpec(incoming: seq<Header>, name: string)
    ensures Table.Distinct(Table.Keys(ForwardedHeaders(incoming)))
    ensures name in Table.Keys(ForwardedHeaders(incoming)) <==> name != "Host" && name in Table.Keys(incoming)
    ensures Table.Get(ForwardedHeaders(incoming), name) == if name == "Host" then None else Table.LastValue(incoming, name)
  {
    var kept := WithoutHost(incoming);
    Table.AssignAllKeys([], kept, name);
    Table.AssignAllGet([], kept, name);
    Table.GetFinds(ForwardedHeaders(incoming), name);
    if name != "Host" {
      WithoutHostLastValue(incoming, name);
    }
    if name != "Host" && name in Table.Keys(incoming) {
      var i :| 0 <= i < |incoming| && Table.Keys(incoming)[i] == name;
      assert incoming[i] in kept;
    }
    if name in Table.Keys(kept) {
      var i :| 0 <= i < |kept| && Table.Keys(kept)[i] == name;
      assert kept[i] in incoming;
    }
  }

  /** When no name repeats, every incoming header except "Host" is forwarded, in order. */
  lemma {:induction false} ForwardedHeadersDistinct(incoming: seq<Header>)
    requires Table.Distinct(Table.Keys(incoming))
    ensures ForwardedHeaders(incoming) == WithoutHost(incoming)
  {
    WithoutHostKeepsDistinct(incoming);
    Table.AssignAllDistinct(WithoutHost(incoming));
  }

  lemma {:induction false} WithoutHostKeepsDistinct(hs: seq<Header>)
    requires Table.Distinct(Table.Keys(hs))
    ensures Table.Distinct(Table.Keys(WithoutHost(hs)))
    decreases |hs|
  {
    if hs != [] {
      var ks := Table.Keys(hs);
      var tail := hs[1..];
      Table.KeysCons(hs);
      forall i, j | 0 <= i < j < |tail|
        ensures Table.Keys(tail)[i] != Table.Keys(tail)[j]
      {
        assert Table.Keys(tail)[i] == ks[i + 1] && Table.Keys(tail)[j] == ks[j + 1];
      }
      WithoutHostKeepsDistinct(tail);
      var rest := WithoutHost(tail);
      if hs[0].0 != "Host" {
        var r := [hs[0]] + rest;
        assert WithoutHost(hs) == r;
        assert r[1..] == rest;
        Table.KeysCons(r);
        forall j | 0 <= j < |rest|
          ensures Table.Keys(rest)[j] != hs[0].0
        {
          assert rest[j] in tail;
          var m :| 0 <= m < |tail| && tail[m] == rest[j];
          assert ks[m + 1] == rest[j].0;
        }
        Table.DistinctCons(hs[0].0, Table.Keys(rest));
      } else {
        assert WithoutHost(hs) == [] + rest == rest;
      }
    }
  }

  // ------------------------------------------------------------------
  // The controller's state and handlers
  // ------------------------------------------------------------------

  /** A request the proxy sends upstream: the target URL and the headers. */
  datatype Forward = Forward(url: string, headers: seq<Header>)

  /** What the upstream request produced: a response, or an exception with its message. */
  datatype Upstream = Answered(status: int, content: string, headers: seq<Header>) | Failed(message: string)

  /** The proxy's own response to the client. */
  datatype Response = Response(status: int, body: string, headers: seq<Header>)

  class Controller {
    /** NODE_STATS, in insertion order. */
    var nodeStats: seq<(string, Stats)>

    ghost predicate Valid()
      reads this
    {
      Table.Distinct(Table.Keys(nodeStats))
    }

    constructor ()
      ensures Valid() && nodeStats == []
    {
      nodeStats := [];
    }

    /** One pass of check_health over `nodes`, with the outcome of each node's probe given in the same order. */
    method CheckHealth(nodes: seq<Probe.NodeAddr>, outcomes: seq<Probe.Outcome>)
      requires Valid() && |outcomes| == |nodes|
      modifies this
      ensures Valid()
      ensures nodeStats == Table.AssignAll(old(nodeStats), RoundRecords(nodes, outcomes))
    {
      ghost var ps := RoundRecords(nodes, outcomes);
      for i := 0 to |nodes|
        invariant Valid()
        invariant nodeStats == Table.AssignAll(old(nodeStats), ps[..i])
      {
        Table.AssignKeepsDistinct(nodeStats, nodes[i].name, ProbeRecord(nodes[i], outcomes[i]));
        nodeStats := Table.Assign(nodeStats, nodes[i].name, ProbeRecord(nodes[i], outcomes[i]));
        assert ps[..i + 1][..i] == ps[..i];
      }
      assert ps[..|nodes|] == ps;
    }

    /** get_best_node: the first alive, non-full entry with the smallest score, or None. */
    method GetBestNode() returns (best: Option<Stats>)
      ensures best.None? <==> Selection.NoneEligible(Candidates(nodeStats))
      ensures best.Some? ==>
                exists i :: Selection.IsBest(Candidates(nodeStats), i) && best.value == nodeStats[i].1
    {
      ghost var c := Candidates(nodeStats);
      ghost var at := 0;
      best := None;
      var minScore: Option<real> := None;
      for k := 0 to |nodeStats|
        invariant best.None? <==> minScore.None?
        invariant best.None? <==> forall j :: 0 <= j < k ==> !c[j].eligible
        invariant best.Some? ==>
                    && 0 <= at < k && c[at].eligible
                    && best.value == nodeStats[at].1 && minScore == Some(c[at].score)
                    && (forall j :: 0 <= j < k && c[j].eligible ==> c[at].score <= c[j].score)
                    && (forall j :: 0 <= j < at && c[j].eligible ==> c[at].score < c[j].score)
      {
        var stats := nodeStats[k].1;
        if !stats.alive { continue; }
        if stats.users >= stats.max { continue; }
        var score := stats.ping + stats.load * 2.0;
        if minScore.None? || score < minScore.value {
          minScore := Some(score);
          best := Some(stats);
          at := k;
        }
      }
      if best.Some? {
        assert Selection.IsBest(c, at);
      }
    }

    /**
     * The proxy route: pick a node, forward the request to its ip (the
     * forwarding itself is I/O; its result is given as `upstream`) and relay the
     * answer, or answer 503 when no node can take it.
     */
    method Proxy(path: string, incoming: seq<Header>, upstream: Upstream) returns (sent: Option<Forward>, resp: Response)
      ensures sent.None? <==> Selection.NoneEligible(Candidates(nodeStats))
      ensures sent.None? ==> resp == Response(503, "No servers available", [])
      ensures sent.Some? ==>
                exists i :: Selection.IsBest(Candidates(nodeStats), i)
                            && sent.value.url == "http://" + nodeStats[i].1.ip + "/" + path
      ensures sent.Some? ==> sent.value.headers == ForwardedHeaders(incoming)
      ensures sent.Some? && upstream.Answered? ==>
                resp == Response(upstream.status, upstream.content, FilterResponseHeaders(upstream.headers))
      ensures sent.Some? && upstream.Failed? ==> resp == Response(500, "Proxy Error: " + upstream.message, [])
    {
      var target := GetBestNode();
      if target.None? {
        return None, Response(503, "No servers available", []);
      }
      var targetUrl := "http://" + target.value.ip + "/" + path;
      sent := Some(Forward(targetUrl, ForwardedHeaders(incoming)));
      match upstream
      case Answered(status, content, headers) =>
        resp := Response(status, content, FilterResponseHeaders(headers));
      case Failed(message) =>
        resp := Response(500, "Proxy Error: " + message, []);
    }
  }

  /** After a health round over nodes with distinct names, each node's entry holds the record of its own probe. */
  lemma RoundRecordsEveryNode(t: seq<(string, Stats)>, nodes: seq<Probe.NodeAddr>, outcomes: seq<Probe.Outcome>, i: int)
    requires |outcomes| == |nodes| && 0 <= i < |nodes|
    requires forall a, b :: 0 <= a < b < |nodes| ==> nodes[a].name != nodes[b].name
    ensures Table.Get(Table.AssignAll(t, RoundRecords(nodes, outcomes)), nodes[i].name)
            == Some(ProbeRecord(nodes[i], outcomes[i]))
  {
    var ps := RoundRecords(nodes, outcomes);
    Table.LastValueOfDistinct(ps, i);
    Table.AssignAllGet(t, ps, nodes[i].name);
  }
}
