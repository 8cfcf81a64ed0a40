/**
 * The node agent (src/node.py): an admission counter that /connect and
 * /disconnect move against the configured capacity, the start-up port
 * migration, the report its /stats endpoint gives the controllers, and the
 * time-zone based region classifier.
 */
module Node {
  import opened Wrappers
  import Text
  import Probe

  /** The fields of config.yaml that the agent's logic reads. */
  datatype Config = Config(serverName: string, region: string, maxUsers: int, port: Option<int>)

  /** A JSON reply body (its "status" and optional "server" field) with its HTTP status code. */
  datatype Reply = Reply(status: string, server: Option<string>, code: int)

  // ------------------------------------------------------------------
  // Admission counter
  // ------------------------------------------------------------------

  datatype Request = Connect | Disconnect

  /** The invariant of the counter: never negative, and above the capacity only if it is 0. */
  predicate InBounds(users: int, maxUsers: int) {
    0 <= users && (users <= maxUsers || users == 0)
  }

  /** The counter after serving one request. */
  function Next(users: int, maxUsers: int, req: Request): (r: int)
    ensures InBounds(users, maxUsers) ==> InBounds(r, maxUsers)
    ensures r == users || r == users + 1 || r == users - 1
  {
    match req
    case Connect => if users < maxUsers then users + 1 else users
    case Disconnect => if users > 0 then users - 1 else users
  }

  /** The reply to one request. */
  function Answer(users: int, maxUsers: int, serverName: string, req: Request): (r: Reply)
    ensures r.code == 200 || r.code == 503
    ensures r.code == 503 <==> req == Connect && Next(users, maxUsers, req) == users
  {
    match req
    case Connect =>
      if users < maxUsers then Reply("connected", Some(serverName), 200) else Reply("full", None, 503)
    case Disconnect => Reply("disconnected", None, 200)
  }

  /** The counter after serving `reqs` one after the other. */
  function Serve(users: int, maxUsers: int, reqs: seq<Request>): int
    decreases |reqs|
  {
    if reqs == [] then users else Serve(Next(users, maxUsers, reqs[0]), maxUsers, reqs[1..])
  }

  /** A connect is admitted exactly when it moves the counter up by one, and then it is answered "connected"/200. */
  lemma ConnectAdmits(users: int, maxUsers: int, serverName: string)
    ensures var after := Next(users, maxUsers, Connect);
            var reply := Answer(users, maxUsers, serverName, Connect);
            (users < maxUsers <==> after == users + 1)
            && (users < maxUsers <==> reply.code == 200)
            && (reply.code == 200 ==> reply == Reply("connected", Some(serverName), 200))
            && (reply.code != 200 ==> reply == Reply("full", None, 503) && after == users)
  {
  }

  /** A disconnect lowers a positive counter by one, leaves 0 at 0, and is always answered "disconnected"/200. */
  lemma DisconnectNeverNegative(users: int, maxUsers: int, serverName: string)
    requires users >= 0
    ensures var after := Next(users, maxUsers, Disconnect);
            after >= 0 && after == (if users > 0 then users - 1 else 0)
            && Answer(users, maxUsers, serverName, Disconnect) == Reply("disconnected", None, 200)
  {
  }

  /** A disconnect undoes an admitted connect. */
  lemma DisconnectUndoesConnect(users: int, maxUsers: int)
    requires 0 <= users < maxUsers
    ensures Next(Next(users, maxUsers, Connect), maxUsers, Disconnect) == users
  {
  }

  /** Every sequence of requests keeps the counter within its bounds. */
  lemma {:induction false} ServeKeepsBounds(users: int, maxUsers: int, reqs: seq<Request>)
    requires InBounds(users, maxUsers)
    ensures InBounds(Serve(users, maxUsers, reqs), maxUsers)
    ensures maxUsers >= 0 ==> 0 <= Serve(users, maxUsers, reqs) <= maxUsers
    decreases |reqs|
  {
    if reqs != [] {
      ServeKeepsBounds(Next(users, maxUsers, reqs[0]), maxUsers, reqs[1..]);
    }
  }

  /** `n` connect requests in a row admit exactly as many users as there are free places, and no more. */
  lemma {:induction false} ConnectsFillUp(users: int, maxUsers: int, n: nat)
    requires 0 <= users <= maxUsers
    ensures Serve(users, maxUsers, seq(n, _ => Connect)) == if users + n <= maxUsers then users + n else maxUsers
    decreases n
  {
    if n > 0 {
      var reqs := seq(n, _ => Connect);
      assert reqs[0] == Connect && reqs[1..] == seq(n - 1, _ => Connect);
      ConnectsFillUp(Next(users, maxUsers, Connect), maxUsers, n - 1);
    }
  }

  // ------------------------------------------------------------------
  // Port migration and the listening port
  // ------------------------------------------------------------------

  /** The start-up rule: a stored port of 5000 becomes 5001; any other value, or none, is kept. */
  function MigratedPort(port: Option<int>): (r: Option<int>)
    ensures r != Some(5000)
    ensures r == port || (port == Some(5000) && r == Some(5001))
  {
    if port == Some(5000) then Some(5001) else port
  }

  /** The port the agent listens on: the configured one, 5001 when none is configured. */
  function ListenPort(config: Config): (r: int)
    ensures config.port != Some(5000) ==> r != 5000
  {
    config.port.GetOr(5001)
  }

  /** Migrating twice is migrating once, and a migrated configuration never listens on 5000. */
  lemma MigrationSettles(config: Config)
    ensures MigratedPort(MigratedPort(config.port)) == MigratedPort(config.port)
    ensures ListenPort(config.(port := MigratedPort(config.port))) != 5000
  {
  }

  // ------------------------------------------------------------------
  // The agent's state
  // ------------------------------------------------------------------

  /** The process state of a running agent: its loaded configuration and the admission counter. */
  class Agent {
    var config: Config
    var currentUsers: int

    ghost predicate Valid()
      reads this
    {
      InBounds(currentUsers, config.maxUsers)
    }

    /** Start-up: take the stored configuration, migrate its port in place, start with no users. */
    constructor Start(stored: Config)
      ensures Valid()
      ensures config == stored.(port := MigratedPort(stored.port))
      ensures currentUsers == 0
    {
      config := stored;
      currentUsers := 0;
      new;
      if config.port == Some(5000) {
        config := config.(port := Some(5001));
      }
    }

    /** POST /connect. */
    method ConnectUser() returns (reply: Reply)
      requires Valid()
      modifies this`currentUsers
      ensures Valid()
      ensures old(currentUsers) < config.maxUsers ==>
                currentUsers == old(currentUsers) + 1 && reply == Reply("connected", Some(config.serverName), 200)
      ensures old(currentUsers) >= config.maxUsers ==>
                currentUsers == old(currentUsers) && reply == Reply("full", None, 503)
      ensures currentUsers == Next(old(currentUsers), config.maxUsers, Connect)
      ensures reply == Answer(old(currentUsers), config.maxUsers, config.serverName, Connect)
    {
      if currentUsers < config.maxUsers {
        currentUsers := currentUsers + 1;
        return Reply("connected", Some(config.serverName), 200);
      }
      return Reply("full", None, 503);
    }

    /** POST /disconnect. */
    method DisconnectUser() returns (reply: Reply)
      requires Valid()
      modifies this`currentUsers
      ensures Valid()
      ensures currentUsers == if old(currentUsers) > 0 then old(currentUsers) - 1 else old(currentUsers)
      ensures reply == Reply("disconnected", None, 200)
      ensures currentUsers == Next(old(currentUsers), config.maxUsers, Disconnect)
      ensures reply == Answer(old(currentUsers), config.maxUsers, config.serverName, Disconnect)
    {
      if currentUsers > 0 {
        currentUsers := currentUsers - 1;
      }
      return Reply("disconnected", None, 200);
    }

    /** The part of GET /stats the controllers read; the CPU load is a sensor reading passed in. */
    function StatsReport(cpuLoad: real): (body: Probe.StatusBody)
      reads this
      ensures body.currentUsers == Some(currentUsers) && body.maxUsers == Some(config.maxUsers)
    {
      Probe.StatusBody(Some(cpuLoad), Some(currentUsers), Some(config.maxUsers))
    }
  }

  // ------------------------------------------------------------------
  // Region classifier
  // ------------------------------------------------------------------

  /** The labels the classifier can produce. */
  const RegionLabels: set<string> := {"EU", "AFRICA", "ASIA", "OCE", "NA-WEST", "NA-CENTRAL", "NA-EAST", "GLOBAL"}

  /** The classifier on a lower-cased time-zone name: an ordered chain of substring tests, first match wins. */
  function RegionOf(tz: string): (r: string)
    ensures r in RegionLabels
  {
    if Text.Contains(tz, "europe") || Text.Contains(tz, "cet") || Text.Contains(tz, "eet") || Text.Contains(tz, "bst") then "EU"
    else if Text.Contains(tz, "africa") then "AFRICA"
    else if Text.Contains(tz, "asia") || Text.Contains(tz, "china") || Text.Contains(tz, "tokyo") then "ASIA"
    else if Text.Contains(tz, "australia") || Text.Contains(tz, "nz") then "OCE"
    else if Text.Contains(tz, "pacific") then "NA-WEST"
    else if Text.Contains(tz, "mountain") || Text.Contains(tz, "central") then "NA-CENTRAL"
    else if Text.Contains(tz, "eastern") || Text.Contains(tz, "est") || Text.Contains(tz, "edt") then "NA-EAST"
    else "GLOBAL"
  }

  /** A classification rule: the region a name belongs to when it contains any of the substrings. */
  datatype Rule = Rule(needles: seq<string>, region: string)

  /** The same classifier written as a table, in the order the rules are tried. */
  const RegionRules: seq<Rule> := [
    Rule(["europe", "cet", "eet", "bst"], "EU"),
    Rule(["africa"], "AFRICA"),
    Rule(["asia", "china", "tokyo"], "ASIA"),
    Rule(["australia", "nz"], "OCE"),
    Rule(["pacific"], "NA-WEST"),
    Rule(["mountain", "central"], "NA-CENTRAL"),
    Rule(["eastern", "est", "edt"], "NA-EAST")
  ]

  predicate Fires(rule: Rule, tz: string) {
    exists n :: n in rule.needles && Text.Contains(tz, n)
  }

  /** Rule `i` is the first one that fires. */
  predicate IsFirstMatch(rules: seq<Rule>, tz: string, i: int) {
    0 <= i < |rules| && Fires(rules[i], tz) && forall j :: 0 <= j < i ==> !Fires(rules[j], tz)
  }

  /** Table-driven first-match classification, trying the rules from index `from` on. */
  function FirstMatch(rules: seq<Rule>, from: nat, fallback: string, tz: string): string
    decreases |rules| - from
  {
    if from >= |rules| then fallback
    else if Fires(rules[from], tz) then rules[from].region
    else FirstMatch(rules, from + 1, fallback, tz)
  }

  /** A table classifier answers the region of the first rule that fires, and the fallback when none does. */
  lemma {:induction false} FirstMatchSpec(rules: seq<Rule>, from: nat, fallback: string, tz: string)
    requires from <= |rules|
    requires forall j :: 0 <= j < from ==> !Fires(rules[j], tz)
    ensures (forall j :: 0 <= j < |rules| ==> !Fires(rules[j], tz)) ==> FirstMatch(rules, from, fallback, tz) == fallback
    ensures forall i :: IsFirstMatch(rules, tz, i) ==> FirstMatch(rules, from, fallback, tz) == rules[i].region
    decreases |rules| - from
  {
    if from < |rules| && !Fires(rules[from], tz) {
      FirstMatchSpec(rules, from + 1, fallback, tz);
    }
  }

  /** The if-chain is the rule table tried in order. */
  lemma RegionOfIsFirstMatch(tz: string)
    ensures RegionOf(tz) == FirstMatch(RegionRules, 0, "GLOBAL", tz)
  {
    var rules := RegionRules;
    assert Fires(rules[0], tz) <==>
      Text.Contains(tz, "europe") || Text.Contains(tz, "cet") || Text.Contains(tz, "eet") || Text.Contains(tz, "bst");
    assert Fires(rules[1], tz) <==> Text.Contains(tz, "africa");
    assert Fires(rules[2], tz) <==> Text.Contains(tz, "asia") || Text.Contains(tz, "china") || Text.Contains(tz, "tokyo");
    assert Fires(rules[3], tz) <==> Text.Contains(tz, "australia") || Text.Contains(tz, "nz");
    assert Fires(rules[4], tz) <==> Text.Contains(tz, "pacific");
    assert Fires(rules[5], tz) <==> Text.Contains(tz, "mountain") || Text.Contains(tz, "central");
    assert Fires(rules[6], tz) <==> Text.Contains(tz, "eastern") || Text.Contains(tz, "est") || Text.Contains(tz, "edt");
    assert FirstMatch(rules, 7, "GLOBAL", tz) == "GLOBAL";
  }

  /** The classifier answers GLOBAL exactly when no listed substring occurs in the name. */
  lemma RegionGlobalIff(tz: string)
    ensures RegionOf(tz) == "GLOBAL" <==> forall j :: 0 <= j < |RegionRules| ==> !Fires(RegionRules[j], tz)
  {
    RegionOfIsFirstMatch(tz);
    FirstMatchSpec(RegionRules, 0, "GLOBAL", tz);
  }

  /** detect_region: the host's standard time-zone name, lower-cased, or "utc" when it cannot be read. */
  function DetectRegion(tzName: Option<string>): (r: string)
    ensures r in RegionLabels
  {
    RegionOf(if tzName.Some? then Text.Lower(tzName.value) else "utc")
  }

  /** A name containing "europe" is EU even when it also names a later rule's substring, such as "central". */
  lemma EuropeWinsOverCentral(tz: string)
    requires Text.Contains(tz, "europe")
    ensures RegionOf(tz) == "EU"
  {
  }

  /** Whatever rule fires first decides the region, whichever later rules also fire. */
  lemma FirstMatchWins(tz: string, i: int)
    requires IsFirstMatch(RegionRules, tz, i)
    ensures RegionOf(tz) == RegionRules[i].region
  {
    RegionOfIsFirstMatch(tz);
    FirstMatchSpec(RegionRules, 0, "GLOBAL", tz);
  }

  /** When the time-zone name cannot be read, the fallback "utc" matches no rule and the region is GLOBAL. */
  lemma UnreadableZoneIsGlobal()
    ensures DetectRegion(None) == "GLOBAL"
  {
    var tz := "utc";
    Text.MissingCharExcludes(tz, "cet", 'e');
    Text.MissingCharExcludes(tz, "eet", 'e');
    Text.MissingCharExcludes(tz, "bst", 'b');
    Text.MissingCharExcludes(tz, "nz", 'n');
    Text.MissingCharExcludes(tz, "est", 'e');
    Text.MissingCharExcludes(tz, "edt", 'e');
  }

  /** Abbreviations are matched as substrings too: "aest" contains "est" and is classified NA-EAST. */
  lemma AbbreviationsMatchBySubstring()
    ensures RegionOf("aest") == "NA-EAST"
  {
    var tz := "aest";
    Text.MissingCharExcludes(tz, "cet", 'c');
    Text.MissingCharExcludes(tz, "bst", 'b');
    Text.MissingCharExcludes(tz, "nz", 'n');
    assert !Text.Contains(tz, "eet") by {
      assert tz[1..] == "est" && "est"[1..] == "st" && "st"[1..] == "t" && "t"[1..] == "";
      assert !Text.Contains("", "eet");
      assert !Text.Contains("t", "eet");
      assert !Text.Contains("st", "eet");
      assert "eet"[1] != "est"[1];
      assert !Text.Contains("est", "eet");
      assert "eet"[0] != tz[0];
    }
    assert Text.Contains(tz, "est") by {
      assert "est" <= tz[1..];
    }
  }

  /** The host time-zone name is lower-cased first, so its letter case never matters. */
  lemma DetectRegionIgnoresCase(a: string, b: string)
    requires Text.Lower(a) == Text.Lower(b)
    ensures DetectRegion(Some(a)) == DetectRegion(Some(b))
  {
  }
}
