/**
 * Per-IP port rules (PortIPManager): a table from addresses to sets of rules, where a rule
 * is identified by its address and port alone; the commands that open, block, close and
 * unblock a port for an address; the automatic re-opening pass; and the permission query.
 */
module PortIp {
  import opened Wrappers
  import opened JavaText
  import opened Collections
  import opened Config
  import opened Gateway
  import opened IpAddress

  /** A rule; `action` is "OPEN" or "BLOCK" when written by a command, anything when loaded. */
  datatype PortIpRule = PortIpRule(ip: string, port: int, protocol: string, action: string,
                                   description: string, ruleName: string)

  /** A `ports-ip.rules.<ruleName>` entry; a missing field reads as `None`. */
  datatype PortIpEntry = PortIpEntry(ip: Option<string>, port: Option<int>, protocol: Option<string>,
                                     action: Option<string>, description: Option<string>)

  /** One key of the table with its rule set, the set in its iteration order. */
  datatype IpRules = IpRules(ip: string, rules: seq<PortIpRule>)

  /** The table, in its iteration order. */
  type Table = seq<IpRules>

  /** The replies of the four commands. */
  datatype PortIpReply =
    | Opened | FailedToOpen | Blocked | Closed | Unblocked
    | InvalidIp | InvalidNumber | InvalidRange | InvalidProtocol
    | IpNotFound | OpenRuleNotFound | BlockRuleNotFound

  // ---------------------------------------------------------------------------
  // Rule sets: PortIPRule.equals compares the address and the port

  predicate SameRule(a: PortIpRule, b: PortIpRule) {
    a.ip == b.ip && a.port == b.port
  }

  predicate IsOpen(r: PortIpRule) {
    EqualsIgnoreCase("OPEN", r.action)
  }

  predicate IsBlock(r: PortIpRule) {
    EqualsIgnoreCase("BLOCK", r.action)
  }

  /** "OPEN" and "BLOCK" differ ignoring case, so no rule is both. */
  lemma OpenBlockExclusive(r: PortIpRule)
    ensures !(IsOpen(r) && IsBlock(r))
  {
    if IsOpen(r) {
      assert CharsEqualIgnoreCase('O', r.action[0]);
    }
  }

  predicate ContainsRule(rules: seq<PortIpRule>, rule: PortIpRule) {
    exists k :: 0 <= k < |rules| && SameRule(rules[k], rule)
  }

  predicate PortsDistinct(rules: seq<PortIpRule>) {
    forall j, k :: 0 <= j < k < |rules| ==> rules[j].port != rules[k].port
  }

  /** The set of one key: every rule carries the key, and so no two rules share a port. */
  predicate EntryValid(e: IpRules) {
    (forall k :: 0 <= k < |e.rules| ==> e.rules[k].ip == e.ip) && PortsDistinct(e.rules)
  }

  /** The table invariant: keys distinct and every set valid. */
  predicate TableValid(t: Table) {
    (forall i, j :: 0 <= i < j < |t| ==> t[i].ip != t[j].ip) &&
    (forall i :: 0 <= i < |t| ==> EntryValid(t[i]))
  }

  /** HashSet.add: a rule equal to one already in the set is not inserted. */
  function AddToSet(rules: seq<PortIpRule>, rule: PortIpRule): seq<PortIpRule> {
    if ContainsRule(rules, rule) then rules else rules + [rule]
  }

  /** What a removal drops: a rule on a port with an action (removeIf), or the rules equal to one rule (remove). */
  datatype Criterion = PortAction(port: int, action: string) | EqualTo(rule: PortIpRule)

  predicate Dropped(c: Criterion, x: PortIpRule) {
    match c
    case PortAction(port, action) => x.port == port && EqualsIgnoreCase(action, x.action)
    case EqualTo(rule) => SameRule(x, rule)
  }

  /**
   * Set.removeIf / Set.remove: the rules the criterion drops are removed, the others kept in
   * order; the set shrinks exactly when some rule was dropped (removeIf's result).
   */
  function RemoveWhere(rules: seq<PortIpRule>, c: Criterion): (r: seq<PortIpRule>)
    ensures forall x :: x in r <==> x in rules && !Dropped(c, x)
    ensures |r| <= |rules|
    ensures |r| == |rules| <==> forall k :: 0 <= k < |rules| ==> !Dropped(c, rules[k])
  {
    if rules == [] then []
    else
      var rest := RemoveWhere(rules[1..], c);
      assert forall k :: 1 <= k < |rules| ==> rules[k] == rules[1..][k - 1];
      if Dropped(c, rules[0]) then rest else [rules[0]] + rest
  }

  lemma {:induction false} RemoveWhereDistinct(rules: seq<PortIpRule>, c: Criterion)
    requires PortsDistinct(rules)
    ensures PortsDistinct(RemoveWhere(rules, c))
  {
    if rules != [] {
      var tail := rules[1..];
      assert PortsDistinct(tail) by {
        forall j, k | 0 <= j < k < |tail| ensures tail[j].port != tail[k].port {
          assert tail[j] == rules[j + 1] && tail[k] == rules[k + 1];
        }
      }
      RemoveWhereDistinct(tail, c);
      if !Dropped(c, rules[0]) {
        var rest := RemoveWhere(tail, c);
        var r := [rules[0]] + rest;
        forall j, k | 0 <= j < k < |r| ensures r[j].port != r[k].port {
          assert r[k] == rest[k - 1];
          if j == 0 {
            assert rest[k - 1] in tail;
            var m :| 0 <= m < |tail| && tail[m] == rest[k - 1];
            assert rules[m + 1] == tail[m];
          } else {
            assert r[j] == rest[j - 1];
          }
        }
      }
    }
  }

  /** A removal keeps a set valid. */
  lemma RemoveWhereValid(e: IpRules, c: Criterion)
    requires EntryValid(e)
    ensures EntryValid(IpRules(e.ip, RemoveWhere(e.rules, c)))
  {
    RemoveWhereDistinct(e.rules, c);
    var r := RemoveWhere(e.rules, c);
    forall k | 0 <= k < |r| ensures r[k].ip == e.ip {
      assert r[k] in e.rules;
    }
  }

  /** In a valid set, two rules on the same port are the same rule. */
  lemma SamePortSameRule(e: IpRules, a: PortIpRule, b: PortIpRule)
    requires EntryValid(e) && a in e.rules && b in e.rules && a.port == b.port
    ensures a == b
  {
    var j :| 0 <= j < |e.rules| && e.rules[j] == a;
    var k :| 0 <= k < |e.rules| && e.rules[k] == b;
    assert !(j < k) && !(k < j);
  }

  /** The first rule of the set on `port`, if any. */
  function FindPort(rules: seq<PortIpRule>, port: int): (r: Option<PortIpRule>)
    ensures r.Some? ==> r.value in rules && r.value.port == port
    ensures r.None? ==> forall k :: 0 <= k < |rules| ==> rules[k].port != port
  {
    if rules == [] then None
    else if rules[0].port == port then Some(rules[0])
    else
      var r := FindPort(rules[1..], port);
      assert forall k :: 1 <= k < |rules| ==> rules[k] == rules[1..][k - 1];
      r
  }

  // ---------------------------------------------------------------------------
  // The table: a HashMap<String, Set<PortIPRule>>

  /** The index of the key `ip`, or -1; containsKey(ip) is `Find(t, ip) >= 0`. */
  function Find(t: Table, ip: string): (i: int)
    ensures -1 <= i < |t|
    ensures 0 <= i ==> t[i].ip == ip
    ensures i < 0 ==> forall j :: 0 <= j < |t| ==> t[j].ip != ip
  {
    if t == [] then -1
    else if t[0].ip == ip then 0
    else
      var j := Find(t[1..], ip);
      assert forall k :: 1 <= k < |t| ==> t[k] == t[1..][k - 1];
      if j < 0 then -1 else j + 1
  }

  predicate HasIp(t: Table, ip: string) {
    Find(t, ip) >= 0
  }

  /** get(ip), with the empty set for a missing key. */
  function RulesOf(t: Table, ip: string): seq<PortIpRule> {
    var i := Find(t, ip);
    if i >= 0 then t[i].rules else []
  }

  /** The set of an existing key replaced. */
  function WithRules(t: Table, ip: string, rules: seq<PortIpRule>): Table
    requires HasIp(t, ip)
  {
    t[Find(t, ip) := IpRules(ip, rules)]
  }

  /** remove(ip). */
  function WithoutIp(t: Table, ip: string): (r: Table)
    ensures forall e :: e in r <==> e in t && e.ip != ip
  {
    if t == [] then []
    else if t[0].ip == ip then WithoutIp(t[1..], ip)
    else [t[0]] + WithoutIp(t[1..], ip)
  }

  /** computeIfAbsent(rule.ip, new HashSet).add(rule). */
  function Added(t: Table, rule: PortIpRule): Table {
    var i := Find(t, rule.ip);
    if i >= 0 then t[i := IpRules(rule.ip, AddToSet(t[i].rules, rule))]
    else t + [IpRules(rule.ip, [rule])]
  }

  /** Every rule of the table, key by key, each set in its iteration order. */
  function Flatten(t: Table): seq<PortIpRule> {
    if t == [] then [] else Flatten(t[..|t| - 1]) + t[|t| - 1].rules
  }

  /** getPortIPCount: the sizes of the sets summed, which is the number of rules in the table. */
  function Count(t: Table): (n: nat)
    ensures n == |Flatten(t)|
  {
    if t == [] then 0 else Count(t[..|t| - 1]) + |t[|t| - 1].rules|
  }

  lemma {:induction false} FindAfterUpdate(t: Table, i: int, e: IpRules, ip: string)
    requires 0 <= i < |t| && e.ip == t[i].ip
    ensures Find(t[i := e], ip) == Find(t, ip)
  {
    if t != [] && t[0].ip != ip {
      if i > 0 {
        assert t[i := e][1..] == t[1..][i - 1 := e];
        FindAfterUpdate(t[1..], i - 1, e, ip);
      } else {
        assert t[i := e][1..] == t[1..];
      }
    }
  }

  lemma {:induction false} FindAfterAppend(t: Table, e: IpRules, ip: string)
    requires Find(t, e.ip) < 0
    ensures Find(t + [e], ip) == if Find(t, ip) >= 0 then Find(t, ip) else if e.ip == ip then |t| else -1
  {
    if t != [] {
      assert (t + [e])[1..] == t[1..] + [e];
      FindAfterAppend(t[1..], e, ip);
    }
  }

  lemma {:induction false} CountAfterUpdate(t: Table, i: int, e: IpRules)
    requires 0 <= i < |t|
    ensures Count(t[i := e]) == Count(t) - |t[i].rules| + |e.rules|
  {
    var t' := t[i := e];
    if i < |t| - 1 {
      assert t'[..|t'| - 1] == t[..|t| - 1][i := e];
      CountAfterUpdate(t[..|t| - 1], i, e);
    } else {
      assert t'[..|t'| - 1] == t[..|t| - 1];
    }
  }

  lemma AddToSetValid(e: IpRules, rule: PortIpRule)
    requires EntryValid(e) && rule.ip == e.ip
    ensures EntryValid(IpRules(e.ip, AddToSet(e.rules, rule)))
  {
    if !ContainsRule(e.rules, rule) {
      var rs := e.rules + [rule];
      forall j, k | 0 <= j < k < |rs| ensures rs[j].port != rs[k].port {
        if k == |e.rules| {
          assert !SameRule(e.rules[j], rule);
        }
      }
    }
  }

  /** Adding a rule keeps the table a valid map of sets. */
  lemma AddedValid(t: Table, rule: PortIpRule)
    requires TableValid(t)
    ensures TableValid(Added(t, rule))
  {
    var i := Find(t, rule.ip);
    if i >= 0 {
      AddToSetValid(t[i], rule);
    }
  }

  /**
   * Adding never replaces: when the set of the address already holds a rule on the port
   * (of either action), the table is unchanged, so a block over an open port, or an open
   * over a blocked one, is silently ignored.
   */
  lemma AddedExistingIgnored(t: Table, rule: PortIpRule, k: int)
    requires TableValid(t)
    requires 0 <= k < |RulesOf(t, rule.ip)| && RulesOf(t, rule.ip)[k].port == rule.port
    ensures Added(t, rule) == t
  {
    var i := Find(t, rule.ip);
    assert SameRule(t[i].rules[k], rule);
    assert t[i] == IpRules(rule.ip, t[i].rules);
  }

  /**
   * A rule on a port its address has no rule for is added: it joins the end of that
   * address's set, every other address keeps its set, and the count grows by one.
   */
  lemma AddedNewRule(t: Table, rule: PortIpRule, other: string)
    requires TableValid(t)
    requires forall k :: 0 <= k < |RulesOf(t, rule.ip)| ==> RulesOf(t, rule.ip)[k].port != rule.port
    ensures RulesOf(Added(t, rule), rule.ip) == RulesOf(t, rule.ip) + [rule]
    ensures other != rule.ip ==> RulesOf(Added(t, rule), other) == RulesOf(t, other)
    ensures Count(Added(t, rule)) == Count(t) + 1
  {
    var i := Find(t, rule.ip);
    var t' := Added(t, rule);
    if i >= 0 {
      assert RulesOf(t, rule.ip) == t[i].rules;
      assert !ContainsRule(t[i].rules, rule);
      FindAfterUpdate(t, i, IpRules(rule.ip, t[i].rules + [rule]), rule.ip);
      FindAfterUpdate(t, i, IpRules(rule.ip, t[i].rules + [rule]), other);
      CountAfterUpdate(t, i, IpRules(rule.ip, t[i].rules + [rule]));
    } else {
      FindAfterAppend(t, IpRules(rule.ip, [rule]), rule.ip);
      FindAfterAppend(t, IpRules(rule.ip, [rule]), other);
      assert t'[..|t'| - 1] == t;
    }
  }

  /** Replacing the set of a key by a removal keeps the table valid and keeps the key, even when the set becomes empty. */
  lemma WithRulesRemoveValid(t: Table, ip: string, c: Criterion)
    requires TableValid(t) && HasIp(t, ip)
    ensures TableValid(WithRules(t, ip, RemoveWhere(RulesOf(t, ip), c)))
    ensures HasIp(WithRules(t, ip, RemoveWhere(RulesOf(t, ip), c)), ip)
    ensures RulesOf(WithRules(t, ip, RemoveWhere(RulesOf(t, ip), c)), ip) == RemoveWhere(RulesOf(t, ip), c)
  {
    var i := Find(t, ip);
    RemoveWhereValid(t[i], c);
    FindAfterUpdate(t, i, IpRules(ip, RemoveWhere(t[i].rules, c)), ip);
  }

  predicate KeysDistinctIps(t: Table) {
    forall i, j :: 0 <= i < j < |t| ==> t[i].ip != t[j].ip
  }

  lemma {:induction false} WithoutIpKeys(t: Table, ip: string)
    requires KeysDistinctIps(t)
    ensures KeysDistinctIps(WithoutIp(t, ip))
  {
    if t != [] {
      var tail := t[1..];
      assert KeysDistinctIps(tail) by {
        assert forall k :: 0 <= k < |tail| ==> tail[k] == t[k + 1];
      }
      WithoutIpKeys(tail, ip);
      if t[0].ip != ip {
        var rest := WithoutIp(tail, ip);
        forall x | x in rest ensures x.ip != t[0].ip {
          var m :| 0 <= m < |tail| && tail[m] == x;
          assert t[m + 1] == x;
        }
        ConsKeysDistinct(t[0], rest);
      }
    }
  }

  lemma ConsKeysDistinct(e: IpRules, rest: Table)
    requires KeysDistinctIps(rest)
    requires forall x :: x in rest ==> x.ip != e.ip
    ensures KeysDistinctIps([e] + rest)
  {
    var r := [e] + rest;
    forall i, j | 0 <= i < j < |r| ensures r[i].ip != r[j].ip {
      assert r[j] == rest[j - 1];
      if i > 0 {
        assert r[i] == rest[i - 1];
      }
    }
  }

  /** Removing a key keeps the table valid, and the key is gone. */
  lemma WithoutIpValid(t: Table, ip: string)
    requires TableValid(t)
    ensures TableValid(WithoutIp(t, ip))
    ensures !HasIp(WithoutIp(t, ip), ip)
  {
    var r := WithoutIp(t, ip);
    WithoutIpKeys(t, ip);
    forall i | 0 <= i < |r| ensures EntryValid(r[i]) {
      assert r[i] in r;
      var k :| 0 <= k < |t| && t[k] == r[i];
    }
  }

  /** The rules of the table are the rules of its sets. */
  lemma {:induction false} FlattenMembers(t: Table, r: PortIpRule)
    ensures r in Flatten(t) <==> exists i :: 0 <= i < |t| && r in t[i].rules
  {
    if t != [] {
      var init := t[..|t| - 1];
      FlattenMembers(init, r);
      assert forall i :: 0 <= i < |init| ==> init[i] == t[i];
    }
  }

  /** No two rules of a valid table are equal, as PortIPRule.equals sees them. */
  lemma {:induction false} FlattenDistinct(t: Table)
    requires TableValid(t)
    ensures forall j, k :: 0 <= j < k < |Flatten(t)| ==> !SameRule(Flatten(t)[j], Flatten(t)[k])
  {
    if t != [] {
      var init := t[..|t| - 1];
      var last := t[|t| - 1];
      var f := Flatten(init);
      assert TableValid(init);
      FlattenDistinct(init);
      forall j, k | 0 <= j < k < |Flatten(t)| ensures !SameRule(Flatten(t)[j], Flatten(t)[k]) {
        var all := Flatten(t);
        if k < |f| {
          assert all[j] == f[j] && all[k] == f[k];
        } else if j >= |f| {
          assert all[j] == last.rules[j - |f|] && all[k] == last.rules[k - |f|];
        } else {
          assert all[j] == f[j] && all[k] == last.rules[k - |f|];
          FlattenMembers(init, f[j]);
          var i :| 0 <= i < |init| && f[j] in init[i].rules;
          var m :| 0 <= m < |init[i].rules| && init[i].rules[m] == f[j];
          assert f[j].ip == t[i].ip;
        }
      }
    }
  }

  /** getPortIPCount is the number of distinct (address, port) pairs that have a rule. */
  lemma CountIsDistinctPairs(t: Table)
    requires TableValid(t)
    ensures Count(t) == |set r | r in Flatten(t) :: (r.ip, r.port)|
  {
    var f := Flatten(t);
    FlattenDistinct(t);
    var pairs := seq(|f|, k requires 0 <= k < |f| => (f[k].ip, f[k].port));
    assert Distinct(pairs) by {
      forall j, k | 0 <= j < k < |pairs| ensures pairs[j] != pairs[k] {
        assert !SameRule(f[j], f[k]);
      }
    }
    DistinctCardinality(pairs);
    assert (set r | r in f :: (r.ip, r.port)) == (set x | x in pairs) by {
      forall r | r in f ensures (r.ip, r.port) in pairs {
        var k :| 0 <= k < |f| && f[k] == r;
        assert pairs[k] == (r.ip, r.port);
      }
    }
  }

  // ---------------------------------------------------------------------------
  // Loading and saving `ports-ip.rules`

  /** savePortIPRule writes all five fields under the rule's name. */
  function EntryOf(rule: PortIpRule): PortIpEntry {
    PortIpEntry(Some(rule.ip), Some(rule.port), Some(rule.protocol), Some(rule.action), Some(rule.description))
  }

  /**
   * The rule an entry loads as, with the defaults of the loader (port 0, "TCP", "OPEN",
   * "No description"), or nothing when the address fails isValidIP.
   */
  function EntryRule(item: Item<PortIpEntry>): (r: Option<PortIpRule>)
    ensures r.Some? <==> ValidIp(item.entry.ip)
    ensures r.Some? ==> r.value.ruleName == item.key && Some(r.value.ip) == item.entry.ip
  {
    var e := item.entry;
    if ValidIp(e.ip) then
      Some(PortIpRule(e.ip.value, ToInt32(e.port.GetOr(0)), e.protocol.GetOr("TCP"), e.action.GetOr("OPEN"),
                      e.description.GetOr("No description"), item.key))
    else None
  }

  /** loadPortIPRules: the rules of the entries added one by one, in key order, to an empty table. */
  function LoadedTable(config: Section<PortIpEntry>): (t: Table)
    ensures TableValid(t)
  {
    if config == [] then []
    else
      var prior := LoadedTable(config[..|config| - 1]);
      var r := EntryRule(config[|config| - 1]);
      if r.Some? then AddedValid(prior, r.value); Added(prior, r.value) else prior
  }

  /** One more entry of the section is one more step of the loader. */
  lemma LoadedTableStep(config: Section<PortIpEntry>, i: int)
    requires 0 <= i < |config|
    ensures var r := EntryRule(config[i]);
            LoadedTable(config[..i + 1]) == if r.Some? then Added(LoadedTable(config[..i]), r.value) else LoadedTable(config[..i])
  {
    assert config[..i + 1][..i] == config[..i];
  }

  /** A rule saved under a new name is loaded back as the same rule, added like any other. */
  lemma SaveThenLoad(config: Section<PortIpEntry>, rule: PortIpRule)
    requires !HasKey(config, rule.ruleName)
    requires ValidIp(Some(rule.ip)) && IsInt32(rule.port)
    ensures LoadedTable(Put(config, rule.ruleName, EntryOf(rule))) == Added(LoadedTable(config), rule)
  {
    PutNewKeyAppends(config, rule.ruleName, EntryOf(rule));
    var config' := config + [Item(rule.ruleName, EntryOf(rule))];
    assert config'[..|config'| - 1] == config;
  }

  // ---------------------------------------------------------------------------
  // isPortAllowedForIP

  /** A rule that speaks for a connection on `port` with `protocol`. */
  predicate Applies(r: PortIpRule, port: int, protocol: string) {
    r.port == port && (EqualsIgnoreCase("ANY", r.protocol) || EqualsIgnoreCase(r.protocol, protocol))
  }

  function FirstApplying(rules: seq<PortIpRule>, port: int, protocol: string): (r: Option<PortIpRule>)
    ensures r.Some? ==> r.value in rules && Applies(r.value, port, protocol)
    ensures r.None? ==> forall k :: 0 <= k < |rules| ==> !Applies(rules[k], port, protocol)
  {
    if rules == [] then None
    else if Applies(rules[0], port, protocol) then Some(rules[0])
    else
      var r := FirstApplying(rules[1..], port, protocol);
      assert forall k :: 1 <= k < |rules| ==> rules[k] == rules[1..][k - 1];
      r
  }

  /** isPortAllowedForIP: the action of the first applying rule of the address, allowed when none applies. */
  function Allowed(t: Table, ip: string, port: int, protocol: string): bool {
    var r := FirstApplying(RulesOf(t, ip), port, protocol);
    r.None? || IsOpen(r.value)
  }

  /**
   * In a valid table the iteration order does not matter: a connection is allowed exactly
   * when every rule of the address that applies to it is an OPEN rule.
   */
  lemma AllowedCharacterization(t: Table, ip: string, port: int, protocol: string)
    requires TableValid(t)
    ensures Allowed(t, ip, port, protocol) <==>
            forall r :: r in RulesOf(t, ip) && Applies(r, port, protocol) ==> IsOpen(r)
  {
    var rules := RulesOf(t, ip);
    var first := FirstApplying(rules, port, protocol);
    if first.Some? {
      var i := Find(t, ip);
      forall r | r in rules && Applies(r, port, protocol) ensures r == first.value {
        SamePortSameRule(t[i], r, first.value);
      }
    } else {
      forall r | r in rules ensures !Applies(r, port, protocol) {
        var k :| 0 <= k < |rules| && rules[k] == r;
      }
    }
  }

  /** A block rule added for a port the address had no rule on denies every connection it applies to. */
  lemma NewBlockDenies(t: Table, rule: PortIpRule, protocol: string)
    requires TableValid(t) && IsBlock(rule) && Applies(rule, rule.port, protocol)
    requires forall k :: 0 <= k < |RulesOf(t, rule.ip)| ==> RulesOf(t, rule.ip)[k].port != rule.port
    ensures !Allowed(Added(t, rule), rule.ip, rule.port, protocol)
  {
    AddedNewRule(t, rule, rule.ip);
    AddedValid(t, rule);
    OpenBlockExclusive(rule);
    AllowedCharacterization(Added(t, rule), rule.ip, rule.port, protocol);
    assert rule in RulesOf(Added(t, rule), rule.ip);
  }

  /** While a block rule stands on a port, an open request for it changes nothing and the port stays denied. */
  lemma OpenOverBlockStillDenied(t: Table, open: PortIpRule, k: int, protocol: string)
    requires TableValid(t)
    requires 0 <= k < |RulesOf(t, open.ip)|
    requires RulesOf(t, open.ip)[k].port == open.port && IsBlock(RulesOf(t, open.ip)[k])
    requires Applies(RulesOf(t, open.ip)[k], open.port, protocol)
    ensures Added(t, open) == t
    ensures !Allowed(t, open.ip, open.port, protocol)
  {
    AddedExistingIgnored(t, open, k);
    OpenBlockExclusive(RulesOf(t, open.ip)[k]);
    AllowedCharacterization(t, open.ip, open.port, protocol);
  }

  // ---------------------------------------------------------------------------
  // The passes over every rule

  /** The ports of the OPEN rules, in iteration order. */
  function OpenPorts(rs: seq<PortIpRule>): (ps: seq<int>)
    ensures forall p :: p in ps <==> exists k :: 0 <= k < |rs| && IsOpen(rs[k]) && rs[k].port == p
  {
    if rs == [] then []
    else
      var init := rs[..|rs| - 1];
      var ps := OpenPorts(init);
      assert forall k :: 0 <= k < |init| ==> init[k] == rs[k];
      ps + (if IsOpen(rs[|rs| - 1]) then [rs[|rs| - 1].port] else [])
  }

  /** The outcome of manageIPPorts: the rules it tried to open, the gateway calls, and whether an exception ended it. */
  datatype ManageResult = ManageResult(attempted: seq<PortIpRule>, calls: seq<Call>, aborted: bool)

  /** The request openPortInternally makes for a per-IP rule. */
  function Realize(r: PortIpRule, env: Env): Realization {
    OpenPortInternally(r.port, r.protocol, r.description + " for IP " + r.ip, env)
  }

  /**
   * manageIPPorts over the rules in iteration order: an OPEN rule whose port is not
   * listening is opened again; a port outside 0..65535 makes InetSocketAddress throw,
   * which nothing catches, so the pass stops there.
   */
  function Manage(rs: seq<PortIpRule>, env: Env): ManageResult {
    if rs == [] then ManageResult([], [], false)
    else
      var p := Manage(rs[..|rs| - 1], env);
      var r := rs[|rs| - 1];
      if p.aborted || !IsOpen(r) then p
      else if !SocketPort(r.port) then ManageResult(p.attempted, p.calls, true)
      else if r.port in env.listening then p
      else ManageResult(p.attempted + [r], p.calls + Realize(r, env).calls, false)
  }

  /**
   * The pass stops exactly when some OPEN rule has a port outside 0..65535; otherwise it
   * tries to open exactly the OPEN rules whose port is not listening.
   */
  lemma {:induction false} ManageCharacterization(rs: seq<PortIpRule>, env: Env)
    ensures Manage(rs, env).aborted <==> exists k :: 0 <= k < |rs| && IsOpen(rs[k]) && !SocketPort(rs[k].port)
    ensures !Manage(rs, env).aborted ==>
              forall r :: r in Manage(rs, env).attempted <==> r in rs && IsOpen(r) && r.port !in env.listening
  {
    if rs != [] {
      var init := rs[..|rs| - 1];
      ManageCharacterization(init, env);
      assert forall k :: 0 <= k < |init| ==> init[k] == rs[k];
      assert rs == init + [rs[|rs| - 1]];
      var last := rs[|rs| - 1];
      if (exists k :: 0 <= k < |rs| && IsOpen(rs[k]) && !SocketPort(rs[k].port)) && !Manage(init, env).aborted {
        var k :| 0 <= k < |rs| && IsOpen(rs[k]) && !SocketPort(rs[k].port);
        assert k == |rs| - 1;
      }
    }
  }

  /** Rules written by the commands carry ports in 1..65535, so on such a table the pass never stops early. */
  lemma ManageCompletes(rs: seq<PortIpRule>, env: Env)
    requires forall k :: 0 <= k < |rs| ==> 1 <= rs[k].port <= 65535
    ensures !Manage(rs, env).aborted
  {
    ManageCharacterization(rs, env);
  }

  // ---------------------------------------------------------------------------
  // The checks of the open and block commands

  /** A command either replies with an error or goes on with a rule. */
  datatype Request = Rejected(reply: PortIpReply) | Accepted(rule: PortIpRule)

  /**
   * openPortForIP's checks, in order: the address must resolve, the port must parse and
   * lie in 1..65535, the protocol must be TCP or UDP ignoring case. The rule stores the
   * protocol upper-cased, the action "OPEN" and the name "ip_port_" + the time.
   */
  function OpenRequest(ip: string, portStr: string, protocol: string, description: string,
                       resolvable: bool, stamp: string): (r: Request)
    ensures r.Accepted? <==> resolvable && ParseInt(portStr).Some? && 1 <= ParseInt(portStr).value <= 65535 &&
                             (EqualsIgnoreCase("TCP", protocol) || EqualsIgnoreCase("UDP", protocol))
    ensures r.Accepted? ==> r.rule.ip == ip && r.rule.port == ParseInt(portStr).value &&
                            (r.rule.protocol == "TCP" || r.rule.protocol == "UDP") && r.rule.action == "OPEN" &&
                            r.rule.description == description && r.rule.ruleName == "ip_port_" + stamp
    ensures r.Rejected? ==> r.reply == (if !resolvable then InvalidIp
                                        else if ParseInt(portStr).None? then InvalidNumber
                                        else if !(1 <= ParseInt(portStr).value <= 65535) then InvalidRange
                                        else InvalidProtocol)
  {
    if !resolvable then Rejected(InvalidIp)
    else
      var port := ParseInt(portStr);
      if port.None? then Rejected(InvalidNumber)
      else if port.value < 1 || port.value > 65535 then Rejected(InvalidRange)
      else if !EqualsIgnoreCase("TCP", protocol) && !EqualsIgnoreCase("UDP", protocol) then Rejected(InvalidProtocol)
      else
        UpperProtocol(protocol);
        Accepted(PortIpRule(ip, port.value, ToUpper(protocol), "OPEN", description, "ip_port_" + stamp))
  }


  /**
   * blockPortForIP's checks: as for open, but ANY is a protocol too; the rule keeps the
   * protocol as given, the action "BLOCK" and the name "block_" + the time.
   */
  function BlockRequest(ip: string, portStr: string, protocol: string, reason: string,
                        resolvable: bool, stamp: string): (r: Request)
    ensures r.Accepted? <==> resolvable && ParseInt(portStr).Some? && 1 <= ParseInt(portStr).value <= 65535 &&
                             (EqualsIgnoreCase("TCP", protocol) || EqualsIgnoreCase("UDP", protocol) ||
                              EqualsIgnoreCase("ANY", protocol))
    ensures r.Accepted? ==> r.rule == PortIpRule(ip, ParseInt(portStr).value, protocol, "BLOCK", reason, "block_" + stamp)
    ensures r.Rejected? ==> r.reply == (if !resolvable then InvalidIp
                                        else if ParseInt(portStr).None? then InvalidNumber
                                        else if !(1 <= ParseInt(portStr).value <= 65535) then InvalidRange
                                        else InvalidProtocol)
  {
    if !resolvable then Rejected(InvalidIp)
    else
      var port := ParseInt(portStr);
      if port.None? then Rejected(InvalidNumber)
      else if port.value < 1 || port.value > 65535 then Rejected(InvalidRange)
      else if !EqualsIgnoreCase("TCP", protocol) && !EqualsIgnoreCase("UDP", protocol) && !EqualsIgnoreCase("ANY", protocol) then
        Rejected(InvalidProtocol)
      else Accepted(PortIpRule(ip, port.value, protocol, "BLOCK", reason, "block_" + stamp))
  }

  // ---------------------------------------------------------------------------
  // The manager

  class PortIpManager {
    /** portIPRules, in its iteration order. */
    var table: Table
    /** The `ports-ip.rules` section of the plugin configuration. */
    var config: Section<PortIpEntry>

    ghost predicate Valid()
      reads this
    {
      TableValid(table) && KeysDistinct(config)
    }

    constructor (config: Section<PortIpEntry>)
      requires KeysDistinct(config)
      ensures Valid()
      ensures table == [] && this.config == config
    {
      table := [];
      this.config := config;
    }

    /** loadPortIPRules. */
    method LoadPortIpRules()
      requires Valid()
      modifies this
      ensures Valid()
      ensures table == LoadedTable(config) && config == old(config)
    {
      table := [];
      var i := 0;
      while i < |config|
        invariant 0 <= i <= |config|
        invariant table == LoadedTable(config[..i]) && config == old(config)
      {
        var item := config[i];
        LoadedTableStep(config, i);
        var valid := IsValidIp(item.entry.ip);
        if valid {
          var e := item.entry;
          var rule := PortIpRule(e.ip.value, ToInt32(e.port.GetOr(0)), e.protocol.GetOr("TCP"), e.action.GetOr("OPEN"),
                                 e.description.GetOr("No description"), item.key);
          assert EntryRule(item) == Some(rule);
          table := Added(table, rule);
        }
        i := i + 1;
      }
      assert config[..|config|] == config;
    }

    /** savePortIPRule. */
    method SavePortIpRule(rule: PortIpRule)
      requires Valid()
      modifies this
      ensures Valid()
      ensures table == old(table)
      ensures config == Put(old(config), rule.ruleName, EntryOf(rule))
    {
      PutThenGet(config, rule.ruleName, EntryOf(rule), "");
      config := Put(config, rule.ruleName, EntryOf(rule));
    }

    /**
     * removePortIPRule: the first rule of the address on the port is removed from its set,
     * its entry deleted, and the key removed once its set is empty.
     */
    method RemovePortIpRule(ip: string, port: int)
      requires Valid()
      modifies this
      ensures Valid()
      ensures !HasIp(old(table), ip) || FindPort(old(RulesOf(table, ip)), port).None? ==>
                table == old(table) && config == old(config)
      ensures HasIp(old(table), ip) && FindPort(old(RulesOf(table, ip)), port).Some? ==>
                var r := FindPort(old(RulesOf(table, ip)), port).value;
                var kept := RemoveWhere(old(RulesOf(table, ip)), EqualTo(r));
                config == DeleteKey(old(config), r.ruleName) &&
                table == (if kept == [] then WithoutIp(old(table), ip) else WithRules(old(table), ip, kept))
    {
      if Find(table, ip) < 0 {
        return;
      }
      var rules := table[Find(table, ip)].rules;
      var toRemove: Option<PortIpRule> := None;
      var j := 0;
      while j < |rules|
        invariant 0 <= j <= |rules|
        invariant FindPort(rules, port) == FindPort(rules[j..], port)
      {
        assert rules[j..][1..] == rules[j + 1..];
        if rules[j].port == port {
          toRemove := Some(rules[j]);
          break;
        }
        j := j + 1;
      }
      if j == |rules| {
        assert rules[j..] == [];
      } else {
        assert rules[j..][0] == rules[j];
      }
      if toRemove.Some? {
        var r := toRemove.value;
        var kept := RemoveWhere(rules, EqualTo(r));
        WithRulesRemoveValid(table, ip, EqualTo(r));
        DeleteThenGet(config, r.ruleName, "");
        config := DeleteKey(config, r.ruleName);
        if kept == [] {
          WithoutIpValid(table, ip);
          table := WithoutIp(table, ip);
        } else {
          table := WithRules(table, ip, kept);
        }
      }
    }

    /**
     * openPortForIP: a rule that passes the checks is added to the table first; it is saved
     * only when the port could be opened, so a failed attempt leaves an unsaved rule behind.
     */
    method OpenPortForIp(ip: string, portStr: string, protocol: string, description: string,
                         resolvable: bool, stamp: string, env: Env)
      returns (reply: PortIpReply, calls: seq<Call>)
      requires Valid()
      modifies this
      ensures Valid()
      ensures var req := OpenRequest(ip, portStr, protocol, description, resolvable, stamp);
              req.Rejected? ==> reply == req.reply && calls == [] && table == old(table) && config == old(config)
      ensures var req := OpenRequest(ip, portStr, protocol, description, resolvable, stamp);
              req.Accepted? ==>
                var done := Realize(req.rule, env);
                table == Added(old(table), req.rule) && calls == done.calls &&
                reply == (if done.succeeded then Opened else FailedToOpen) &&
                config == (if done.succeeded then Put(old(config), req.rule.ruleName, EntryOf(req.rule)) else old(config))
    {
      var req := OpenRequest(ip, portStr, protocol, description, resolvable, stamp);
      if req.Rejected? {
        return req.reply, [];
      }
      var rule := req.rule;
      AddedValid(table, rule);
      table := Added(table, rule);
      var done := Realize(rule, env);
      calls := done.calls;
      if done.succeeded {
        SavePortIpRule(rule);
        reply := Opened;
      } else {
        reply := FailedToOpen;
      }
    }

    /** openPortForIP without a description. */
    method OpenPortForIpDefault(ip: string, portStr: string, protocol: string, resolvable: bool, stamp: string, env: Env)
      returns (reply: PortIpReply, calls: seq<Call>)
      requires Valid()
      modifies this
      ensures Valid()
      ensures var req := OpenRequest(ip, portStr, protocol, "Custom port for IP", resolvable, stamp);
              req.Rejected? ==> reply == req.reply && calls == [] && table == old(table) && config == old(config)
      ensures var req := OpenRequest(ip, portStr, protocol, "Custom port for IP", resolvable, stamp);
              req.Accepted? ==>
                var done := Realize(req.rule, env);
                table == Added(old(table), req.rule) && calls == done.calls &&
                reply == (if done.succeeded then Opened else FailedToOpen) &&
                config == (if done.succeeded then Put(old(config), req.rule.ruleName, EntryOf(req.rule)) else old(config))
    {
      reply, calls := OpenPortForIp(ip, portStr, protocol, "Custom port for IP", resolvable, stamp, env);
    }

    /** blockPortForIP: a rule that passes the checks is added and saved. */
    method BlockPortForIp(ip: string, portStr: string, protocol: string, reason: string, resolvable: bool, stamp: string)
      returns (reply: PortIpReply)
      requires Valid()
      modifies this
      ensures Valid()
      ensures var req := BlockRequest(ip, portStr, protocol, reason, resolvable, stamp);
              (req.Rejected? ==> reply == req.reply && table == old(table) && config == old(config)) &&
              (req.Accepted? ==> reply == Blocked && table == Added(old(table), req.rule) &&
                                 config == Put(old(config), req.rule.ruleName, EntryOf(req.rule)))
    {
      var req := BlockRequest(ip, portStr, protocol, reason, resolvable, stamp);
      if req.Rejected? {
        return req.reply;
      }
      AddedValid(table, req.rule);
      table := Added(table, req.rule);
      SavePortIpRule(req.rule);
      reply := Blocked;
    }

    /** blockPortForIP without a protocol and a reason: ANY, "Blocked by administrator". */
    method BlockPortForIpDefault(ip: string, portStr: string, resolvable: bool, stamp: string)
      returns (reply: PortIpReply)
      requires Valid()
      modifies this
      ensures Valid()
      ensures var req := BlockRequest(ip, portStr, "ANY", "Blocked by administrator", resolvable, stamp);
              (req.Rejected? ==> reply == req.reply && table == old(table) && config == old(config)) &&
              (req.Accepted? ==> reply == Blocked && table == Added(old(table), req.rule) &&
                                 config == Put(old(config), req.rule.ruleName, EntryOf(req.rule)))
    {
      reply := BlockPortForIp(ip, portStr, "ANY", "Blocked by administrator", resolvable, stamp);
    }

    /**
     * The common part of closePortForIP and unblockPortForIP: removeIf on the address's set,
     * then removePortIPRule, which finds nothing left on the port and so deletes neither the
     * saved entry nor the (possibly now empty) set.
     */
    method RemoveMatching(ip: string, port: int, action: string) returns (removed: bool)
      requires Valid() && HasIp(table, ip)
      modifies this
      ensures Valid()
      ensures removed <==> exists k :: 0 <= k < |old(RulesOf(table, ip))| &&
                                       Dropped(PortAction(port, action), old(RulesOf(table, ip))[k])
      ensures table == WithRules(old(table), ip, RemoveWhere(old(RulesOf(table, ip)), PortAction(port, action)))
      ensures HasIp(table, ip) && config == old(config)
    {
      var rules := RulesOf(table, ip);
      var kept := RemoveWhere(rules, PortAction(port, action));
      removed := |kept| < |rules|;
      WithRulesRemoveValid(table, ip, PortAction(port, action));
      table := WithRules(table, ip, kept);
      if removed {
        assert RulesOf(table, ip) == kept;
        NothingLeftOnPort(Find(old(table), ip), old(table), port, action);
        RemovePortIpRule(ip, port);
      }
    }

    /** closePortForIP. */
    method ClosePortForIp(ip: string, portStr: string, env: Env) returns (reply: PortIpReply, calls: seq<Call>)
      requires Valid()
      modifies this
      ensures Valid()
      ensures config == old(config)
      ensures ParseInt(portStr).None? ==> reply == InvalidNumber && calls == [] && table == old(table)
      ensures ParseInt(portStr).Some? && !HasIp(old(table), ip) ==> reply == IpNotFound && calls == [] && table == old(table)
      ensures ParseInt(portStr).Some? && HasIp(old(table), ip) ==>
                var port := ParseInt(portStr).value;
                var rules := old(RulesOf(table, ip));
                var kept := RemoveWhere(rules, PortAction(port, "OPEN"));
                table == WithRules(old(table), ip, kept) && HasIp(table, ip) &&
                (|kept| < |rules| ==> reply == Closed && calls == (if env.available then [CloseCall(port)] else [])) &&
                (|kept| == |rules| ==> reply == OpenRuleNotFound && calls == [])
    {
      var port := ParseInt(portStr);
      if port.None? {
        return InvalidNumber, [];
      }
      if Find(table, ip) < 0 {
        return IpNotFound, [];
      }
      var removed := RemoveMatching(ip, port.value, "OPEN");
      if removed {
        calls := if env.available then [CloseCall(port.value)] else [];
        reply := Closed;
      } else {
        calls := [];
        reply := OpenRuleNotFound;
      }
    }

    /** unblockPortForIP. */
    method UnblockPortForIp(ip: string, portStr: string) returns (reply: PortIpReply)
      requires Valid()
      modifies this
      ensures Valid()
      ensures config == old(config)
      ensures ParseInt(portStr).None? ==> reply == InvalidNumber && table == old(table)
      ensures ParseInt(portStr).Some? && !HasIp(old(table), ip) ==> reply == IpNotFound && table == old(table)
      ensures ParseInt(portStr).Some? && HasIp(old(table), ip) ==>
                var port := ParseInt(portStr).value;
                var rules := old(RulesOf(table, ip));
                var kept := RemoveWhere(rules, PortAction(port, "BLOCK"));
                table == WithRules(old(table), ip, kept) && HasIp(table, ip) &&
                reply == (if |kept| < |rules| then Unblocked else BlockRuleNotFound)
    {
      var port := ParseInt(portStr);
      if port.None? {
        return InvalidNumber;
      }
      if Find(table, ip) < 0 {
        return IpNotFound;
      }
      var removed := RemoveMatching(ip, port.value, "BLOCK");
      reply := if removed then Unblocked else BlockRuleNotFound;
    }

    /** The close requests for every OPEN rule, the loops of clearAllPortsIP and closeAllIPPorts. */
    method CloseAllIpPorts(env: Env) returns (calls: seq<Call>)
      ensures calls == CloseCalls(OpenPorts(Flatten(table)), env)
    {
      calls := [];
      var i := 0;
      while i < |table|
        invariant 0 <= i <= |table|
        invariant calls == CloseCalls(OpenPorts(Flatten(table[..i])), env)
      {
        var rules := table[i].rules;
        ghost var before := Flatten(table[..i]);
        FlattenStep(table, i);
        var j := 0;
        assert before + rules[..0] == before;
        while j < |rules|
          invariant 0 <= j <= |rules|
          invariant calls == CloseCalls(OpenPorts(before + rules[..j]), env)
        {
          CloseStep(before, rules, j, env);
          if IsOpen(rules[j]) && env.available {
            calls := calls + [CloseCall(rules[j].port)];
          }
          j := j + 1;
        }
        assert rules[..|rules|] == rules;
        i := i + 1;
      }
      assert table[..|table|] == table;
    }

    /** clearAllPortsIP: the count before, the close requests, then an empty table and section. */
    method ClearAllPortsIp(env: Env) returns (total: nat, calls: seq<Call>)
      requires Valid()
      modifies this
      ensures Valid()
      ensures total == Count(old(table)) && calls == CloseCalls(OpenPorts(Flatten(old(table))), env)
      ensures table == [] && config == []
    {
      total := Count(table);
      calls := CloseAllIpPorts(env);
      table := [];
      config := [];
    }

    /** manageIPPorts. */
    method ManageIpPorts(env: Env) returns (result: ManageResult)
      ensures result == Manage(Flatten(table), env)
    {
      result := ManageResult([], [], false);
      var i := 0;
      while i < |table|
        invariant 0 <= i <= |table|
        invariant result == Manage(Flatten(table[..i]), env) && !result.aborted
      {
        var rules := table[i].rules;
        ghost var before := Flatten(table[..i]);
        FlattenStep(table, i);
        var j := 0;
        assert before + rules[..0] == before;
        while j < |rules|
          invariant 0 <= j <= |rules|
          invariant result == Manage(before + rules[..j], env) && !result.aborted
        {
          var rule := rules[j];
          ManageStep(before, rules, j, env);
          if IsOpen(rule) {
            if !SocketPort(rule.port) {
              result := ManageResult(result.attempted, result.calls, true);
              AbortedPrefix(table, i, j, env);
              return;
            }
            if rule.port !in env.listening {
              result := ManageResult(result.attempted + [rule], result.calls + Realize(rule, env).calls, false);
            }
          }
          j := j + 1;
        }
        assert rules[..|rules|] == rules;
        i := i + 1;
      }
      assert table[..|table|] == table;
    }

    /** getPortIPCount: the sizes of the per-address sets summed, one for each distinct (address, port) pair. */
    function PortIpCount(): (n: nat)
      reads this
      requires Valid()
      ensures n == |set r | r in Flatten(table) :: (r.ip, r.port)|
    {
      CountIsDistinctPairs(table);
      Count(table)
    }

    /** isPortAllowedForIP. */
    method IsPortAllowedForIp(ip: string, port: int, protocol: string) returns (allowed: bool)
      ensures allowed == Allowed(table, ip, port, protocol)
    {
      var i := Find(table, ip);
      if i < 0 {
        return true;
      }
      var rules := table[i].rules;
      var j := 0;
      while j < |rules|
        invariant 0 <= j <= |rules|
        invariant FirstApplying(rules, port, protocol) == FirstApplying(rules[j..], port, protocol)
      {
        var rule := rules[j];
        assert rules[j..][0] == rule && rules[j..][1..] == rules[j + 1..];
        if rule.port == port && (EqualsIgnoreCase("ANY", rule.protocol) || EqualsIgnoreCase(rule.protocol, protocol)) {
          return IsOpen(rule);
        }
        j := j + 1;
      }
      assert rules[j..] == [];
      return true;
    }
  }

  /** After removeIf took the rule on a port out of a valid set, no rule is left on that port. */
  lemma NothingLeftOnPort(i: int, t: Table, port: int, action: string)
    requires TableValid(t) && 0 <= i < |t|
    requires exists k :: 0 <= k < |t[i].rules| && Dropped(PortAction(port, action), t[i].rules[k])
    ensures FindPort(RemoveWhere(t[i].rules, PortAction(port, action)), port).None?
  {
    var rules := t[i].rules;
    var kept := RemoveWhere(rules, PortAction(port, action));
    var k :| 0 <= k < |rules| && Dropped(PortAction(port, action), rules[k]);
    var found := FindPort(kept, port);
    if found.Some? {
      assert found.value in rules;
      SamePortSameRule(t[i], found.value, rules[k]);
    }
  }

  /** One more address adds its rules at the end of the flattened prefix. */
  lemma FlattenStep(t: Table, i: int)
    requires 0 <= i < |t|
    ensures Flatten(t[..i + 1]) == Flatten(t[..i]) + t[i].rules
  {
    assert t[..i + 1][..i] == t[..i];
  }

  /** One more rule adds at most one close request, at the end. */
  lemma CloseStep(before: seq<PortIpRule>, rules: seq<PortIpRule>, j: int, env: Env)
    requires 0 <= j < |rules|
    ensures CloseCalls(OpenPorts(before + rules[..j + 1]), env) ==
            CloseCalls(OpenPorts(before + rules[..j]), env) +
            (if IsOpen(rules[j]) && env.available then [CloseCall(rules[j].port)] else [])
  {
    var seen := before + rules[..j];
    assert (seen + [rules[j]])[..|seen|] == seen;
    assert before + rules[..j + 1] == seen + [rules[j]];
    if IsOpen(rules[j]) {
      CloseCallsSnoc(OpenPorts(seen), rules[j].port, env);
    }
  }

  /** One more rule is one more step of the pass. */
  lemma ManageStep(before: seq<PortIpRule>, rules: seq<PortIpRule>, j: int, env: Env)
    requires 0 <= j < |rules|
    ensures var p := Manage(before + rules[..j], env);
            var r := rules[j];
            Manage(before + rules[..j + 1], env) ==
            if p.aborted || !IsOpen(r) then p
            else if !SocketPort(r.port) then ManageResult(p.attempted, p.calls, true)
            else if r.port in env.listening then p
            else ManageResult(p.attempted + [r], p.calls + Realize(r, env).calls, false)
  {
    var seen := before + rules[..j];
    assert (seen + [rules[j]])[..|seen|] == seen;
    assert before + rules[..j + 1] == seen + [rules[j]];
  }

  /** A pass stopped inside the rules of address `i` is stopped for the whole table. */
  lemma AbortedPrefix(t: Table, i: int, j: int, env: Env)
    requires 0 <= i < |t| && 0 <= j < |t[i].rules|
    requires Manage(Flatten(t[..i]) + t[i].rules[..j + 1], env).aborted
    ensures Manage(Flatten(t), env) == Manage(Flatten(t[..i]) + t[i].rules[..j + 1], env)
  {
    var rules := t[i].rules;
    FlattenStep(t, i);
    FlattenPrefix(t, i + 1);
    assert rules[..j + 1] <= rules;
    ManageStaysAborted(Flatten(t[..i]) + rules[..j + 1], Flatten(t), env);
  }

  /** The rules of the first keys come first. */
  lemma {:induction false} FlattenPrefix(t: Table, n: int)
    requires 0 <= n <= |t|
    ensures Flatten(t[..n]) <= Flatten(t)
    decreases |t| - n
  {
    if n < |t| {
      FlattenPrefix(t, n + 1);
      assert t[..n + 1][..n] == t[..n];
    } else {
      assert t[..n] == t;
    }
  }

  /** Once the pass has stopped at a rule, it has stopped for the whole sequence. */
  lemma {:induction false} ManageStaysAborted(prefix: seq<PortIpRule>, all: seq<PortIpRule>, env: Env)
    requires prefix <= all && Manage(prefix, env).aborted
    ensures Manage(all, env) == Manage(prefix, env)
    decreases |all| - |prefix|
  {
    if |prefix| < |all| {
      var longer := all[..|prefix| + 1];
      assert longer[..|longer| - 1] == prefix;
      assert Manage(longer, env) == Manage(prefix, env);
      ManageStaysAborted(longer, all, env);
    } else {
      assert prefix == all;
    }
  }
}
