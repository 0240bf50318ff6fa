/**
 * The login firewall (FirewallManager): a set of address-pattern rules whose identity is
 * the pattern alone, a loose pattern matcher, and the decision taken on every login.
 */
module Firewall {
  import opened Wrappers
  import opened JavaText
  import opened Collections
  import opened Config

  /** A rule as stored: the pattern and the type and action words exactly as given. */
  datatype FirewallRule = FirewallRule(ip: string, listType: string, action: string)

  /** A `firewall.rules.<key>` entry; a field that is missing reads as null. */
  datatype FirewallEntry = FirewallEntry(ip: Option<string>, listType: Option<string>, action: Option<string>)

  /** What a login event ends with: left as it was, or KICK_BANNED with one of two kick messages. */
  datatype KickReason = Blocked | NotWhitelisted
  datatype LoginOutcome = Untouched | KickBanned(reason: KickReason)

  /** The replies of the add and remove commands. */
  datatype FirewallReply = RuleAdded | RuleRemoved | InvalidIp | InvalidType | InvalidAction | RuleNotFound

  // ---------------------------------------------------------------------------
  // Matching and the login decision

  /** FirewallRule.matches: equal, the pattern `*`, or a prefix once every `.*` is deleted. */
  predicate Matches(pattern: string, address: string) {
    address == pattern || pattern == "*" || StartsWith(address, RemoveWildcards(pattern))
  }

  /** Every pattern matches itself, and the patterns "" and ".*" match every address. */
  lemma MatchesEverywhere(pattern: string, address: string)
    ensures Matches(pattern, pattern)
    ensures Matches("", address) && Matches(".*", address)
  {
    RemoveTrailingWildcard("");
    assert "" + ".*" == ".*";
  }

  /**
   * A pattern `p.*`, with no other wildcard in `p`, matches exactly the addresses that
   * start with `p` (and the literal text `p.*` itself).
   */
  lemma TrailingWildcardMatchesPrefix(p: string, address: string)
    requires !HasWildcard(p)
    ensures Matches(p + ".*", address) <==> StartsWith(address, p) || address == p + ".*"
  {
    RemoveTrailingWildcard(p);
    RemoveWildcardsIdentity(p);
    assert p + ".*" != "*";
  }

  /** The prefix is textual, not per octet: `10.*` also matches `100.0.0.1`. */
  lemma WildcardIsTextualPrefix()
    ensures Matches("10.*", "100.0.0.1")
  {
    TrailingWildcardMatchesPrefix("10", "100.0.0.1");
    assert "10.*" == "10" + ".*";
    assert "10" <= "100.0.0.1";
  }

  predicate IsBlacklistBlock(r: FirewallRule) {
    EqualsIgnoreCase("block", r.action) && EqualsIgnoreCase("blacklist", r.listType)
  }

  predicate IsWhitelistAllow(r: FirewallRule) {
    EqualsIgnoreCase("allow", r.action) && EqualsIgnoreCase("whitelist", r.listType)
  }

  /** A rule that ends the first loop of onPlayerLogin for this address. */
  predicate Decides(r: FirewallRule, address: string) {
    Matches(r.ip, address) && (IsBlacklistBlock(r) || IsWhitelistAllow(r))
  }

  predicate BlacklistedBy(rules: seq<FirewallRule>, address: string) {
    exists i :: 0 <= i < |rules| && Matches(rules[i].ip, address) && IsBlacklistBlock(rules[i])
  }

  predicate WhitelistedBy(rules: seq<FirewallRule>, address: string) {
    exists i :: 0 <= i < |rules| && Matches(rules[i].ip, address) && IsWhitelistAllow(rules[i])
  }

  datatype Verdict = Deny | Allow

  /** The first loop of onPlayerLogin: the verdict of the first deciding rule in iteration order. */
  function FirstVerdict(rules: seq<FirewallRule>, address: string): Option<Verdict> {
    if rules == [] then None
    else if Matches(rules[0].ip, address) && IsBlacklistBlock(rules[0]) then Some(Deny)
    else if Matches(rules[0].ip, address) && IsWhitelistAllow(rules[0]) then Some(Allow)
    else FirstVerdict(rules[1..], address)
  }

  /** onPlayerLogin for a given state of the rule set, `firewall.enabled` and `firewall.whitelist-mode`. */
  function LoginDecision(enabled: bool, whitelistMode: bool, rules: seq<FirewallRule>, address: string): (r: LoginOutcome)
    ensures !enabled ==> r == Untouched
    ensures r == KickBanned(Blocked) ==> BlacklistedBy(rules, address)
    ensures r == KickBanned(NotWhitelisted) ==>
              whitelistMode && !WhitelistedBy(rules, address) && !BlacklistedBy(rules, address)
  {
    if !enabled then Untouched
    else
      FirstVerdictSound(rules, address);
      match FirstVerdict(rules, address)
      case Some(Deny) => KickBanned(Blocked)
      case Some(Allow) => Untouched
      case None => if whitelistMode && !WhitelistedBy(rules, address) then KickBanned(NotWhitelisted) else Untouched
  }

  /** A deny comes from a blacklist rule, an allow from a whitelist rule, and no verdict means no rule decides. */
  lemma {:induction false} FirstVerdictSound(rules: seq<FirewallRule>, address: string)
    ensures FirstVerdict(rules, address) == Some(Deny) ==> BlacklistedBy(rules, address)
    ensures FirstVerdict(rules, address) == Some(Allow) ==> WhitelistedBy(rules, address)
    ensures FirstVerdict(rules, address) == None <==> !BlacklistedBy(rules, address) && !WhitelistedBy(rules, address)
  {
    if rules != [] {
      FirstVerdictSound(rules[1..], address);
      assert forall i :: 0 < i < |rules| ==> rules[i] == rules[1..][i - 1];
      if BlacklistedBy(rules[1..], address) {
        var i :| 0 <= i < |rules[1..]| && Matches(rules[1..][i].ip, address) && IsBlacklistBlock(rules[1..][i]);
        assert rules[i + 1] == rules[1..][i];
      }
      if WhitelistedBy(rules[1..], address) {
        var i :| 0 <= i < |rules[1..]| && Matches(rules[1..][i].ip, address) && IsWhitelistAllow(rules[1..][i]);
        assert rules[i + 1] == rules[1..][i];
      }
    }
  }

  /** First match wins: the first rule that decides for the address fixes the verdict. */
  lemma {:induction false} FirstDecidingRuleWins(rules: seq<FirewallRule>, address: string, k: int)
    requires 0 <= k < |rules| && Decides(rules[k], address)
    requires forall j :: 0 <= j < k ==> !Decides(rules[j], address)
    ensures FirstVerdict(rules, address) == if IsBlacklistBlock(rules[k]) then Some(Deny) else Some(Allow)
  {
    if k > 0 {
      assert forall j :: 0 <= j < k - 1 ==> rules[1..][j] == rules[j + 1];
      FirstDecidingRuleWins(rules[1..], address, k - 1);
    } else {
      BlockAllowExclusive(rules[0]);
    }
  }

  /** "block" and "allow" differ ignoring case: no action word is both, so no rule is both a blacklist block and a whitelist allow. */
  lemma BlockAllowExclusive(r: FirewallRule)
    ensures !(EqualsIgnoreCase("block", r.action) && EqualsIgnoreCase("allow", r.action))
    ensures !(IsBlacklistBlock(r) && IsWhitelistAllow(r))
  {
    if EqualsIgnoreCase("block", r.action) {
      assert CharsEqualIgnoreCase('b', r.action[0]);
    }
  }

  /**
   * The login decision, stated without the iteration order: a disabled firewall never
   * touches a login; with a matching blacklist block and no matching whitelist allow the
   * login is kicked as blocked; with no matching blacklist block it is kicked (as not
   * whitelisted) exactly when whitelist-mode is on and no whitelist allow matches.
   */
  lemma LoginCharacterization(enabled: bool, whitelistMode: bool, rules: seq<FirewallRule>, address: string)
    ensures !enabled ==> LoginDecision(enabled, whitelistMode, rules, address) == Untouched
    ensures enabled && BlacklistedBy(rules, address) && !WhitelistedBy(rules, address) ==>
              LoginDecision(enabled, whitelistMode, rules, address) == KickBanned(Blocked)
    ensures enabled && !BlacklistedBy(rules, address) ==>
              LoginDecision(enabled, whitelistMode, rules, address) ==
                (if whitelistMode && !WhitelistedBy(rules, address) then KickBanned(NotWhitelisted) else Untouched)
  {
    if enabled {
      FirstVerdictSound(rules, address);
      match FirstVerdict(rules, address)
      case Some(Deny) =>
      case Some(Allow) =>
      case None =>
    }
  }

  /**
   * The whitelist-mode loop of onPlayerLogin never finds a rule: it runs only when the
   * first loop found no deciding rule, and then no whitelist allow matches at all.
   */
  lemma WhitelistLoopFindsNothing(rules: seq<FirewallRule>, address: string)
    requires FirstVerdict(rules, address) == None
    ensures !WhitelistedBy(rules, address)
  {
    FirstVerdictSound(rules, address);
  }

  /** Whether a matching rule of each kind exists depends only on which rules there are, not on their order. */
  lemma SameRulesSameMatches(rules1: seq<FirewallRule>, rules2: seq<FirewallRule>, address: string)
    requires forall r :: r in rules1 <==> r in rules2
    ensures BlacklistedBy(rules1, address) <==> BlacklistedBy(rules2, address)
    ensures WhitelistedBy(rules1, address) <==> WhitelistedBy(rules2, address)
  {
    if BlacklistedBy(rules1, address) {
      var i :| 0 <= i < |rules1| && Matches(rules1[i].ip, address) && IsBlacklistBlock(rules1[i]);
      assert rules1[i] in rules2;
    }
    if BlacklistedBy(rules2, address) {
      var i :| 0 <= i < |rules2| && Matches(rules2[i].ip, address) && IsBlacklistBlock(rules2[i]);
      assert rules2[i] in rules1;
    }
    if WhitelistedBy(rules1, address) {
      var i :| 0 <= i < |rules1| && Matches(rules1[i].ip, address) && IsWhitelistAllow(rules1[i]);
      assert rules1[i] in rules2;
    }
    if WhitelistedBy(rules2, address) {
      var i :| 0 <= i < |rules2| && Matches(rules2[i].ip, address) && IsWhitelistAllow(rules2[i]);
      assert rules2[i] in rules1;
    }
  }

  /**
   * Unless a blacklist block and a whitelist allow both match the address, the decision is
   * the same in every iteration order of the same rules.
   */
  lemma OrderIrrelevantWithoutConflict(enabled: bool, whitelistMode: bool,
                                       rules1: seq<FirewallRule>, rules2: seq<FirewallRule>, address: string)
    requires forall r :: r in rules1 <==> r in rules2
    requires !(BlacklistedBy(rules1, address) && WhitelistedBy(rules1, address))
    ensures LoginDecision(enabled, whitelistMode, rules1, address) == LoginDecision(enabled, whitelistMode, rules2, address)
  {
    SameRulesSameMatches(rules1, rules2, address);
    LoginCharacterization(enabled, whitelistMode, rules1, address);
    LoginCharacterization(enabled, whitelistMode, rules2, address);
    FirstVerdictSound(rules1, address);
    FirstVerdictSound(rules2, address);
  }

  /** When both kinds match, the order does decide: the same two rules give opposite outcomes. */
  lemma ConflictDependsOnOrder()
    ensures var deny := FirewallRule("10.0.0.5", "blacklist", "block");
            var allow := FirewallRule("10.0.0.*", "whitelist", "allow");
            LoginDecision(true, false, [deny, allow], "10.0.0.5") == KickBanned(Blocked) &&
            LoginDecision(true, false, [allow, deny], "10.0.0.5") == Untouched
  {
    var deny := FirewallRule("10.0.0.5", "blacklist", "block");
    var allow := FirewallRule("10.0.0.*", "whitelist", "allow");
    ConflictingRules(deny, allow);
    assert [deny, allow][1..] == [allow];
    assert [allow, deny][1..] == [deny];
    assert FirstVerdict([deny, allow], "10.0.0.5") == Some(Deny);
    assert FirstVerdict([allow, deny], "10.0.0.5") == Some(Allow);
  }

  /** The two rules of the example above both match the address and decide it opposite ways. */
  lemma ConflictingRules(deny: FirewallRule, allow: FirewallRule)
    requires deny == FirewallRule("10.0.0.5", "blacklist", "block")
    requires allow == FirewallRule("10.0.0.*", "whitelist", "allow")
    ensures Matches(deny.ip, "10.0.0.5") && IsBlacklistBlock(deny) && !IsWhitelistAllow(deny)
    ensures Matches(allow.ip, "10.0.0.5") && IsWhitelistAllow(allow) && !IsBlacklistBlock(allow)
  {
    assert IsBlacklistBlock(deny);
    assert IsWhitelistAllow(allow);
    assert Matches(deny.ip, "10.0.0.5");
    assert Matches(allow.ip, "10.0.0.5") by {
      assert allow.ip == "10.0.0" + ".*";
      RemoveTrailingWildcard("10.0.0");
      RemoveWildcardsIdentity("10.0.0");
      assert "10.0.0" <= "10.0.0.5";
    }
    BlockAllowExclusive(deny);
    BlockAllowExclusive(allow);
  }

  /**
   * A rule that is neither a blacklist block nor a whitelist allow (a whitelist block, an
   * unknown word) never changes a decision, wherever it stands in the iteration order.
   */
  lemma {:induction false} InertRuleIgnored(enabled: bool, whitelistMode: bool,
                                            rules: seq<FirewallRule>, r: FirewallRule, k: int, address: string)
    requires 0 <= k <= |rules|
    requires !IsBlacklistBlock(r) && !IsWhitelistAllow(r)
    ensures LoginDecision(enabled, whitelistMode, rules[..k] + [r] + rules[k..], address) ==
            LoginDecision(enabled, whitelistMode, rules, address)
  {
    InertRuleFirstVerdict(rules, r, k, address);
    var rules' := rules[..k] + [r] + rules[k..];
    assert forall x :: x in rules' <==> x in rules || x == r by {
      assert rules == rules[..k] + rules[k..];
    }
    if WhitelistedBy(rules', address) {
      var i :| 0 <= i < |rules'| && Matches(rules'[i].ip, address) && IsWhitelistAllow(rules'[i]);
      assert rules'[i] in rules;
      var j :| 0 <= j < |rules| && rules[j] == rules'[i];
    }
    if WhitelistedBy(rules, address) {
      var i :| 0 <= i < |rules| && Matches(rules[i].ip, address) && IsWhitelistAllow(rules[i]);
      assert rules[i] in rules';
      var j :| 0 <= j < |rules'| && rules'[j] == rules[i];
    }
  }

  lemma {:induction false} InertRuleFirstVerdict(rules: seq<FirewallRule>, r: FirewallRule, k: int, address: string)
    requires 0 <= k <= |rules|
    requires !IsBlacklistBlock(r) && !IsWhitelistAllow(r)
    ensures FirstVerdict(rules[..k] + [r] + rules[k..], address) == FirstVerdict(rules, address)
  {
    var rules' := rules[..k] + [r] + rules[k..];
    if k == 0 {
      assert rules'[1..] == rules;
    } else {
      assert rules'[0] == rules[0];
      assert rules'[1..] == rules[1..][..k - 1] + [r] + rules[1..][k - 1..];
      InertRuleFirstVerdict(rules[1..], r, k - 1, address);
    }
  }

  // ---------------------------------------------------------------------------
  // The rule set: a HashSet whose equals and hashCode look at the pattern only

  /** FirewallRule.equals: two rules are the same rule when their patterns are equal. */
  predicate SameRule(a: FirewallRule, b: FirewallRule) {
    a.ip == b.ip
  }

  /** The set invariant: no two rules share a pattern. */
  predicate PatternsDistinct(rules: seq<FirewallRule>) {
    forall i, j :: 0 <= i < j < |rules| ==> !SameRule(rules[i], rules[j])
  }

  predicate HasPattern(rules: seq<FirewallRule>, ip: string) {
    exists i :: 0 <= i < |rules| && rules[i].ip == ip
  }

  /** The rule stored for a pattern, if any. */
  function RuleFor(rules: seq<FirewallRule>, ip: string): (r: Option<FirewallRule>)
    ensures r.Some? <==> HasPattern(rules, ip)
    ensures r.Some? ==> r.value in rules && r.value.ip == ip
  {
    if rules == [] then None
    else if rules[0].ip == ip then Some(rules[0])
    else
      var r := RuleFor(rules[1..], ip);
      assert forall i :: 1 <= i < |rules| ==> rules[i] == rules[1..][i - 1];
      r
  }

  /** HashSet.add: a rule whose pattern is already there is not inserted; the old rule stays. */
  function SetAdd(rules: seq<FirewallRule>, rule: FirewallRule): seq<FirewallRule> {
    if HasPattern(rules, rule.ip) then rules else rules + [rule]
  }

  /** removeIf(rule -> rule.ip().equals(ip)): the rules with exactly this pattern are dropped. */
  function WithoutPattern(rules: seq<FirewallRule>, ip: string): (r: seq<FirewallRule>)
    ensures forall x :: x in r <==> x in rules && x.ip != ip
  {
    if rules == [] then []
    else if rules[0].ip == ip then WithoutPattern(rules[1..], ip)
    else [rules[0]] + WithoutPattern(rules[1..], ip)
  }

  /**
   * Add keeps the set a set. When the pattern is new, the rule is appended and the count
   * grows by one; when a rule with the pattern exists, nothing changes and that rule (with
   * its own type and action) is the one that stays.
   */
  lemma SetAddProperties(rules: seq<FirewallRule>, rule: FirewallRule)
    requires PatternsDistinct(rules)
    ensures PatternsDistinct(SetAdd(rules, rule))
    ensures HasPattern(rules, rule.ip) ==> SetAdd(rules, rule) == rules
    ensures !HasPattern(rules, rule.ip) ==> |SetAdd(rules, rule)| == |rules| + 1
    ensures RuleFor(SetAdd(rules, rule), rule.ip) == Some(RuleFor(rules, rule.ip).GetOr(rule))
    ensures forall ip :: ip != rule.ip ==> RuleFor(SetAdd(rules, rule), ip) == RuleFor(rules, ip)
  {
    if !HasPattern(rules, rule.ip) {
      RuleForSnoc(rules, rule, rule.ip);
      forall ip | ip != rule.ip ensures RuleFor(SetAdd(rules, rule), ip) == RuleFor(rules, ip) {
        RuleForSnoc(rules, rule, ip);
      }
    }
  }

  lemma {:induction false} RuleForSnoc(rules: seq<FirewallRule>, rule: FirewallRule, ip: string)
    ensures RuleFor(rules + [rule], ip) == if HasPattern(rules, ip) then RuleFor(rules, ip)
                                           else if rule.ip == ip then Some(rule) else None
  {
    if rules != [] {
      assert (rules + [rule])[1..] == rules[1..] + [rule];
      RuleForSnoc(rules[1..], rule, ip);
      assert forall i :: 1 <= i < |rules| ==> rules[i] == rules[1..][i - 1];
      if HasPattern(rules[1..], ip) {
        var i :| 0 <= i < |rules[1..]| && rules[1..][i].ip == ip;
        assert rules[i + 1].ip == ip;
      }
    }
  }

  /** The tail of a set still has distinct patterns, none of them the head's. */
  lemma TailPatternsDistinct(rules: seq<FirewallRule>)
    requires PatternsDistinct(rules) && rules != []
    ensures PatternsDistinct(rules[1..])
    ensures forall x :: x in rules[1..] ==> x.ip != rules[0].ip
  {
    var tail := rules[1..];
    forall i, j | 0 <= i < j < |tail| ensures !SameRule(tail[i], tail[j]) {
      assert tail[i] == rules[i + 1] && tail[j] == rules[j + 1];
    }
    forall x | x in tail ensures x.ip != rules[0].ip {
      var i :| 0 <= i < |tail| && tail[i] == x;
      assert rules[i + 1] == x;
    }
  }

  /** In a set, the rule stored for a pattern is the one member with that pattern. */
  lemma RuleForIsMember(rules: seq<FirewallRule>, ip: string, x: FirewallRule)
    requires PatternsDistinct(rules)
    ensures RuleFor(rules, ip) == Some(x) <==> x in rules && x.ip == ip
  {
    if x in rules && x.ip == ip {
      var i :| 0 <= i < |rules| && rules[i] == x;
      assert HasPattern(rules, ip);
      var y := RuleFor(rules, ip).value;
      var j :| 0 <= j < |rules| && rules[j] == y;
    }
  }

  lemma {:induction false} WithoutPatternDistinct(rules: seq<FirewallRule>, ip: string)
    requires PatternsDistinct(rules)
    ensures PatternsDistinct(WithoutPattern(rules, ip))
  {
    if rules != [] {
      var tail := rules[1..];
      TailPatternsDistinct(rules);
      WithoutPatternDistinct(tail, ip);
      if rules[0].ip != ip {
        var rest := WithoutPattern(tail, ip);
        var r := [rules[0]] + rest;
        forall i, j | 0 <= i < j < |r| ensures !SameRule(r[i], r[j]) {
          assert r[j] == rest[j - 1];
          if i == 0 {
            assert rest[j - 1] in rest;
          } else {
            assert r[i] == rest[i - 1];
          }
        }
      }
    }
  }

  lemma {:induction false} WithoutPatternLength(rules: seq<FirewallRule>, ip: string)
    requires PatternsDistinct(rules)
    ensures |WithoutPattern(rules, ip)| == if HasPattern(rules, ip) then |rules| - 1 else |rules|
  {
    if rules != [] {
      var tail := rules[1..];
      TailPatternsDistinct(rules);
      WithoutPatternLength(tail, ip);
      assert HasPattern(rules, ip) <==> rules[0].ip == ip || HasPattern(tail, ip) by {
        if HasPattern(rules, ip) && rules[0].ip != ip {
          var i :| 0 <= i < |rules| && rules[i].ip == ip;
          assert tail[i - 1].ip == ip;
        }
        if HasPattern(tail, ip) {
          var i :| 0 <= i < |tail| && tail[i].ip == ip;
          assert rules[i + 1].ip == ip;
        }
      }
    }
  }

  /**
   * Remove by exact pattern: afterwards no rule has that pattern, every other pattern keeps
   * its rule, and the count drops by one exactly when a rule had the pattern.
   */
  lemma WithoutPatternProperties(rules: seq<FirewallRule>, ip: string)
    requires PatternsDistinct(rules)
    ensures PatternsDistinct(WithoutPattern(rules, ip))
    ensures !HasPattern(WithoutPattern(rules, ip), ip)
    ensures forall other :: other != ip ==> RuleFor(WithoutPattern(rules, ip), other) == RuleFor(rules, other)
    ensures |WithoutPattern(rules, ip)| == if HasPattern(rules, ip) then |rules| - 1 else |rules|
  {
    var r := WithoutPattern(rules, ip);
    WithoutPatternDistinct(rules, ip);
    WithoutPatternLength(rules, ip);
    forall other | other != ip ensures RuleFor(r, other) == RuleFor(rules, other) {
      var a := RuleFor(rules, other);
      var b := RuleFor(r, other);
      if a.Some? {
        RuleForIsMember(rules, other, a.value);
        RuleForIsMember(r, other, a.value);
      }
    }
  }

  /** getRuleCount counts distinct patterns. */
  lemma PatternCount(rules: seq<FirewallRule>)
    requires PatternsDistinct(rules)
    ensures |set r | r in rules :: r.ip| == |rules|
  {
    var ips := seq(|rules|, i requires 0 <= i < |rules| => rules[i].ip);
    assert Distinct(ips) by {
      forall i, j | 0 <= i < j < |ips| ensures ips[i] != ips[j] {
        assert ips[i] == rules[i].ip && ips[j] == rules[j].ip;
        assert !SameRule(rules[i], rules[j]);
      }
    }
    DistinctCardinality(ips);
    assert (set r | r in rules :: r.ip) == (set x | x in ips) by {
      forall r | r in rules ensures r.ip in ips {
        var i :| 0 <= i < |rules| && rules[i] == r;
        assert ips[i] == r.ip;
      }
      forall x | x in ips ensures x in (set r | r in rules :: r.ip) {
        var i :| 0 <= i < |ips| && ips[i] == x;
        assert rules[i] in rules;
      }
    }
  }

  // ---------------------------------------------------------------------------
  // Loading from and writing to `firewall.rules`

  /** The rule an entry loads as: only an entry with all three fields present loads. */
  function EntryRule(e: FirewallEntry): Option<FirewallRule> {
    if e.ip.Some? && e.listType.Some? && e.action.Some? then Some(FirewallRule(e.ip.value, e.listType.value, e.action.value))
    else None
  }

  /** loadFirewallRules: start from an empty set and add the rule of each entry in key order. */
  function LoadedRules(entries: Section<FirewallEntry>): (r: seq<FirewallRule>)
    ensures PatternsDistinct(r)
  {
    if entries == [] then []
    else
      var prior := LoadedRules(entries[..|entries| - 1]);
      var e := EntryRule(entries[|entries| - 1].entry);
      SetAddDistinct(prior, e);
      if e.Some? then SetAdd(prior, e.value) else prior
  }

  lemma SetAddDistinct(rules: seq<FirewallRule>, e: Option<FirewallRule>)
    requires PatternsDistinct(rules)
    ensures e.Some? ==> PatternsDistinct(SetAdd(rules, e.value))
  {
  }

  /** The rule of the first complete entry with this pattern, in key order. */
  function FirstEntryRule(entries: Section<FirewallEntry>, ip: string): Option<FirewallRule> {
    if entries == [] then None
    else
      var e := EntryRule(entries[0].entry);
      if e.Some? && e.value.ip == ip then e else FirstEntryRule(entries[1..], ip)
  }

  lemma {:induction false} FirstEntryRuleSnoc(entries: Section<FirewallEntry>, item: Item<FirewallEntry>, ip: string)
    ensures FirstEntryRule(entries + [item], ip) ==
            if FirstEntryRule(entries, ip).Some? then FirstEntryRule(entries, ip)
            else var e := EntryRule(item.entry); if e.Some? && e.value.ip == ip then e else None
  {
    if entries != [] {
      assert (entries + [item])[1..] == entries[1..] + [item];
      FirstEntryRuleSnoc(entries[1..], item, ip);
    }
  }

  /**
   * Among entries sharing a pattern, the first complete one loaded is the one kept: for
   * every pattern, the loaded rule is the rule of the first complete entry with it.
   */
  lemma {:induction false} LoadKeepsFirstEntry(entries: Section<FirewallEntry>, ip: string)
    ensures RuleFor(LoadedRules(entries), ip) == FirstEntryRule(entries, ip)
    decreases |entries|
  {
    if entries != [] {
      var init := entries[..|entries| - 1];
      var last := entries[|entries| - 1];
      assert entries == init + [last];
      LoadKeepsFirstEntry(init, ip);
      FirstEntryRuleSnoc(init, last, ip);
      var prior := LoadedRules(init);
      var e := EntryRule(last.entry);
      if e.Some? {
        if !HasPattern(prior, e.value.ip) {
          RuleForSnoc(prior, e.value, ip);
        }
      }
    }
  }

  /** A pattern is loaded exactly when some complete entry carries it. */
  lemma {:induction false} FirstEntryRuleExists(entries: Section<FirewallEntry>, ip: string)
    ensures FirstEntryRule(entries, ip).Some? <==>
            exists k :: 0 <= k < |entries| && EntryRule(entries[k].entry).Some? && EntryRule(entries[k].entry).value.ip == ip
  {
    if entries != [] {
      FirstEntryRuleExists(entries[1..], ip);
      assert forall k :: 1 <= k < |entries| ==> entries[k] == entries[1..][k - 1];
      if exists k :: 0 <= k < |entries| && EntryRule(entries[k].entry).Some? && EntryRule(entries[k].entry).value.ip == ip {
        var k :| 0 <= k < |entries| && EntryRule(entries[k].entry).Some? && EntryRule(entries[k].entry).value.ip == ip;
        if k > 0 {
          assert entries[1..][k - 1] == entries[k];
        }
      }
    }
  }

  /** The entry addRule writes: the pattern as given, type and action in lower case. */
  function AddedEntry(ip: string, listType: string, action: string): FirewallEntry {
    FirewallEntry(Some(ip), Some(ToLower(listType)), Some(ToLower(action)))
  }

  /**
   * addRule persists an entry even when the pattern is already in the set. After a reload
   * that entry is ignored: the earlier entry for the pattern still wins.
   */
  lemma ReloadIgnoresDuplicateAdd(config: Section<FirewallEntry>, key: string, ip: string, listType: string, action: string)
    requires HasPattern(LoadedRules(config), ip)
    requires !HasKey(config, key)
    ensures LoadedRules(Put(config, key, AddedEntry(ip, listType, action))) == LoadedRules(config)
  {
    PutNewKeyAppends(config, key, AddedEntry(ip, listType, action));
    var config' := config + [Item(key, AddedEntry(ip, listType, action))];
    assert config'[..|config'| - 1] == config;
  }

  /** removeRule's config loop: the first entry whose ip is exactly the pattern is deleted. */
  function DeleteFirstWithIp(entries: Section<FirewallEntry>, ip: string): (r: Section<FirewallEntry>)
    ensures |r| <= |entries|
  {
    if entries == [] then []
    else if entries[0].entry.ip == Some(ip) then entries[1..]
    else [entries[0]] + DeleteFirstWithIp(entries[1..], ip)
  }

  lemma {:induction false} DeleteFirstWithIpAt(entries: Section<FirewallEntry>, ip: string, k: int)
    requires 0 <= k <= |entries|
    requires forall j :: 0 <= j < k ==> entries[j].entry.ip != Some(ip)
    requires k < |entries| ==> entries[k].entry.ip == Some(ip)
    ensures DeleteFirstWithIp(entries, ip) == if k < |entries| then entries[..k] + entries[k + 1..] else entries
  {
    if k > 0 {
      var tail := entries[1..];
      assert entries[0].entry.ip != Some(ip);
      assert DeleteFirstWithIp(entries, ip) == [entries[0]] + DeleteFirstWithIp(tail, ip);
      assert forall j :: 0 <= j < k - 1 ==> tail[j] == entries[j + 1];
      DeleteFirstWithIpAt(tail, ip, k - 1);
      if k < |entries| {
        DropAtCons(entries, k);
      } else {
        assert entries == [entries[0]] + tail;
      }
    } else if k < |entries| {
      assert entries[..0] + entries[1..] == entries[1..];
    }
  }

  /**
   * removeRule deletes only the first entry with the pattern: when a second complete entry
   * carries it (an addRule repeated for a pattern already present writes one), the pattern
   * is loaded again on the next reload.
   */
  lemma RemoveLeavesLaterDuplicate(entries: Section<FirewallEntry>, ip: string, i: int, j: int)
    requires 0 <= i < j < |entries|
    requires EntryRule(entries[i].entry).Some? && EntryRule(entries[i].entry).value.ip == ip
    requires EntryRule(entries[j].entry).Some? && EntryRule(entries[j].entry).value.ip == ip
    ensures HasPattern(LoadedRules(DeleteFirstWithIp(entries, ip)), ip)
  {
    var k := FirstIpIndex(entries, ip);
    DeleteFirstWithIpAt(entries, ip, k);
    var rest := DeleteFirstWithIp(entries, ip);
    assert k <= i;
    DropAtShifts(entries, k, j);
    assert rest[j - 1] == entries[j];
    FirstEntryRuleExists(rest, ip);
    LoadKeepsFirstEntry(rest, ip);
  }

  /** The index of the first entry whose ip is exactly `ip`, or the length when there is none. */
  function FirstIpIndex(entries: Section<FirewallEntry>, ip: string): (k: nat)
    ensures k <= |entries|
    ensures forall j :: 0 <= j < k ==> entries[j].entry.ip != Some(ip)
    ensures k < |entries| ==> entries[k].entry.ip == Some(ip)
  {
    if entries == [] then 0
    else if entries[0].entry.ip == Some(ip) then 0
    else
      var k := FirstIpIndex(entries[1..], ip);
      assert forall j :: 1 <= j < k + 1 ==> entries[j] == entries[1..][j - 1];
      1 + k
  }

  // ---------------------------------------------------------------------------
  // The manager

  class FirewallManager {
    /** The rule set, in its iteration order. */
    var rules: seq<FirewallRule>
    /** `firewall.enabled` as last loaded. */
    var enabled: bool
    /** The `firewall.rules` section of the plugin configuration. */
    var config: Section<FirewallEntry>

    ghost predicate Valid()
      reads this
    {
      PatternsDistinct(rules) && KeysDistinct(config)
    }

    /** A new manager holds no rules and is enabled; the configuration is what the plugin read. */
    constructor (config: Section<FirewallEntry>)
      requires KeysDistinct(config)
      ensures Valid()
      ensures rules == [] && enabled && this.config == config
    {
      rules := [];
      enabled := true;
      this.config := config;
    }

    /** getRuleCount: the size of the set, that is, the number of distinct patterns. */
    function RuleCount(): (n: nat)
      reads this
      requires Valid()
      ensures n == |set r | r in rules :: r.ip|
    {
      PatternCount(rules);
      |rules|
    }

    /** loadFirewallRules: `enabledSetting` is `firewall.enabled` (true when missing). */
    method LoadFirewallRules(enabledSetting: Option<bool>)
      requires Valid()
      modifies this
      ensures Valid()
      ensures rules == LoadedRules(config)
      ensures enabled == enabledSetting.GetOr(true)
      ensures config == old(config)
    {
      rules := [];
      enabled := enabledSetting.GetOr(true);
      var i := 0;
      while i < |config|
        invariant 0 <= i <= |config|
        invariant rules == LoadedRules(config[..i])
        invariant config == old(config) && enabled == enabledSetting.GetOr(true)
      {
        var e := config[i].entry;
        assert config[..i + 1][..i] == config[..i];
        if e.ip.Some? && e.listType.Some? && e.action.Some? {
          rules := SetAdd(rules, FirewallRule(e.ip.value, e.listType.value, e.action.value));
        }
        i := i + 1;
      }
      assert config[..|config|] == config;
    }

    /**
     * onPlayerLogin for a peer whose host address is `address`; `whitelistMode` is
     * `firewall.whitelist-mode` (false when missing), read at each login.
     */
    method OnPlayerLogin(address: string, whitelistMode: Option<bool>) returns (outcome: LoginOutcome)
      ensures outcome == LoginDecision(enabled, whitelistMode.GetOr(false), rules, address)
    {
      if !enabled {
        return Untouched;
      }
      var i := 0;
      while i < |rules|
        invariant 0 <= i <= |rules|
        invariant FirstVerdict(rules, address) == FirstVerdict(rules[i..], address)
      {
        var rule := rules[i];
        assert rules[i..][0] == rule && rules[i..][1..] == rules[i + 1..];
        BlockAllowExclusive(rule);
        if Matches(rule.ip, address) {
          if EqualsIgnoreCase("block", rule.action) {
            if EqualsIgnoreCase("blacklist", rule.listType) {
              return KickBanned(Blocked);
            }
          } else if EqualsIgnoreCase("allow", rule.action) {
            if EqualsIgnoreCase("whitelist", rule.listType) {
              return Untouched;
            }
          }
        }
        i := i + 1;
      }
      if whitelistMode.GetOr(false) {
        var allowed := false;
        var j := 0;
        while j < |rules|
          invariant 0 <= j <= |rules|
          invariant allowed <==> exists k :: 0 <= k < j && Matches(rules[k].ip, address) && IsWhitelistAllow(rules[k])
        {
          var rule := rules[j];
          if EqualsIgnoreCase("whitelist", rule.listType) && EqualsIgnoreCase("allow", rule.action) && Matches(rule.ip, address) {
            allowed := true;
            break;
          }
          j := j + 1;
        }
        if !allowed {
          return KickBanned(NotWhitelisted);
        }
      }
      return Untouched;
    }

    /**
     * addRule: `resolvable` is whether InetAddress.getByName(ip) succeeds, `stamp` the
     * current time in milliseconds as text (the new entry's key is "rule_" + stamp).
     */
    method AddRule(ip: string, listType: string, action: string, resolvable: bool, stamp: string)
      returns (reply: FirewallReply)
      requires Valid()
      modifies this
      ensures Valid()
      ensures enabled == old(enabled)
      ensures reply == (if !resolvable then InvalidIp
                        else if !EqualsIgnoreCase("whitelist", listType) && !EqualsIgnoreCase("blacklist", listType) then InvalidType
                        else if !EqualsIgnoreCase("allow", action) && !EqualsIgnoreCase("block", action) then InvalidAction
                        else RuleAdded)
      ensures reply != RuleAdded ==> rules == old(rules) && config == old(config)
      ensures reply == RuleAdded ==>
                rules == SetAdd(old(rules), FirewallRule(ip, listType, action)) &&
                config == Put(old(config), "rule_" + stamp, AddedEntry(ip, listType, action))
    {
      if !resolvable {
        return InvalidIp;
      }
      if !EqualsIgnoreCase("whitelist", listType) && !EqualsIgnoreCase("blacklist", listType) {
        return InvalidType;
      }
      if !EqualsIgnoreCase("allow", action) && !EqualsIgnoreCase("block", action) {
        return InvalidAction;
      }
      var rule := FirewallRule(ip, listType, action);
      SetAddProperties(rules, rule);
      rules := SetAdd(rules, rule);
      PutThenGet(config, "rule_" + stamp, AddedEntry(ip, listType, action), "");
      config := Put(config, "rule_" + stamp, AddedEntry(ip, listType, action));
      return RuleAdded;
    }

    /** removeRule: drop the rule with exactly this pattern, then the first config entry with it. */
    method RemoveRule(ip: string) returns (reply: FirewallReply)
      requires Valid()
      modifies this
      ensures Valid()
      ensures enabled == old(enabled)
      ensures rules == WithoutPattern(old(rules), ip)
      ensures reply == (if HasPattern(old(rules), ip) then RuleRemoved else RuleNotFound)
      ensures config == if reply == RuleRemoved then DeleteFirstWithIp(old(config), ip) else old(config)
    {
      var removed := HasPattern(rules, ip);
      WithoutPatternProperties(rules, ip);
      rules := WithoutPattern(rules, ip);
      if !removed {
        return RuleNotFound;
      }
      var i := 0;
      while i < |config| && config[i].entry.ip != Some(ip)
        invariant 0 <= i <= |config|
        invariant forall j :: 0 <= j < i ==> config[j].entry.ip != Some(ip)
      {
        i := i + 1;
      }
      DeleteFirstWithIpAt(config, ip, i);
      if i < |config| {
        DeleteAtKeepsDistinct(config, i);
        config := config[..i] + config[i + 1..];
      }
      return RuleRemoved;
    }
  }

}
