# UPnP firewall for a Minecraft server, modelled in Dafny

The plugin keeps three kinds of rules, each saved in its own configuration section. This project models them.

* **The login firewall** (`FirewallManager`). Its rules are address patterns, each on a whitelist or a blacklist, with the action `allow` or `block`. When a player logs in, the rules are scanned in order. The first matching rule that is a blacklist `block` kicks the player. The first matching rule that is a whitelist `allow` lets the player in. Any other matching rule is ignored. Whitelist mode kicks everyone that no whitelist `allow` rule matches. The rules form a hash set keyed by the pattern: adding a pattern that already exists keeps the old rule in memory, yet still writes a new `rule_<time>` entry.
* **Per-address port rules** (`PortIPManager`). Each rule opens or blocks a port for one address. They live in a table from address to a set of rules keyed by port. Rules are loaded from `ports-ip.rules.*`, keeping only those whose address passes `isValidIP`. The module covers:
  * the commands that open, block, close and unblock a port;
  * the pass that closes every open rule's port, and the pass that clears everything;
  * the periodic pass that re-opens ports nothing listens on;
  * the permission query: the first rule for the port and protocol decides, and when there is none the answer is yes.
* **Server ports** (`PortManager`). This is a map from port number to port info, loaded from `ports.open.*`. The module covers:
  * the `openPort`, `closePort` and `closeAllPorts` commands;
  * the periodic pass, which first opens the server's own port and then re-opens every port of the map that nothing listens on.

One model serves both copies of the code. The first copy is the split files under `databasemc/upnpfirewall/`. The second is the older copy that keeps the three managers as inner classes of `DataBaseMC/upnpfirewall/Upnpfirewall.java`. The two copies differ in one guard only: the older `isValidIP` lacks the `ip == null` check. There, a missing address reaches `split`. The resulting NullPointerException is caught by the loader's `catch (Exception e)`, so the entry is skipped exactly as when `isValidIP` returns false.

### How the model is built

* **Configuration sections.** A section is a sequence of `(key, entry)` items in key order (module `Config`). Setting a new key appends it, setting an existing key replaces its entry in place, and setting a key to `null` deletes it. An entry field the file does not have is `None`. The loaders apply the same defaults as the code: `getInt` gives 0, the protocol defaults to `TCP`, and so on. A stored port is read the way `getInt` reads it, through `Number.intValue()`: the number's low 32 bits as a two's-complement `int` (`JavaText.ToInt32`). So an entry holding 4294967297 loads as port 1, and `closePort(1)` deletes it.
* **Managers.** Each manager is a `class` whose fields are its in-memory state plus the section it reads and writes. Its methods are proved against functions of the old state: `LoadedRules`, `LoadedTable`, `LoadedPorts`, `SetAdd`, `Added`, `RemoveWhere`, `Manage`, `Allowed` and others. Lemmas then prove the properties about those functions.
* **Hash collections.** Java's hash sets and hash maps are modelled as duplicate-free sequences in a fixed iteration order, with the key the record's `equals` compares: the pattern for a firewall rule, the address and port for a per-address rule. Every order-independent property is proved for all orders: `Firewall.OrderIrrelevantWithoutConflict`, `PortIp.AllowedCharacterization`, `PortIp.CountIsDistinctPairs`. Where the order matters, a lemma shows it with a concrete case: `Firewall.ConflictDependsOnOrder`. `PortManager.openPorts` is a Dafny `map`, and its loops take the keys in an arbitrary order.
* **The outside world** becomes parameters:
  * `Env` is one snapshot of what the gateway and the sockets answer: whether UPnP is available, which ports the gateway refuses, which ports can be bound, and which ports something listens on. The calls made to the gateway are returned as a trace of `Call` values. With the shipped `SimpleUPnPManager`, `openPort` always answers true, so `refused` is empty.
  * `resolvable` is the outcome of `InetAddress.getByName`.
  * `stamp` strings stand for `System.currentTimeMillis()`.
* **Java text functions** are written out in module `JavaText`: `Integer.parseInt` with its sign and 32-bit range, `String.valueOf`, `split("\\.")` with its dropping of trailing empty pieces, `replace(".*", "")`, `startsWith`, and ASCII `equalsIgnoreCase`/`toUpperCase`/`toLowerCase`.

### Behaviour of the code that the model keeps, and proves

* **Close and unblock leave the saved rule.** `closePortForIP` and `unblockPortForIP` first remove the rule with `removeIf`, then call `removePortIPRule`. That call no longer finds the rule, so the saved entry stays, and so does the address key (possibly with an empty set). `PortIp.PortIpManager.ClosePortForIp` and `UnblockPortForIp` state that the configuration is unchanged. `PortIp.NothingLeftOnPort` proves that the second removal finds nothing.
* **Opening a port for an address.** `openPortForIP` adds the rule to memory before it tries to open the port, so a port that fails to open leaves an unsaved rule in memory. An open rule over an existing block rule on the same port is ignored in memory. Yet it is saved when the open succeeds, so the section then holds both rules, and a reload keeps whichever entry comes first. `PortIp.OpenOverBlockStillDenied` covers this.
* **Server-port duplicates.** `closePort` deletes only the first saved entry for the port. Opening an already open port saves a second entry, and that entry brings the port back on reload (`Ports.CloseLeavesLaterDuplicate`). The same holds for firewall patterns (`Firewall.RemoveLeavesLaterDuplicate`). `closeAllPorts` leaves the saved entries alone, so the next load re-opens everything.
* **Load order.** The firewall loads the first entry for a pattern (`Firewall.LoadKeepsFirstEntry`). Server ports load the last entry for a port (`Ports.LoadLastWins`). A server port loaded from `port_<time>` carries that key as its name, not the `cmd_<time>` name it was opened under (`Ports.SaveThenLoad`).
* **Unchecked exceptions end a pass.** `manageIPPorts` calls `isPortOpen` outside any `try` for every OPEN rule, and `manageServerPorts` calls it for the server port. For a port outside 0..65535, `InetSocketAddress` throws IllegalArgumentException, and the pass ends (`aborted`). Inside `openPortInternally` the same exception is caught and gives false.

## Model

| member | source | states |
|---|---|---|
| JavaText.ParseIntValueOf | src/main/java/feliksan4ik/databasemc/upnpfirewall/PortManager.java:51-53 | `Integer.parseInt(String.valueOf(n))` gives back `n` for every 32-bit `n`, so the server port handed to `openPort` as text is the port checked |
| JavaText.EqualsIgnoreCaseIffSameUpper | src/main/java/feliksan4ik/databasemc/upnpfirewall/FirewallManager.java:94-102 | two strings are equal ignoring case exactly when their upper-case forms are equal |
| JavaText.UpperOfEqualIgnoringCase | src/main/java/feliksan4ik/databasemc/upnpfirewall/PortIPManager.java:146-152 | a string equal ignoring case to an upper-case literal upper-cases to that literal |
| JavaText.LowerOfEqualIgnoringCase | src/main/java/feliksan4ik/databasemc/upnpfirewall/FirewallManager.java:108-110 | a string equal ignoring case to a lower-case literal lower-cases to that literal, so a saved type or action is exactly `whitelist`/`blacklist`/`allow`/`block` |
| JavaText.RemoveWildcardsIdentity | src/main/java/feliksan4ik/databasemc/upnpfirewall/FirewallManager.java:169 | `replace(".*", "")` leaves a pattern without `.*` unchanged |
| JavaText.RemoveTrailingWildcard | src/main/java/feliksan4ik/databasemc/upnpfirewall/FirewallManager.java:169 | a trailing `.*` is removed and nothing else changes: `p + ".*"` gives what `p` gives |
| JavaText.ToInt32 | src/main/java/feliksan4ik/databasemc/upnpfirewall/PortManager.java:31 | the `int` that `getInt` makes of a stored number is in the 32-bit range, congruent to the number modulo 2^32, and the number itself when it already fits |
| JavaText.ToInt32Unique | src/main/java/feliksan4ik/databasemc/upnpfirewall/PortManager.java:31 | that conversion is the only 32-bit value congruent to the number modulo 2^32 |
| JavaText.ToInt32Wraps | src/main/java/feliksan4ik/databasemc/upnpfirewall/PortIPManager.java:34 | 4294967297 reads as 1 and 2147483648 as -2147483648 |
| JavaText.ParseInt | src/main/java/feliksan4ik/databasemc/upnpfirewall/PortIPManager.java:62 | every value `Integer.parseInt` accepts (an optional sign, then digits) fits in a Java `int` |
| JavaText.DigitsRoundTrip | src/main/java/feliksan4ik/databasemc/upnpfirewall/PortManager.java:53 | the decimal digits of a natural number read back as that number |
| JavaText.SplitAllJoin | src/main/java/feliksan4ik/databasemc/upnpfirewall/PortIPManager.java:58 | the pieces of a split joined with dots give back the text, and no piece holds a dot |
| JavaText.DropTrailingEmptyRemovesEmpties | src/main/java/feliksan4ik/databasemc/upnpfirewall/PortIPManager.java:58 | `split` drops exactly the trailing empty pieces: what it keeps is a prefix, then only empty pieces follow |
| JavaText.DropTrailingEmptyKeeps | src/main/java/feliksan4ik/databasemc/upnpfirewall/PortIPManager.java:58 | pieces ending in a non-empty one, followed by any number of empty ones, are cut back to exactly those pieces |
| Config.Get | src/main/java/feliksan4ik/databasemc/upnpfirewall/PortIPManager.java:33-37 | a key reads a value exactly when the section holds it |
| Config.PutThenGet | src/main/java/feliksan4ik/databasemc/upnpfirewall/PortIPManager.java:71-79 | after setting a key, reading it gives the new entry, other keys read as before, and keys stay distinct |
| Config.PutNewKeyAppends | src/main/java/feliksan4ik/databasemc/upnpfirewall/PortManager.java:87-91 | setting a key the section does not hold appends it at the end |
| Config.DeleteThenGet | src/main/java/feliksan4ik/databasemc/upnpfirewall/PortIPManager.java:95 | after setting a key to null the key is gone, other keys read as before, and keys stay distinct |
| Config.DeleteAtKeepsDistinct | src/main/java/feliksan4ik/databasemc/upnpfirewall/FirewallManager.java:124-131 | deleting the item at one index keeps the keys distinct |
| Gateway.OpenPortInternally | src/main/java/feliksan4ik/databasemc/upnpfirewall/PortManager.java:109-135 | a port counts as open exactly when the available gateway accepts it or it lies in 0..65535 and can be bound; one open request is sent exactly when the gateway is available |
| Gateway.CloseCalls | src/main/java/feliksan4ik/databasemc/upnpfirewall/PortIPManager.java:314-322 | one close request per port, in order, exactly while the gateway is available |
| Gateway.CloseCallsSnoc | src/main/java/feliksan4ik/databasemc/upnpfirewall/PortIPManager.java:299-305 | closing one more port adds exactly its request at the end |
| Gateway.UpperProtocol | src/main/java/feliksan4ik/databasemc/upnpfirewall/PortManager.java:73-80 | a protocol accepted as TCP or UDP ignoring case is sent upper-cased as exactly `TCP` or `UDP` |
| Firewall.MatchesEverywhere | src/main/java/feliksan4ik/databasemc/upnpfirewall/FirewallManager.java:168-170 | every pattern matches itself, and the patterns `""` and `.*` match every address |
| Firewall.TrailingWildcardMatchesPrefix | src/main/java/feliksan4ik/DataBaseMC/upnpfirewall/Upnpfirewall.java:452-454 | a pattern `p.*` with no other `.*` matches exactly the addresses starting with `p`, plus the literal text `p.*` |
| Firewall.WildcardIsTextualPrefix | src/main/java/feliksan4ik/databasemc/upnpfirewall/FirewallManager.java:169 | the prefix test is on text, not octets: `10.*` matches `100.0.0.1` |
| Firewall.LoginDecision | src/main/java/feliksan4ik/databasemc/upnpfirewall/FirewallManager.java:48-88 | a disabled firewall lets everyone in; a `Blocked` kick has a matching blacklist block rule; a whitelist kick happens only in whitelist mode, with no matching whitelist allow rule and no blacklist block rule |
| Firewall.FirstVerdictSound | src/main/java/feliksan4ik/databasemc/upnpfirewall/FirewallManager.java:54-70 | the first loop denies only when a blacklist block rule matches and allows only when a whitelist allow rule matches; it decides nothing exactly when neither kind matches |
| Firewall.FirstDecidingRuleWins | src/main/java/feliksan4ik/databasemc/upnpfirewall/FirewallManager.java:54-70 | the first deciding rule in iteration order gives the verdict |
| Firewall.BlockAllowExclusive | src/main/java/feliksan4ik/databasemc/upnpfirewall/FirewallManager.java:56-68 | no action is both `block` and `allow`, so no rule is both a blacklist block and a whitelist allow |
| Firewall.LoginCharacterization | src/main/java/feliksan4ik/databasemc/upnpfirewall/FirewallManager.java:48-88 | the decision as a function of which rules match: kicked as blocked when only blacklist rules decide; without a matching blacklist rule, kicked exactly in whitelist mode with no matching whitelist rule |
| Firewall.WhitelistLoopFindsNothing | src/main/java/feliksan4ik/databasemc/upnpfirewall/FirewallManager.java:73-81 | once the first loop decided nothing, the whitelist-mode loop finds no allowing rule |
| Firewall.SameRulesSameMatches | src/main/java/feliksan4ik/databasemc/upnpfirewall/FirewallManager.java:168-170 | which rule kinds match an address depends on the rule set, not its order |
| Firewall.OrderIrrelevantWithoutConflict | src/main/java/feliksan4ik/databasemc/upnpfirewall/FirewallManager.java:54-70 | when no address is matched by both a blacklist block and a whitelist allow rule, every iteration order of the set decides the same |
| Firewall.ConflictDependsOnOrder | src/main/java/feliksan4ik/DataBaseMC/upnpfirewall/Upnpfirewall.java:320-360 | with a deny of `10.0.0.5` and an allow of `10.0.0.*`, the player is kicked in one order and let in in the other |
| Firewall.InertRuleIgnored | src/main/java/feliksan4ik/databasemc/upnpfirewall/FirewallManager.java:56-68 | a rule that is neither a blacklist block nor a whitelist allow changes no login decision, wherever it sits |
| Firewall.RuleFor | src/main/java/feliksan4ik/databasemc/upnpfirewall/FirewallManager.java:172-183 | the rule stored under a pattern exists exactly when the set holds the pattern, and it is a member with that pattern |
| Firewall.SetAddProperties | src/main/java/feliksan4ik/databasemc/upnpfirewall/FirewallManager.java:104-105 | `HashSet.add` keyed by pattern: patterns stay distinct; a known pattern leaves the set unchanged, a new one grows it by one; the pattern then maps to the old rule if there was one, else the new one; other patterns are untouched |
| Firewall.RuleForIsMember | src/main/java/feliksan4ik/databasemc/upnpfirewall/FirewallManager.java:172-183 | in a set with distinct patterns, the rule stored under a pattern is exactly the member with that pattern |
| Firewall.WithoutPattern | src/main/java/feliksan4ik/databasemc/upnpfirewall/FirewallManager.java:121 | `removeIf` by pattern keeps exactly the members with another pattern |
| Firewall.WithoutPatternProperties | src/main/java/feliksan4ik/databasemc/upnpfirewall/FirewallManager.java:121 | after removal patterns stay distinct, the pattern is gone, other patterns are untouched, and the size drops by one exactly when the pattern was present |
| Firewall.PatternCount | src/main/java/feliksan4ik/databasemc/upnpfirewall/FirewallManager.java:162-164 | the size of the set is the number of distinct patterns |
| Firewall.LoadedRules | src/main/java/feliksan4ik/databasemc/upnpfirewall/FirewallManager.java:27-45 | the loaded rules have distinct patterns |
| Firewall.LoadKeepsFirstEntry | src/main/java/feliksan4ik/databasemc/upnpfirewall/FirewallManager.java:33-41 | after loading, a pattern holds the rule of the first complete entry with that pattern |
| Firewall.FirstEntryRuleExists | src/main/java/feliksan4ik/databasemc/upnpfirewall/FirewallManager.java:34-40 | a pattern is loaded exactly when some entry with ip, type and action all present has it |
| Firewall.ReloadIgnoresDuplicateAdd | src/main/java/feliksan4ik/databasemc/upnpfirewall/FirewallManager.java:104-111 | adding a rule for a pattern that is already loaded writes a new entry, but reloading gives the same rules |
| Firewall.DeleteFirstWithIpAt | src/main/java/feliksan4ik/databasemc/upnpfirewall/FirewallManager.java:124-131 | the configuration loop of `removeRule` deletes exactly the first entry whose ip is the pattern, if any |
| Firewall.RemoveLeavesLaterDuplicate | src/main/java/feliksan4ik/DataBaseMC/upnpfirewall/Upnpfirewall.java:394-413 | with two saved entries for one pattern, the pattern is still loaded after `removeRule` |
| Firewall.FirstIpIndex | src/main/java/feliksan4ik/databasemc/upnpfirewall/FirewallManager.java:125-130 | the index where the configuration loop stops: no earlier entry has the ip, and the entry there does |
| Firewall.FirewallManager.RuleCount | src/main/java/feliksan4ik/databasemc/upnpfirewall/FirewallManager.java:162-164 | the rule count is the number of distinct patterns held |
| Firewall.FirewallManager.LoadFirewallRules | src/main/java/feliksan4ik/databasemc/upnpfirewall/FirewallManager.java:27-45 | the rules become those loaded from the section, `enabled` the setting or true, and the section is unchanged |
| Firewall.FirewallManager.OnPlayerLogin | src/main/java/feliksan4ik/databasemc/upnpfirewall/FirewallManager.java:47-88 | the outcome of both loops is the login decision, with whitelist mode false by default |
| Firewall.FirewallManager.AddRule | src/main/java/feliksan4ik/databasemc/upnpfirewall/FirewallManager.java:90-118 | replies with the first failing check (address, type, action); on success the rule is added to the set and `rule_<time>` is saved lower-cased; otherwise nothing changes |
| Firewall.FirewallManager.RemoveRule | src/main/java/feliksan4ik/databasemc/upnpfirewall/FirewallManager.java:120-138 | removes every rule with the pattern; replies removed exactly when one was there, and then deletes the first saved entry with that ip |
| IpAddress.IsValidIp | src/main/java/feliksan4ik/databasemc/upnpfirewall/PortIPManager.java:54-69 | the check loop accepts exactly the addresses `ValidIp` describes: present, four pieces after `split`, each parsing to 0..255 |
| IpAddress.AllOctets | src/main/java/feliksan4ik/databasemc/upnpfirewall/PortIPManager.java:61-68 | the loop over the pieces returns true exactly when every piece parses to a value in 0..255 |
| IpAddress.ValidIpComplete | src/main/java/feliksan4ik/databasemc/upnpfirewall/PortIPManager.java:54-69 | four dot-free octets joined by dots are accepted, followed by any number of dots |
| IpAddress.ValidIpSound | src/main/java/feliksan4ik/databasemc/upnpfirewall/PortIPManager.java:54-69 | an accepted address is exactly four dot-free octets joined by dots, followed only by dots |
| IpAddress.SplitDotted | src/main/java/feliksan4ik/databasemc/upnpfirewall/PortIPManager.java:58 | four dot-free pieces, the last non-empty, joined by dots and followed by dots, split back into the four |
| IpAddress.SplitAllDotted | src/main/java/feliksan4ik/databasemc/upnpfirewall/PortIPManager.java:58 | before the trailing empty strings are dropped, four dot-free pieces and `k` dots split into the four pieces and `k` empty strings |
| IpAddress.RejectsMissing | src/main/java/feliksan4ik/DataBaseMC/upnpfirewall/Upnpfirewall.java:720-761 | an entry without an address is not loaded |
| IpAddress.RejectsThreePieces | src/main/java/feliksan4ik/databasemc/upnpfirewall/PortIPManager.java:59 | `10.0.0` is rejected |
| IpAddress.RejectsEmptyPiece | src/main/java/feliksan4ik/databasemc/upnpfirewall/PortIPManager.java:61-64 | `10.0..1` is rejected |
| IpAddress.RejectsLargePiece | src/main/java/feliksan4ik/databasemc/upnpfirewall/PortIPManager.java:63 | `10.0.0.256` is rejected |
| IpAddress.AcceptsSignedPieces | src/main/java/feliksan4ik/databasemc/upnpfirewall/PortIPManager.java:62-63 | `+1.-0.0.255` is accepted, because `parseInt` takes a sign |
| IpAddress.AcceptsTrailingDot | src/main/java/feliksan4ik/databasemc/upnpfirewall/PortIPManager.java:58-59 | `192.168.0.1.` is accepted, because `split` drops the trailing empty piece |
| PortIp.OpenBlockExclusive | src/main/java/feliksan4ik/databasemc/upnpfirewall/PortIPManager.java:212-240 | no rule is both OPEN and BLOCK |
| PortIp.RemoveWhere | src/main/java/feliksan4ik/databasemc/upnpfirewall/PortIPManager.java:212 | `removeIf` keeps exactly the rules the criterion does not drop, and reports a removal exactly when the size shrinks |
| PortIp.RemoveWhereValid | src/main/java/feliksan4ik/databasemc/upnpfirewall/PortIPManager.java:240 | removing rules keeps one rule per port, all for the key's address |
| PortIp.SamePortSameRule | src/main/java/feliksan4ik/databasemc/upnpfirewall/PortIPManager.java:390-400 | in one address's set, two rules for the same port are the same rule |
| PortIp.FindPort | src/main/java/feliksan4ik/databasemc/upnpfirewall/PortIPManager.java:86-91 | the loop of `removePortIPRule` finds a member with the port, or no member has it |
| PortIp.Find | src/main/java/feliksan4ik/databasemc/upnpfirewall/PortIPManager.java:82-83 | an address's position in the table, or none when it is no key |
| PortIp.WithoutIp | src/main/java/feliksan4ik/databasemc/upnpfirewall/PortIPManager.java:99 | removing a key keeps exactly the other keys' sets |
| PortIp.Count | src/main/java/feliksan4ik/databasemc/upnpfirewall/PortIPManager.java:369-371 | the sum of the set sizes is the number of rules over all keys |
| PortIp.CountAfterUpdate | src/main/java/feliksan4ik/databasemc/upnpfirewall/PortIPManager.java:369-371 | replacing one key's set changes the sum by the difference of the sizes |
| PortIp.AddedValid | src/main/java/feliksan4ik/databasemc/upnpfirewall/PortIPManager.java:41 | `computeIfAbsent(ip).add(rule)` keeps keys distinct, one rule per port, each under its own address |
| PortIp.AddedExistingIgnored | src/main/java/feliksan4ik/databasemc/upnpfirewall/PortIPManager.java:154 | adding a rule for an address and port already held leaves the table unchanged |
| PortIp.AddedNewRule | src/main/java/feliksan4ik/databasemc/upnpfirewall/PortIPManager.java:193 | adding a rule for a new port appends it to its address's set, touches no other address, and grows the count by one |
| PortIp.WithRulesRemoveValid | src/main/java/feliksan4ik/databasemc/upnpfirewall/PortIPManager.java:210-212 | removing rules from one address's set keeps the table valid and keeps the key, even when its set becomes empty |
| PortIp.WithoutIpValid | src/main/java/feliksan4ik/databasemc/upnpfirewall/PortIPManager.java:98-100 | removing a key keeps the table valid, and the key is gone |
| PortIp.FlattenMembers | src/main/java/feliksan4ik/databasemc/upnpfirewall/PortIPManager.java:299-300 | the nested iteration visits exactly the rules of all sets |
| PortIp.FlattenDistinct | src/main/java/feliksan4ik/databasemc/upnpfirewall/PortIPManager.java:299-300 | the nested iteration visits no (address, port) pair twice |
| PortIp.CountIsDistinctPairs | src/main/java/feliksan4ik/databasemc/upnpfirewall/PortIPManager.java:369-371 | the count is the number of distinct (address, port) pairs, whatever the order |
| PortIp.EntryRule | src/main/java/feliksan4ik/databasemc/upnpfirewall/PortIPManager.java:33-44 | an entry loads exactly when its address passes `isValidIP`, named by its key, with its address; its port is the stored number wrapped to 32 bits, 0 when missing |
| PortIp.LoadedTable | src/main/java/feliksan4ik/databasemc/upnpfirewall/PortIPManager.java:27-52 | the loaded table is valid |
| PortIp.SaveThenLoad | src/main/java/feliksan4ik/databasemc/upnpfirewall/PortIPManager.java:71-79 | saving a rule with a valid address and a Java `int` port under a new name, then loading, adds that rule to what was loaded before |
| PortIp.FirstApplying | src/main/java/feliksan4ik/databasemc/upnpfirewall/PortIPManager.java:376-381 | the first rule for the port whose protocol is ANY or the asked one, or none applies |
| PortIp.AllowedCharacterization | src/main/java/feliksan4ik/databasemc/upnpfirewall/PortIPManager.java:373-384 | access is allowed exactly when every rule of the address that applies to the port and protocol is OPEN, whatever the order |
| PortIp.NewBlockDenies | src/main/java/feliksan4ik/DataBaseMC/upnpfirewall/Upnpfirewall.java:1081-1092 | after a block rule is added for a port with no rule yet, access to that port is denied |
| PortIp.OpenOverBlockStillDenied | src/main/java/feliksan4ik/databasemc/upnpfirewall/PortIPManager.java:152-154 | opening a port that a block rule holds leaves the table unchanged, and access stays denied |
| PortIp.OpenPorts | src/main/java/feliksan4ik/databasemc/upnpfirewall/PortIPManager.java:315-321 | the ports closed are exactly those of the OPEN rules |
| PortIp.ManageCharacterization | src/main/java/feliksan4ik/databasemc/upnpfirewall/PortIPManager.java:121-130 | the pass ends early exactly when an OPEN rule has a port outside 0..65535; otherwise it re-opens exactly the OPEN rules whose port nothing listens on |
| PortIp.ManageCompletes | src/main/java/feliksan4ik/databasemc/upnpfirewall/PortIPManager.java:121-130 | with every port in 1..65535, the pass runs to the end |
| PortIp.ManageStaysAborted | src/main/java/feliksan4ik/DataBaseMC/upnpfirewall/Upnpfirewall.java:815-824 | once the pass has ended early, later rules change nothing |
| PortIp.NothingLeftOnPort | src/main/java/feliksan4ik/databasemc/upnpfirewall/PortIPManager.java:212-219 | after `removeIf` dropped a rule for the port, `removePortIPRule` finds no rule for that port |
| PortIp.OpenRequest | src/main/java/feliksan4ik/databasemc/upnpfirewall/PortIPManager.java:136-169 | accepted exactly when the address resolves, the port parses into 1..65535 and the protocol is TCP or UDP; the rule is OPEN, upper-cased, named `ip_port_<time>`; otherwise the reply names the first failing check |
| PortIp.BlockRequest | src/main/java/feliksan4ik/databasemc/upnpfirewall/PortIPManager.java:175-204 | as for open, with ANY also a protocol; the rule keeps the protocol as given, is BLOCK, named `block_<time>` |
| PortIp.PortIpManager.LoadPortIpRules | src/main/java/feliksan4ik/databasemc/upnpfirewall/PortIPManager.java:27-52 | the table becomes that loaded from the section; the section is unchanged |
| PortIp.PortIpManager.SavePortIpRule | src/main/java/feliksan4ik/databasemc/upnpfirewall/PortIPManager.java:71-79 | the rule's fields are set under its name; the table is unchanged |
| PortIp.PortIpManager.RemovePortIpRule | src/main/java/feliksan4ik/databasemc/upnpfirewall/PortIPManager.java:81-103 | with a rule for the port, that rule leaves the set, its entry is deleted, and an emptied key is removed; otherwise nothing changes |
| PortIp.PortIpManager.OpenPortForIp | src/main/java/feliksan4ik/databasemc/upnpfirewall/PortIPManager.java:136-169 | a rejected request changes nothing; an accepted rule is added to memory first, the port is opened with `<description> for IP <ip>`, and the rule is saved only when that succeeds |
| PortIp.PortIpManager.OpenPortForIpDefault | src/main/java/feliksan4ik/databasemc/upnpfirewall/PortIPManager.java:132-134 | the same, with the description `Custom port for IP` |
| PortIp.PortIpManager.BlockPortForIp | src/main/java/feliksan4ik/databasemc/upnpfirewall/PortIPManager.java:175-204 | a rejected request changes nothing; an accepted rule is added and saved, with no gateway call |
| PortIp.PortIpManager.BlockPortForIpDefault | src/main/java/feliksan4ik/databasemc/upnpfirewall/PortIPManager.java:171-173 | the same, with protocol ANY and reason `Blocked by administrator` |
| PortIp.PortIpManager.RemoveMatching | src/main/java/feliksan4ik/databasemc/upnpfirewall/PortIPManager.java:212-219 | `removeIf` on port and action, then the no-op `removePortIPRule`: reports a removal exactly when a rule matched; the key stays and the section is unchanged |
| PortIp.PortIpManager.ClosePortForIp | src/main/java/feliksan4ik/databasemc/upnpfirewall/PortIPManager.java:206-232 | replies invalid number, address not found, closed or not found; on close one gateway close request is sent if available; the OPEN rule leaves memory but the saved entry and the key stay |
| PortIp.PortIpManager.UnblockPortForIp | src/main/java/feliksan4ik/databasemc/upnpfirewall/PortIPManager.java:234-256 | the same for BLOCK rules, with no gateway call |
| PortIp.PortIpManager.CloseAllIpPorts | src/main/java/feliksan4ik/databasemc/upnpfirewall/PortIPManager.java:314-322 | one close request per OPEN rule, in iteration order, while the gateway is available; nothing changes |
| PortIp.PortIpManager.ClearAllPortsIp | src/main/java/feliksan4ik/databasemc/upnpfirewall/PortIPManager.java:296-312 | reports the count before clearing, closes every OPEN rule's port, and empties both the table and the section |
| PortIp.PortIpManager.ManageIpPorts | src/main/java/feliksan4ik/databasemc/upnpfirewall/PortIPManager.java:121-130 | the nested loop computes the pass `Manage` over all rules in iteration order |
| PortIp.PortIpManager.PortIpCount | src/main/java/feliksan4ik/databasemc/upnpfirewall/PortIPManager.java:369-371 | the count is the number of distinct (address, port) pairs held |
| PortIp.PortIpManager.IsPortAllowedForIp | src/main/java/feliksan4ik/databasemc/upnpfirewall/PortIPManager.java:373-384 | the loop's answer is `Allowed`: the first applying rule decides, and yes when none applies |
| Ports.EntryInfo | src/main/java/feliksan4ik/databasemc/upnpfirewall/PortManager.java:31-39 | an entry loads exactly when its port, as `getInt` reads it (0 when missing, a stored number wrapped to 32 bits), is in 1..65535, under that port, named by its key |
| Ports.WrappedPortLoads | src/main/java/feliksan4ik/databasemc/upnpfirewall/PortManager.java:31-36 | an entry holding 4294967297 loads as port 1 with the TCP and "Minecraft Server" defaults, and the `closePort` loop deletes it for port 1 |
| Ports.LoadedPorts | src/main/java/feliksan4ik/databasemc/upnpfirewall/PortManager.java:25-47 | every loaded key is a port in 1..65535 stored under its own number |
| Ports.LoadedKeys | src/main/java/feliksan4ik/databasemc/upnpfirewall/PortManager.java:29-44 | a port is loaded exactly when some entry names it within range |
| Ports.LoadLastWins | src/main/java/feliksan4ik/DataBaseMC/upnpfirewall/Upnpfirewall.java:485-507 | the last entry naming a port is the one loaded for it |
| Ports.SaveThenLoad | src/main/java/feliksan4ik/databasemc/upnpfirewall/PortManager.java:82-91 | a port saved under a new `port_<time>` key loads back with its port, protocol and description, named by that key |
| Ports.DeleteFirstWithPortAt | src/main/java/feliksan4ik/databasemc/upnpfirewall/PortManager.java:148-155 | the configuration loop of `closePort` deletes exactly the first entry for the port, if any |
| Ports.CloseLeavesLaterDuplicate | src/main/java/feliksan4ik/DataBaseMC/upnpfirewall/Upnpfirewall.java:601-640 | with two saved entries for a port, the port is still loaded after `closePort` |
| Ports.FirstPortIndex | src/main/java/feliksan4ik/databasemc/upnpfirewall/PortManager.java:149-155 | the index where that loop stops: no earlier entry names the port, and the entry there does |
| Ports.OpenRequest | src/main/java/feliksan4ik/databasemc/upnpfirewall/PortManager.java:64-81 | accepted exactly when the port parses into 1..65535 and the protocol is TCP or UDP; the port info is upper-cased and named `cmd_<time>`; otherwise the reply names the first failing check |
| Ports.ServerPortRequest | src/main/java/feliksan4ik/databasemc/upnpfirewall/PortManager.java:50-54 | the server port handed over as text is accepted exactly when it is in 1..65535, as TCP with the default description |
| Ports.PortManager.OpenPortCount | src/main/java/feliksan4ik/databasemc/upnpfirewall/PortManager.java:220-222 | the number of open ports, never more than 65535 |
| Ports.PortManager.LoadPortSettings | src/main/java/feliksan4ik/databasemc/upnpfirewall/PortManager.java:25-47 | the map becomes that loaded from the section; the section is unchanged |
| Ports.PortManager.OpenPort | src/main/java/feliksan4ik/databasemc/upnpfirewall/PortManager.java:64-107 | a rejected request changes nothing; an accepted port is opened, and only on success is it put in the map (over any earlier info) and saved under `port_<time>` |
| Ports.PortManager.ClosePort | src/main/java/feliksan4ik/databasemc/upnpfirewall/PortManager.java:137-174 | replies invalid number, not opened or closed; on close one gateway close request is sent if available, the first saved entry for the port is deleted, and the port leaves the map |
| Ports.PortManager.CloseAllPorts | src/main/java/feliksan4ik/databasemc/upnpfirewall/PortManager.java:176-184 | one close request for each port of the map, each once, while the gateway is available; the map is emptied and the section kept |
| Ports.PortManager.ManageServerPorts | src/main/java/feliksan4ik/databasemc/upnpfirewall/PortManager.java:49-62 | ends early, changing nothing, exactly for a server port outside 0..65535 when the setting (default true) is on; when the setting is on, the server port is in 1..65535 and nothing listens on it, the calls start with its one open request, and if the gateway or the bind probe succeeds the map holds it as TCP named `cmd_<stamp>` and a `port_<stamp>` entry is Put into the section; otherwise map and section are unchanged; the remaining calls re-open each port of the new map that nothing listens on, once |
| Ports.PortManager.ReopenPorts | src/main/java/feliksan4ik/databasemc/upnpfirewall/PortManager.java:57-61 | every port of the map that nothing listens on is requested again with its own protocol and description, exactly one request per such port while the gateway is available, and no other request is made |

## Left out

- `Main.java` and `onEnable`/`onDisable` in `Upnpfirewall.java`, which construct the managers, schedule the periodic passes and dispatch commands. They are callers, not part of this model. Commands are the manager methods, and the settings they read are parameters.
- The bodies of `SimpleUPnPManager` (`isUPnPAvailable` scans network interfaces; `openPort` and `closePort` only log and return true) and of the socket probes `isPortOpen`/`isPortAvailable`. They are I/O; their answers are the `Env` snapshot.
- `Env` is one snapshot per operation: the model does not capture the world changing between two probes within one command.
- `InetAddress.getByName` (DNS) is the `resolvable` parameter; `System.currentTimeMillis()` is the `stamp` parameters. So the two separate clock reads in `openPort` (`cmd_` and `port_`) are two independent stamps.
- `saveConfig()` and the files on disk; the model keeps the in-memory section only.
- All messages, translations, colours and logging, including `PortIPManager.onPlayerLogin`, which only logs the blocked ports of the address.
- `listRules`, `listPorts`, `listPortsIP`, `isEnabled` and the language commands: output only, or a plain getter.
- Hash iteration order: Java's order is replaced by a fixed but arbitrary order. Properties that hold in every order are proved for all orders; where the order decides, the model picks one order.
- Case folding covers ASCII only. Java's `equalsIgnoreCase` and `toUpperCase`/`toLowerCase` also map a few non-ASCII characters, and `Integer.parseInt` also accepts non-ASCII digits. `toUpperCase()` and `toLowerCase()` use the JVM's default locale; the model assumes a locale that folds the ASCII letters the plain English way. Under a Turkish locale, for example, `addRule` saves `WHITELIST` as `whıtelıst` (dotless ı), so the saved words stated for `JavaText.LowerOfEqualIgnoringCase` and `JavaText.UpperOfEqualIgnoringCase` do not hold there. Login decisions are unaffected, because `equalsIgnoreCase` still folds `ı` and `I` together.
- Section values are taken as integral numbers or absent. A port stored as text (which `getInt` reads as 0) or as a fraction (which `intValue()` truncates) is not modelled.
- The loaders' `catch (Exception e)` handlers: no modelled step throws there, except the NullPointerException from a missing address in the older `isValidIP`, and that is rejected either way.
