/**
 * The address-type classifier: after the network library accepts an address,
 * the node's chain name selects a case of a switch whose cases have no
 * `break`, so an address that matches none of its case's prefixes falls
 * through to the next case.
 */
module Address {
  import opened Records

  /** `s.startsWith(prefix)`. */
  predicate StartsWith(s: string, prefix: string) {
    |prefix| <= |s| && forall k :: 0 <= k < |prefix| ==> s[k] == prefix[k]
  }

  /** The 'regtest' case: the last one, after which the unreachable assertion fires. */
  function RegtestCase(addr: string): Result<AddressType> {
    if StartsWith(addr, "m") || StartsWith(addr, "n") then Ok(Legacy)
    else if StartsWith(addr, "2") then Ok(P2shSegwit)
    else if StartsWith(addr, "bcrt") then Ok(Bech32)
    else Err(AssertionError)
  }

  /** The 'test' case, falling through to 'regtest'. */
  function TestCase(addr: string): Result<AddressType> {
    if StartsWith(addr, "m") || StartsWith(addr, "n") then Ok(Legacy)
    else if StartsWith(addr, "2") then Ok(P2shSegwit)
    else if StartsWith(addr, "tb") then Ok(Bech32)
    else RegtestCase(addr)
  }

  /** The 'main' case, falling through to 'test'. */
  function MainCase(addr: string): Result<AddressType> {
    if StartsWith(addr, "1") then Ok(Legacy)
    else if StartsWith(addr, "3") then Ok(P2shSegwit)
    else if StartsWith(addr, "bc") then Ok(Bech32)
    else TestCase(addr)
  }

  /**
   * `Address.getAddressType`: an address the network rejects raises
   * InvalidAddressError with the address and the chain name; otherwise the
   * switch on the chain name decides, and a chain name with no case, or an
   * address no prefix of the reached cases matches, fires the assertion.
   */
  function GetAddressType(addr: string, net: Network): (r: Result<AddressType>)
    ensures !net.isValid(addr) <==> r == Err(InvalidAddressError(addr, net.name))
    ensures r.Err? ==> r.error == InvalidAddressError(addr, net.name) || r.error == AssertionError
    ensures net.name !in {"main", "test", "regtest"} && net.isValid(addr) ==> r == Err(AssertionError)
  {
    if !net.isValid(addr) then Err(InvalidAddressError(addr, net.name))
    else if net.name == "main" then MainCase(addr)
    else if net.name == "test" then TestCase(addr)
    else if net.name == "regtest" then RegtestCase(addr)
    else Err(AssertionError)
  }

  // ---------------------------------------------------------------------------
  // Reference definition: one table of prefix rules, scanned from the entry of
  // the chain's case to the end.
  // ---------------------------------------------------------------------------

  datatype Rule = Rule(prefix: string, kind: AddressType)

  /** The prefix tests of each case, in source order. */
  const MainRules: seq<Rule> := [Rule("1", Legacy), Rule("3", P2shSegwit), Rule("bc", Bech32)]
  const TestRules: seq<Rule> := [Rule("m", Legacy), Rule("n", Legacy), Rule("2", P2shSegwit), Rule("tb", Bech32)]
  const RegtestRules: seq<Rule> := [Rule("m", Legacy), Rule("n", Legacy), Rule("2", P2shSegwit), Rule("bcrt", Bech32)]

  /** The tests a case label reaches: its own and those of every case below it. */
  function CaseRules(chain: string): Option<seq<Rule>> {
    if chain == "main" then Some(MainRules + TestRules + RegtestRules)
    else if chain == "test" then Some(TestRules + RegtestRules)
    else if chain == "regtest" then Some(RegtestRules)
    else None
  }

  /** The kind of the first rule whose prefix the address has. */
  function FirstMatch(rules: seq<Rule>, addr: string): Result<AddressType> {
    if |rules| == 0 then Err(AssertionError)
    else if StartsWith(addr, rules[0].prefix) then Ok(rules[0].kind)
    else FirstMatch(rules[1..], addr)
  }

  /** Scanning a concatenation scans the first part, then the second. */
  lemma {:induction false} FirstMatchAppend(a: seq<Rule>, b: seq<Rule>, addr: string)
    ensures FirstMatch(a + b, addr) == if FirstMatch(a, addr).Ok? then FirstMatch(a, addr) else FirstMatch(b, addr)
  {
    if |a| > 0 {
      assert (a + b)[1..] == a[1..] + b;
      FirstMatchAppend(a[1..], b, addr);
    } else {
      assert a + b == b;
    }
  }

  /** Scanning a non-empty rule list tests its first rule, then scans the rest. */
  lemma FirstMatchCons(rule: Rule, rest: seq<Rule>, addr: string)
    ensures FirstMatch([rule] + rest, addr) ==
      if StartsWith(addr, rule.prefix) then Ok(rule.kind) else FirstMatch(rest, addr)
  {
    assert ([rule] + rest)[1..] == rest;
  }

  lemma RegtestRulesAreRegtestCase(addr: string)
    ensures FirstMatch(RegtestRules, addr) == RegtestCase(addr)
  {
    FirstMatchCons(Rule("bcrt", Bech32), [], addr);
    FirstMatchCons(Rule("2", P2shSegwit), [Rule("bcrt", Bech32)], addr);
    FirstMatchCons(Rule("n", Legacy), [Rule("2", P2shSegwit), Rule("bcrt", Bech32)], addr);
    FirstMatchCons(Rule("m", Legacy), [Rule("n", Legacy), Rule("2", P2shSegwit), Rule("bcrt", Bech32)], addr);
    assert RegtestRules == [Rule("m", Legacy)] + [Rule("n", Legacy), Rule("2", P2shSegwit), Rule("bcrt", Bech32)];
  }

  lemma TestRulesAreTestCase(addr: string)
    ensures FirstMatch(TestRules + RegtestRules, addr) == TestCase(addr)
  {
    FirstMatchCons(Rule("tb", Bech32), [], addr);
    FirstMatchCons(Rule("2", P2shSegwit), [Rule("tb", Bech32)], addr);
    FirstMatchCons(Rule("n", Legacy), [Rule("2", P2shSegwit), Rule("tb", Bech32)], addr);
    FirstMatchCons(Rule("m", Legacy), [Rule("n", Legacy), Rule("2", P2shSegwit), Rule("tb", Bech32)], addr);
    assert TestRules == [Rule("m", Legacy)] + [Rule("n", Legacy), Rule("2", P2shSegwit), Rule("tb", Bech32)];
    FirstMatchAppend(TestRules, RegtestRules, addr);
    RegtestRulesAreRegtestCase(addr);
  }

  lemma MainRulesAreMainCase(addr: string)
    ensures FirstMatch(MainRules + TestRules + RegtestRules, addr) == MainCase(addr)
  {
    FirstMatchCons(Rule("bc", Bech32), [], addr);
    FirstMatchCons(Rule("3", P2shSegwit), [Rule("bc", Bech32)], addr);
    FirstMatchCons(Rule("1", Legacy), [Rule("3", P2shSegwit), Rule("bc", Bech32)], addr);
    assert MainRules == [Rule("1", Legacy)] + [Rule("3", P2shSegwit), Rule("bc", Bech32)];
    assert MainRules + TestRules + RegtestRules == MainRules + (TestRules + RegtestRules);
    FirstMatchAppend(MainRules, TestRules + RegtestRules, addr);
    TestRulesAreTestCase(addr);
  }

  /**
   * The switch with fall-through classifies a valid address exactly as the
   * first-match scan of the tests its case label reaches.
   */
  lemma GetAddressTypeIsFirstMatch(addr: string, net: Network)
    requires net.isValid(addr)
    ensures CaseRules(net.name).None? ==> GetAddressType(addr, net) == Err(AssertionError)
    ensures CaseRules(net.name).Some? ==> GetAddressType(addr, net) == FirstMatch(CaseRules(net.name).value, addr)
  {
    MainRulesAreMainCase(addr);
    TestRulesAreTestCase(addr);
    RegtestRulesAreRegtestCase(addr);
  }

  /** On 'main', an address with none of the main prefixes is classified by the 'test' case. */
  lemma MainFallsThroughToTest(addr: string, net: Network)
    requires net.name == "main" && net.isValid(addr)
    requires !StartsWith(addr, "1") && !StartsWith(addr, "3") && !StartsWith(addr, "bc")
    ensures GetAddressType(addr, net) == TestCase(addr)
    ensures StartsWith(addr, "m") ==> GetAddressType(addr, net) == Ok(Legacy)
    ensures StartsWith(addr, "tb") ==> GetAddressType(addr, net) == Ok(Bech32)
  {
  }

  /** On 'test', a 'bcrt' address falls through to the 'regtest' case and is bech32. */
  lemma TestFallsThroughToRegtest(addr: string, net: Network)
    requires net.name == "test" && net.isValid(addr) && StartsWith(addr, "bcrt")
    ensures GetAddressType(addr, net) == Ok(Bech32)
  {
    assert addr[0] == 'b' && addr[1] == 'c';
    assert !StartsWith(addr, "m") && !StartsWith(addr, "n") && !StartsWith(addr, "2");
    assert !StartsWith(addr, "tb");
  }

  /** On 'regtest', a 'tb' address reaches the unreachable assertion. */
  lemma RegtestRejectsTestnetBech32(addr: string, net: Network)
    requires net.name == "regtest" && net.isValid(addr) && StartsWith(addr, "tb")
    ensures GetAddressType(addr, net) == Err(AssertionError)
  {
    assert addr[0] == 't';
    assert !StartsWith(addr, "m") && !StartsWith(addr, "n") && !StartsWith(addr, "2");
    assert !StartsWith(addr, "bcrt");
  }
}
