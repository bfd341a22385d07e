/** The rate-limited bridging loop of scripts/token-accumulator.ts and what holds over whole runs. */
module TokenAccumulator {
  import opened Digits
  import opened Transactions
  import opened Wrappers

  datatype Network = Sepolia | ArbitrumSepolia | OptimismSepolia | BaseSepolia | BscTestnet

  const MILLI_ETHER := 1_000_000_000_000_000
  const BRIDGE_AMOUNT := 30 * MILLI_ETHER

  /** What each of the rollups should have. */
  const TARGET := 10 * MILLI_ETHER

  const MIN_SEPOLIA_FOR_BRIDGE := 80 * MILLI_ETHER
  const COOLDOWN := 30 * 60 * 1000
  const HISTORY_LENGTH := 100
  const L2S := [ArbitrumSepolia, OptimismSepolia, BaseSepolia]

  type Balances = Network -> nat

  datatype Sample = Sample(timestamp: int, balances: Balances)

  /** The state file. Times are milliseconds. */
  datatype State = State(lastCheck: Option<int>, lastBridge: map<Network, int>, history: seq<Sample>)

  /** What one check meets: its start time, the balances (None when the check throws before it has
      them), the clock at each network's cooldown test, the fate of each bridge transaction, and
      whether writing the state file goes through. */
  datatype Check = Check(timestamp: int, balances: Option<Balances>, now: Network -> int,
                         sent: Network -> Fate, saved: bool)

  predicate CanBridge(lastBridge: map<Network, int>, n: Network, now: int) {
    n !in lastBridge || now - lastBridge[n] > COOLDOWN
  }

  // ---------- specification of one check ----------

  predicate Eligible(s: State, c: Check, n: Network) {
    && c.balances.Some?
    && c.balances.value(Sepolia) > MIN_SEPOLIA_FOR_BRIDGE
    && c.balances.value(n) < TARGET
    && CanBridge(s.lastBridge, n, c.now(n))
  }

  function Select(s: State, c: Check, networks: seq<Network>): (r: seq<Network>)
    ensures forall n :: n in r <==> n in networks && Eligible(s, c, n)
  {
    if networks == [] then [] else
      var rest := Select(s, c, networks[..|networks| - 1]);
      var n := networks[|networks| - 1];
      if Eligible(s, c, n) then rest + [n] else rest
  }

  /** The networks a check sets out to bridge to. */
  function Bridged(s: State, c: Check): seq<Network> {
    Select(s, c, L2S)
  }

  /** The part of a selection that a transaction went out for: everything before the first throw,
      and the throwing one too if it was only the waiting that threw. */
  function SentOf(c: Check, networks: seq<Network>): (r: seq<Network>)
    ensures r <= networks
  {
    if networks == [] || c.sent(networks[0]) == Rejected then []
    else if c.sent(networks[0]) == Unconfirmed then [networks[0]]
    else [networks[0]] + SentOf(c, networks[1..])
  }

  /** The networks a check does send a bridge transaction for. */
  function SentBy(s: State, c: Check): seq<Network> {
    SentOf(c, Bridged(s, c))
  }

  predicate AllConfirmed(c: Check, networks: seq<Network>) {
    forall n :: n in networks ==> c.sent(n) == Confirmed
  }

  predicate Completes(s: State, c: Check) {
    c.balances.Some? && AllConfirmed(c, Bridged(s, c)) && c.saved
  }

  lemma ConfirmedTail(c: Check, networks: seq<Network>, k: nat)
    requires 0 < k <= |networks|
    ensures AllConfirmed(c, networks[..k])
       <==> c.sent(networks[0]) == Confirmed && AllConfirmed(c, networks[1..][..k - 1])
  {
    assert networks[..k] == [networks[0]] + networks[1..][..k - 1];
  }

  /** A network is sent to exactly when everything before it was confirmed and it is not rejected. */
  lemma {:induction false} SentMeaning(c: Check, networks: seq<Network>, k: nat)
    requires k < |networks|
    ensures k < |SentOf(c, networks)| <==> AllConfirmed(c, networks[..k]) && c.sent(networks[k]) != Rejected
  {
    if k > 0 {
      SentMeaning(c, networks[1..], k - 1);
      ConfirmedTail(c, networks, k);
    }
  }

  lemma {:induction false} SentAll(c: Check, networks: seq<Network>)
    requires AllConfirmed(c, networks)
    ensures SentOf(c, networks) == networks
  {
    if networks != [] {
      SentAll(c, networks[1..]);
    }
  }

  lemma {:induction false} SentUntil(c: Check, done: seq<Network>, n: Network, rest: seq<Network>)
    requires AllConfirmed(c, done) && c.sent(n) != Confirmed
    ensures SentOf(c, done + ([n] + rest)) == done + if c.sent(n) == Unconfirmed then [n] else []
  {
    var all := done + ([n] + rest);
    if done != [] {
      SentUntil(c, done[1..], n, rest);
      assert all[0] == done[0] && all[1..] == done[1..] + ([n] + rest);
      assert done == [done[0]] + done[1..];
    }
  }

  function LastN(n: nat, s: seq<Sample>): seq<Sample> {
    if |s| <= n then s else s[|s| - n..]
  }

  function Recorded(lastBridge: map<Network, int>, networks: seq<Network>, timestamp: int): map<Network, int> {
    lastBridge + map n | n in networks :: timestamp
  }

  function After(s: State, c: Check): State
    requires c.balances.Some?
  {
    State(Some(c.timestamp), Recorded(s.lastBridge, Bridged(s, c), c.timestamp),
          LastN(HISTORY_LENGTH, s.history + [Sample(c.timestamp, c.balances.value)]))
  }

  /** The state file after a check: a check that throws anywhere saves nothing. */
  function Next(s: State, c: Check): State {
    if Completes(s, c) then After(s, c) else s
  }

  class Accumulator {
    var file: State

    constructor ()
      ensures file == State(None, map[], [])
    {
      file := State(None, map[], []);
    }

    /** One check: the new state file, whether it came to its end, and the networks it sent to. */
    method RunAccumulator(c: Check) returns (completed: bool, bridged: seq<Network>)
      modifies this
      ensures completed == Completes(old(file), c)
      ensures file == Next(old(file), c)
      ensures bridged == SentBy(old(file), c)
    {
      bridged := [];
      if c.balances.None? {
        SelectNone(file, c, L2S);
        return false, [];
      }
      var balances := c.balances.value;
      var lastBridge, history := file.lastBridge, file.history;
      history := history + [Sample(c.timestamp, balances)];
      if |history| > HISTORY_LENGTH {
        history := history[|history| - HISTORY_LENGTH..];
      }
      completed := true;
      if balances(Sepolia) > MIN_SEPOLIA_FOR_BRIDGE {
        completed, bridged, lastBridge := BridgeNeedy(file, c, L2S);
        if !completed { return; }
      } else {
        SelectNone(file, c, L2S);
        assert lastBridge == Recorded(lastBridge, [], c.timestamp);
      }
      if !c.saved { return false, bridged; }
      file := State(Some(c.timestamp), lastBridge, history);
    }
  }

  predicate Distinct(networks: seq<Network>) {
    forall i, j :: 0 <= i < j < |networks| ==> networks[i] != networks[j]
  }

  /** The first i networks have been dealt with and every transaction so far was confirmed. */
  ghost predicate DealtWith(s: State, c: Check, networks: seq<Network>, i: nat, bridged: seq<Network>,
                            lastBridge: map<Network, int>)
    requires i <= |networks|
  {
    && bridged == Select(s, c, networks[..i]) && AllConfirmed(c, bridged)
    && lastBridge == Recorded(s.lastBridge, bridged, c.timestamp)
  }

  /** The loop over the rollups; false stands for a bridge transaction that threw. */
  method BridgeNeedy(s: State, c: Check, networks: seq<Network>)
    returns (ok: bool, bridged: seq<Network>, lastBridge: map<Network, int>)
    requires c.balances.Some? && c.balances.value(Sepolia) > MIN_SEPOLIA_FOR_BRIDGE && Distinct(networks)
    ensures ok <==> AllConfirmed(c, Select(s, c, networks))
    ensures bridged == SentOf(c, Select(s, c, networks))
    ensures ok ==> bridged == Select(s, c, networks) && lastBridge == Recorded(s.lastBridge, bridged, c.timestamp)
  {
    ok, bridged, lastBridge := true, [], s.lastBridge;
    assert lastBridge == Recorded(s.lastBridge, [], c.timestamp);
    var i := 0;
    while i < |networks|
      invariant i <= |networks|
      invariant DealtWith(s, c, networks, i, bridged, lastBridge)
    {
      ok, bridged, lastBridge := BridgeIfNeedy(s, c, networks, i, bridged, lastBridge);
      if !ok { return; }
      i := i + 1;
    }
    assert networks[..i] == networks;
    SentAll(c, bridged);
    ok := true;
  }

  /** The body of the loop, for the network at i. */
  method BridgeIfNeedy(s: State, c: Check, networks: seq<Network>, i: nat, bridged: seq<Network>,
                       lastBridge: map<Network, int>)
    returns (ok: bool, bridged': seq<Network>, lastBridge': map<Network, int>)
    requires c.balances.Some? && c.balances.value(Sepolia) > MIN_SEPOLIA_FOR_BRIDGE && Distinct(networks)
    requires i < |networks| && DealtWith(s, c, networks, i, bridged, lastBridge)
    ensures ok ==> DealtWith(s, c, networks, i + 1, bridged', lastBridge')
    ensures !ok ==> !AllConfirmed(c, Select(s, c, networks)) && bridged' == SentOf(c, Select(s, c, networks))
  {
    var network := networks[i];
    ok, bridged', lastBridge' := true, bridged, lastBridge;
    SelectNext(s, c, networks, i);
    if c.balances.value(network) < TARGET && CanBridge(lastBridge, network, c.now(network)) {
      ok := c.sent(network) == Confirmed;
      bridged' := if c.sent(network) == Rejected then bridged else bridged + [network];
      if ok {
        RecordNext(s.lastBridge, bridged, network, c.timestamp);
        lastBridge' := lastBridge[network := c.timestamp];
      } else {
        SentUpTo(s, c, networks, i);
      }
    }
  }

  lemma RecordNext(lastBridge: map<Network, int>, networks: seq<Network>, n: Network, timestamp: int)
    ensures Recorded(lastBridge, networks + [n], timestamp) == Recorded(lastBridge, networks, timestamp)[n := timestamp]
  {
  }

  lemma SelectNext(s: State, c: Check, networks: seq<Network>, i: nat)
    requires i < |networks| && Distinct(networks)
    ensures networks[i] !in Select(s, c, networks[..i])
    ensures Select(s, c, networks[..i + 1])
         == Select(s, c, networks[..i]) + (if Eligible(s, c, networks[i]) then [networks[i]] else [])
  {
    assert networks[..i + 1][..i] == networks[..i];
  }

  lemma SentUpTo(s: State, c: Check, networks: seq<Network>, i: nat)
    requires i < |networks| && Eligible(s, c, networks[i]) && Distinct(networks)
    requires AllConfirmed(c, Select(s, c, networks[..i])) && c.sent(networks[i]) != Confirmed
    ensures networks[i] in Select(s, c, networks)
    ensures SentOf(c, Select(s, c, networks))
         == Select(s, c, networks[..i]) + if c.sent(networks[i]) == Unconfirmed then [networks[i]] else []
  {
    SelectNext(s, c, networks, i);
    SelectGrows(s, c, networks, i + 1, |networks|);
    assert networks[..|networks|] == networks;
    SentPrefix(c, Select(s, c, networks[..i]), networks[i], Select(s, c, networks));
  }

  lemma SentPrefix(c: Check, done: seq<Network>, n: Network, all: seq<Network>)
    requires AllConfirmed(c, done) && c.sent(n) != Confirmed && done + [n] <= all
    ensures n in all && SentOf(c, all) == done + if c.sent(n) == Unconfirmed then [n] else []
  {
    assert all == done + ([n] + all[|done| + 1..]);
    assert all[|done|] == n;
    SentUntil(c, done, n, all[|done| + 1..]);
  }

  lemma {:induction false} SelectGrows(s: State, c: Check, networks: seq<Network>, i: nat, j: nat)
    requires i <= j <= |networks| && Distinct(networks)
    ensures Select(s, c, networks[..i]) <= Select(s, c, networks[..j])
    decreases j - i
  {
    if i < j {
      SelectGrows(s, c, networks, i, j - 1);
      SelectNext(s, c, networks, j - 1);
    }
  }

  lemma {:induction false} SelectNone(s: State, c: Check, networks: seq<Network>)
    requires forall n :: n in networks ==> !Eligible(s, c, n)
    ensures Select(s, c, networks) == []
  {
    if networks != [] {
      SelectNone(s, c, networks[..|networks| - 1]);
    }
  }

  // ---------- which rollups a check sends to ----------

  /** A rollup with less than 0.01 ETH while Sepolia has more than 0.08, not bridged to for 30 minutes. */
  predicate Needy(s: State, c: Check, n: Network) {
    && n in {ArbitrumSepolia, OptimismSepolia, BaseSepolia}
    && c.balances.Some?
    && c.balances.value(Sepolia) > 80_000_000_000_000_000 && c.balances.value(n) < 10_000_000_000_000_000
    && (n in s.lastBridge ==> c.now(n) - s.lastBridge[n] > 1_800_000)
  }

  /** The rollups are dealt with in the order Arbitrum, Optimism, Base. */
  predicate Before(m: Network, n: Network) {
    (m == ArbitrumSepolia && n in {OptimismSepolia, BaseSepolia}) || (m == OptimismSepolia && n == BaseSepolia)
  }

  /** A check sends to exactly those needy rollups whose transaction is not rejected and before which
      every needy rollup's transaction is confirmed. */
  lemma SentExactly(s: State, c: Check, n: Network)
    ensures n in SentBy(s, c)
       <==> (&& Needy(s, c, n) && c.sent(n) != Rejected
             && forall m :: Before(m, n) && Needy(s, c, m) ==> c.sent(m) == Confirmed)
  {
    assert L2S[0] == ArbitrumSepolia && L2S[1] == OptimismSepolia && L2S[2] == BaseSepolia;
    if n in L2S {
      var i :| 0 <= i < |L2S| && L2S[i] == n;
      SentAt(s, c, L2S, i);
      assert forall m :: Before(m, n) <==> m in L2S[..i];
    }
  }

  /** A check comes to its end exactly when it gets the balances, every needy rollup's transaction is
      confirmed, and its state is saved. */
  lemma CompletesExactly(s: State, c: Check)
    ensures Completes(s, c) <==>
            c.balances.Some? && c.saved && forall n :: Needy(s, c, n) ==> c.sent(n) == Confirmed
  {
    assert forall n :: Needy(s, c, n) <==> n in L2S && Eligible(s, c, n) by {
      assert L2S[0] == ArbitrumSepolia && L2S[1] == OptimismSepolia && L2S[2] == BaseSepolia;
    }
  }

  lemma SentAt(s: State, c: Check, networks: seq<Network>, i: nat)
    requires i < |networks| && Distinct(networks)
    ensures networks[i] in SentOf(c, Select(s, c, networks))
       <==> (&& Eligible(s, c, networks[i]) && c.sent(networks[i]) != Rejected
             && forall m :: m in networks[..i] && Eligible(s, c, m) ==> c.sent(m) == Confirmed)
  {
    var all, done, n := Select(s, c, networks), Select(s, c, networks[..i]), networks[i];
    if Eligible(s, c, n) {
      SelectedAt(s, c, networks, i);
      SentMeaning(c, all, |done|);
      InPrefix(all, SentOf(c, all), |done|);
      SelectConfirmed(s, c, networks[..i]);
    }
  }

  lemma SelectedAt(s: State, c: Check, networks: seq<Network>, i: nat)
    requires i < |networks| && Distinct(networks) && Eligible(s, c, networks[i])
    ensures var all, done := Select(s, c, networks), Select(s, c, networks[..i]);
            |done| < |all| && all[..|done|] == done && all[|done|] == networks[i] && networks[i] !in done
  {
    SelectNext(s, c, networks, i);
    SelectGrows(s, c, networks, i + 1, |networks|);
    assert networks[..|networks|] == networks;
  }

  lemma SelectConfirmed(s: State, c: Check, networks: seq<Network>)
    ensures AllConfirmed(c, Select(s, c, networks))
       <==> forall m :: m in networks && Eligible(s, c, m) ==> c.sent(m) == Confirmed
  {
  }

  lemma InPrefix(all: seq<Network>, sent: seq<Network>, k: nat)
    requires sent <= all && k < |all| && all[k] !in all[..k]
    ensures all[k] in sent <==> k < |sent|
  {
    if |sent| <= k {
      assert sent == all[..k][..|sent|];
    }
  }

  // ---------- runs of checks that do not overlap ----------

  function Final(s: State, checks: seq<Check>): State
    decreases |checks|
  {
    if checks == [] then s else Final(Next(s, checks[0]), checks[1..])
  }

  /** Every check of the run that sends to n comes to its end. */
  ghost predicate NoLostBridge(s: State, checks: seq<Check>, n: Network)
    decreases |checks|
  {
    || checks == []
    || ((Completes(s, checks[0]) || n !in SentBy(s, checks[0])) && NoLostBridge(Next(s, checks[0]), checks[1..], n))
  }

  /** At most delay passes between the start of a check and its cooldown test for n. */
  predicate PromptCheck(c: Check, n: Network, delay: nat) {
    0 <= c.now(n) - c.timestamp <= delay
  }

  ghost predicate Prompt(checks: seq<Check>, n: Network, delay: nat) {
    forall i :: 0 <= i < |checks| ==> PromptCheck(checks[i], n, delay)
  }

  /** When a run sends to a network: the clock at the cooldown tests that passed. */
  function BridgeTimes(s: State, checks: seq<Check>, n: Network): seq<int>
    decreases |checks|
  {
    if checks == [] then [] else
      (if n in SentBy(s, checks[0]) then [checks[0].now(n)] else []) + BridgeTimes(Next(s, checks[0]), checks[1..], n)
  }

  ghost predicate Spaced(times: seq<int>, gap: int) {
    forall i :: 0 <= i < |times| - 1 ==> times[i + 1] - times[i] > gap
  }

  lemma SpacedCons(t: int, rest: seq<int>, gap: int)
    requires Spaced(rest, gap) && (rest != [] ==> rest[0] - t > gap)
    ensures Spaced([t] + rest, gap)
  {
    var times := [t] + rest;
    forall i | 0 <= i < |times| - 1 ensures times[i + 1] - times[i] > gap {
      if i > 0 { assert rest[i - 1 + 1] - rest[i - 1] > gap; }
    }
  }

  lemma {:induction false} BridgesAreSpaced(s: State, checks: seq<Check>, n: Network, delay: nat)
    requires NoLostBridge(s, checks, n) && Prompt(checks, n, delay)
    ensures Spaced(BridgeTimes(s, checks, n), COOLDOWN - delay)
    ensures BridgeTimes(s, checks, n) != [] && n in s.lastBridge ==>
              BridgeTimes(s, checks, n)[0] - s.lastBridge[n] > COOLDOWN
    decreases |checks|
  {
    if checks != [] {
      var c, s' := checks[0], Next(s, checks[0]);
      assert PromptCheck(checks[0], n, delay);
      assert forall i :: 0 <= i < |checks[1..]| ==> checks[1..][i] == checks[i + 1];
      BridgesAreSpaced(s', checks[1..], n, delay);
      LastBridgeNext(s, c, n);
      if n in SentBy(s, c) {
        SpacedCons(c.now(n), BridgeTimes(s', checks[1..], n), COOLDOWN - delay);
      }
    }
  }

  /** A network is sent to only when it is eligible; a completed check that sends to it records its own
      start for it, and otherwise what is recorded stays. */
  lemma LastBridgeNext(s: State, c: Check, n: Network)
    ensures n in SentBy(s, c) ==> Eligible(s, c, n)
    ensures n in SentBy(s, c) && Completes(s, c) ==>
              n in Next(s, c).lastBridge && Next(s, c).lastBridge[n] == c.timestamp
    ensures n !in SentBy(s, c) && n in s.lastBridge ==>
              n in Next(s, c).lastBridge && Next(s, c).lastBridge[n] == s.lastBridge[n]
  {
    if Completes(s, c) {
      SentAll(c, Bridged(s, c));
    }
  }

  // ---------- exactly when the cooldown is kept ----------

  /** In state s no later check can send to n within the cooldown of a bridge at the given time. */
  ghost predicate Honoured(s: State, n: Network, bridgedAt: int, delay: nat) {
    forall c :: n in SentBy(s, c) && c.now(n) > bridgedAt ==> c.now(n) - bridgedAt > COOLDOWN - delay
  }

  /** A check that throws after sending to n saves nothing, so n can be sent to again one millisecond later. */
  lemma AbortedCheckForgetsBridge(s: State, c: Check, n: Network) returns (c': Check)
    requires n in SentBy(s, c) && !Completes(s, c)
    ensures n in SentBy(Next(s, c), c')
    ensures Completes(Next(s, c), c')
    ensures c'.now(n) == c.now(n) + 1
    ensures c'.timestamp == c.timestamp + 1
  {
    c' := Check(c.timestamp + 1, c.balances, m => c.now(m) + 1, _ => Confirmed, true);
    LastBridgeNext(s, c, n);
    assert n in L2S && Eligible(s, c', n);
    SentAll(c', Bridged(s, c'));
  }

  /** The cooldown of a bridge is kept against every possible next check exactly when its own check completes. */
  lemma CooldownExactly(s: State, c: Check, n: Network, delay: nat)
    requires n in SentBy(s, c) && PromptCheck(c, n, delay) && delay < COOLDOWN
    ensures Completes(s, c) <==> Honoured(Next(s, c), n, c.now(n), delay)
  {
    LastBridgeNext(s, c, n);
    if Completes(s, c) {
      forall c' | n in SentBy(Next(s, c), c') ensures c'.now(n) - c.now(n) > COOLDOWN - delay {
        LastBridgeNext(Next(s, c), c', n);
      }
    } else {
      var c' := AbortedCheckForgetsBridge(s, c, n);
      assert n in SentBy(Next(s, c), c');
    }
  }

  /** Along a run, after each bridge to n, no possible next check can break its cooldown. */
  ghost predicate CooldownKept(s: State, checks: seq<Check>, n: Network, delay: nat)
    decreases |checks|
  {
    || checks == []
    || (&& (n in SentBy(s, checks[0]) ==> Honoured(Next(s, checks[0]), n, checks[0].now(n), delay))
        && CooldownKept(Next(s, checks[0]), checks[1..], n, delay))
  }

  /** The runs that keep the cooldown are exactly those in which no check throws after sending to n. */
  lemma {:induction false} CooldownKeptExactly(s: State, checks: seq<Check>, n: Network, delay: nat)
    requires Prompt(checks, n, delay) && delay < COOLDOWN
    ensures CooldownKept(s, checks, n, delay) <==> NoLostBridge(s, checks, n)
    decreases |checks|
  {
    if checks != [] {
      assert PromptCheck(checks[0], n, delay);
      assert forall i :: 0 <= i < |checks[1..]| ==> checks[1..][i] == checks[i + 1];
      CooldownKeptExactly(Next(s, checks[0]), checks[1..], n, delay);
      if n in SentBy(s, checks[0]) {
        CooldownExactly(s, checks[0], n, delay);
      }
    }
  }

  /** Such a check exists: the first rollup is sent to, then the second transaction is rejected. */
  lemma ChecksCanLoseBridges() returns (s: State, c: Check)
    ensures ArbitrumSepolia in SentBy(s, c)
    ensures !Completes(s, c)
    ensures PromptCheck(c, ArbitrumSepolia, 0)
  {
    s := State(None, map[], []);
    var balances := Some((n: Network) => if n == Sepolia then 100 * MILLI_ETHER else 0);
    c := Check(0, balances, (_: Network) => 0,
               (n: Network) => if n == ArbitrumSepolia then Confirmed else Rejected, true);
    SelectNext(s, c, L2S, 0);
    SelectNext(s, c, L2S, 1);
    SentUpTo(s, c, L2S, 1);
    assert L2S[..0] == [] && L2S[1] == OptimismSepolia;
  }

  // ---------- how much a window can hold ----------

  function CountWithin(times: seq<int>, from: int, to: int): nat {
    if times == [] then 0 else (if from <= times[0] <= to then 1 else 0) + CountWithin(times[1..], from, to)
  }

  lemma {:induction false} SpacedCount(times: seq<int>, gap: int, from: int, to: int)
    requires gap > 0 && Spaced(times, gap)
    ensures CountWithin(times, from, to) > 0 ==> (CountWithin(times, from, to) - 1) * gap <= to - from
  {
    if times != [] {
      var t, rest := times[0], times[1..];
      assert Spaced(rest, gap) by {
        forall i | 0 <= i < |rest| - 1 ensures rest[i + 1] - rest[i] > gap {
          assert times[i + 1 + 1] - times[i + 1] > gap;
        }
      }
      if from <= t <= to {
        AllAfter(times, gap);
        CountFrom(rest, from, t + gap, to);
        SpacedCount(rest, gap, t + gap, to);
        var c := CountWithin(rest, t + gap, to);
        assert c * gap == (c - 1) * gap + gap;
      } else {
        SpacedCount(rest, gap, from, to);
      }
    }
  }

  lemma {:induction false} AllAfter(times: seq<int>, gap: int)
    requires gap > 0 && times != [] && Spaced(times, gap)
    ensures forall i :: 1 <= i < |times| ==> times[i] > times[0] + gap
  {
    if |times| > 1 {
      var init := times[..|times| - 1];
      assert Spaced(init, gap) by {
        forall i | 0 <= i < |init| - 1 ensures init[i + 1] - init[i] > gap {
          assert times[i + 1] - times[i] > gap;
        }
      }
      AllAfter(init, gap);
      assert times[|times| - 2 + 1] - times[|times| - 2] > gap;
      assert forall i :: 1 <= i < |init| ==> times[i] == init[i];
    }
  }

  lemma {:induction false} CountFrom(times: seq<int>, from: int, from': int, to: int)
    requires from <= from' && forall i :: 0 <= i < |times| ==> times[i] >= from'
    ensures CountWithin(times, from, to) == CountWithin(times, from', to)
  {
    if times != [] {
      CountFrom(times[1..], from, from', to);
    }
  }

  /** One more than the number of whole gaps in the width. */
  lemma WholeGaps(width: nat, gap: int) returns (k: nat)
    requires gap > 0
    ensures k == width / gap + 1 && k * gap > width
  {
    k := width / gap + 1;
    assert width == width / gap * gap + width % gap;
    assert k * gap == width / gap * gap + gap;
  }

  lemma FewerThanGaps(count: nat, width: nat, gap: int, k: nat)
    requires gap > 0 && k * gap > width && (count > 0 ==> (count - 1) * gap <= width)
    ensures count <= k
  {
    if count > k {
      MulMonotone(k, count - 1, gap);
    }
  }

  /** Any window of length width holds at most width / (30 min - delay) + 1 bridges per network. */
  lemma BridgesPerWindow(s: State, checks: seq<Check>, n: Network, delay: nat, from: int, width: nat)
    requires NoLostBridge(s, checks, n) && Prompt(checks, n, delay) && delay < COOLDOWN
    ensures CountWithin(BridgeTimes(s, checks, n), from, from + width) <= width / (COOLDOWN - delay) + 1
  {
    var times, gap := BridgeTimes(s, checks, n), COOLDOWN - delay;
    var k := WholeGaps(width, gap);
    BridgesAreSpaced(s, checks, n, delay);
    SpacedCount(times, gap, from, from + width);
    FewerThanGaps(CountWithin(times, from, from + width), width, gap, k);
  }

  function Spent(s: State, checks: seq<Check>, networks: seq<Network>, from: int, to: int): nat {
    if networks == [] then 0
    else
      var count := CountWithin(BridgeTimes(s, checks, networks[0]), from, to);
      BRIDGE_AMOUNT * count + Spent(s, checks, networks[1..], from, to)
  }

  lemma SpentCons(s: State, checks: seq<Check>, n: Network, rest: seq<Network>, from: int, to: int)
    ensures Spent(s, checks, [n] + rest, from, to)
         == BRIDGE_AMOUNT * CountWithin(BridgeTimes(s, checks, n), from, to) + Spent(s, checks, rest, from, to)
  {
    assert ([n] + rest)[1..] == rest;
  }

  lemma SpentOnThree(s: State, checks: seq<Check>, a: Network, b: Network, d: Network, from: int, to: int)
    ensures Spent(s, checks, [a, b, d], from, to)
         == BRIDGE_AMOUNT * CountWithin(BridgeTimes(s, checks, a), from, to)
          + BRIDGE_AMOUNT * CountWithin(BridgeTimes(s, checks, b), from, to)
          + BRIDGE_AMOUNT * CountWithin(BridgeTimes(s, checks, d), from, to)
  {
    assert [d] == [d] + [] && [b, d] == [b] + [d] && [a, b, d] == [a] + [b, d];
    SpentCons(s, checks, d, [], from, to);
    SpentCons(s, checks, b, [d], from, to);
    SpentCons(s, checks, a, [b, d], from, to);
  }

  /** Each bridge sends 0.03 ETH. */
  lemma SpentIsBridges(s: State, checks: seq<Check>, from: int, to: int)
    ensures Spent(s, checks, L2S, from, to)
         == 30_000_000_000_000_000 * (CountWithin(BridgeTimes(s, checks, ArbitrumSepolia), from, to)
                                    + CountWithin(BridgeTimes(s, checks, OptimismSepolia), from, to)
                                    + CountWithin(BridgeTimes(s, checks, BaseSepolia), from, to))
  {
    assert L2S == [ArbitrumSepolia, OptimismSepolia, BaseSepolia];
    SpentOnThree(s, checks, ArbitrumSepolia, OptimismSepolia, BaseSepolia, from, to);
  }

  /** ... so at most 0.09 ETH times that leaves the wallet for the bridges in it. */
  lemma SpentPerWindow(s: State, checks: seq<Check>, delay: nat, from: int, width: nat)
    requires forall n :: n in L2S ==> NoLostBridge(s, checks, n) && Prompt(checks, n, delay)
    requires delay < COOLDOWN
    ensures Spent(s, checks, L2S, from, from + width) <= 90 * MILLI_ETHER * (width / (COOLDOWN - delay) + 1)
  {
    var k := WholeGaps(width, COOLDOWN - delay);
    forall n | n in L2S ensures CountWithin(BridgeTimes(s, checks, n), from, from + width) <= k {
      BridgesPerWindow(s, checks, n, delay, from, width);
    }
    SpentAtMost(s, checks, from, from + width, k);
  }

  lemma SpentAtMost(s: State, checks: seq<Check>, from: int, to: int, k: nat)
    requires forall n :: n in L2S ==> CountWithin(BridgeTimes(s, checks, n), from, to) <= k
    ensures Spent(s, checks, L2S, from, to) <= 90 * MILLI_ETHER * k
  {
    var a, b, d := L2S[0], L2S[1], L2S[2];
    assert a in L2S && b in L2S && d in L2S;
    assert L2S == [a, b, d];
    SpentOnThree(s, checks, a, b, d, from, to);
    SumAtMost(CountWithin(BridgeTimes(s, checks, a), from, to), CountWithin(BridgeTimes(s, checks, b), from, to),
              CountWithin(BridgeTimes(s, checks, d), from, to), k);
  }

  lemma SumAtMost(a: nat, b: nat, d: nat, k: nat)
    requires a <= k && b <= k && d <= k
    ensures BRIDGE_AMOUNT * a + BRIDGE_AMOUNT * b + BRIDGE_AMOUNT * d <= 90 * MILLI_ETHER * k
  {
  }

  // ---------- history ----------

  /** The balance samples of the checks that complete. */
  function Samples(s: State, checks: seq<Check>): seq<Sample>
    decreases |checks|
  {
    if checks == [] then [] else
      (if Completes(s, checks[0]) then [Sample(checks[0].timestamp, checks[0].balances.value)] else [])
      + Samples(Next(s, checks[0]), checks[1..])
  }

  /** Over any run the saved history is the last at most 100 samples of completed checks, in order,
      and untouched if no check completes. */
  lemma {:induction false} HistoryIsLastSamples(s: State, checks: seq<Check>)
    ensures Samples(s, checks) == [] ==> Final(s, checks).history == s.history
    ensures var all := s.history + Samples(s, checks);
            Samples(s, checks) != [] ==> Final(s, checks).history == all[if |all| <= 100 then 0 else |all| - 100..]
    decreases |checks|
  {
    if checks != [] {
      var s', rest := Next(s, checks[0]), Samples(Next(s, checks[0]), checks[1..]);
      HistoryIsLastSamples(s', checks[1..]);
      if Completes(s, checks[0]) {
        LastNStep(s.history, Sample(checks[0].timestamp, checks[0].balances.value), rest);
      }
    }
  }

  /** The recorded time is that of the last check that completes. */
  lemma {:induction false} LastCheckIsRecorded(s: State, checks: seq<Check>)
    ensures Samples(s, checks) == [] ==> Final(s, checks).lastCheck == s.lastCheck
    ensures var samples := Samples(s, checks);
            samples != [] ==> Final(s, checks).lastCheck == Some(samples[|samples| - 1].timestamp)
    decreases |checks|
  {
    if checks != [] {
      LastCheckIsRecorded(Next(s, checks[0]), checks[1..]);
    }
  }

  lemma LastNStep(history: seq<Sample>, first: Sample, rest: seq<Sample>)
    ensures LastN(HISTORY_LENGTH, history + ([first] + rest))
         == var h := LastN(HISTORY_LENGTH, history + [first]); if rest == [] then h else LastN(HISTORY_LENGTH, h + rest)
  {
    assert history + ([first] + rest) == (history + [first]) + rest;
    LastNAppend(history + [first], rest);
    assert rest == [] ==> (history + [first]) + rest == history + [first];
  }

  lemma LastNAppend(a: seq<Sample>, b: seq<Sample>)
    ensures LastN(HISTORY_LENGTH, LastN(HISTORY_LENGTH, a) + b) == LastN(HISTORY_LENGTH, a + b)
  {
  }
}
