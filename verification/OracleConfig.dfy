/** The reconcile loops of scripts/configure-oracle-attesters.ts: read an on-chain entry, compare,
    write only if different. A read or a transaction may throw, which ends the pass; the Calls value
    of a pass says what becomes of each, and every theorem is for all such values. */
module OracleConfig {
  import opened Digits
  import opened Text
  import opened Transactions
  import opened Wrappers

  /** The entries of the oracle contracts' mappings. */
  datatype Key =
    | Attester(address: string)
    | DomainId(chainId: nat)
    | TrustedSender(domain: nat)
    | SourceChain(id: nat)
    | OutputSettler(ofChain: nat)

  /** Word is the lower-case text of a hex word: values on chain have no letter case. */
  datatype Value = Flag(b: bool) | Number(n: nat) | Word(text: string)

  type Entries = map<Key, Value>

  datatype Want = Want(key: Key, value: Value)

  datatype ChainDeployment = ChainDeployment(chainId: nat, outputSettler: Option<string>)

  function Default(key: Key): Value {
    match key
    case Attester(_) => Flag(false)
    case SourceChain(_) => Flag(false)
    case DomainId(_) => Number(0)
    case TrustedSender(_) => Word("0x" + Repeat('0', 64))
    case OutputSettler(_) => Word("0x" + Repeat('0', 40))
  }

  /** What a getter returns: the entry, or the default of its type. */
  function Read(m: Entries, key: Key): Value {
    if key in m then m[key] else Default(key)
  }

  // ---------- specification of a pass ----------

  /** What becomes of the i-th read, and of the transaction sent after it if one is. */
  datatype Calls = Calls(read: nat -> bool, fate: nat -> Fate)

  /** seen counts the entries looked at so far, effective the transactions that took effect. */
  datatype Progress = Progress(entries: Entries, seen: nat, effective: nat, ok: bool)

  function Step(p: Progress, w: Want, calls: Calls): Progress {
    if !p.ok then p
    else if !calls.read(p.seen) then p.(ok := false)
    else if Read(p.entries, w.key) == w.value then p.(seen := p.seen + 1)
    else
      match calls.fate(p.seen)
      case Confirmed => Progress(p.entries[w.key := w.value], p.seen + 1, p.effective + 1, true)
      case Rejected => p.(seen := p.seen + 1, ok := false)
      case Unconfirmed => Progress(p.entries[w.key := w.value], p.seen + 1, p.effective + 1, false)
  }

  function Steps(p: Progress, wants: seq<Want>, calls: Calls): Progress {
    if wants == [] then p
    else Step(Steps(p, wants[..|wants| - 1], calls), wants[|wants| - 1], calls)
  }

  /** A whole pass over the wanted entries. */
  function Pass(m: Entries, wants: seq<Want>, calls: Calls): Progress {
    Steps(Progress(m, 0, 0, true), wants, calls)
  }

  predicate Consistent(wants: seq<Want>) {
    forall i, j :: 0 <= i < |wants| && 0 <= j < |wants| && wants[i].key == wants[j].key ==>
      wants[i].value == wants[j].value
  }

  /** The wanted entries that do not have their wanted value. */
  function Wrong(m: Entries, wants: seq<Want>): set<Key> {
    set i | 0 <= i < |wants| && Read(m, wants[i].key) != wants[i].value :: wants[i].key
  }

  lemma WrongSnoc(m: Entries, wants: seq<Want>)
    requires wants != []
    ensures var w := wants[|wants| - 1];
            Wrong(m, wants) == Wrong(m, wants[..|wants| - 1]) + (if Read(m, w.key) != w.value then {w.key} else {})
  {
    var init := wants[..|wants| - 1];
    forall k | k in Wrong(m, init) ensures k in Wrong(m, wants) {
      var i :| 0 <= i < |init| && Read(m, init[i].key) != init[i].value && k == init[i].key;
      assert wants[i] == init[i];
    }
    forall k | k in Wrong(m, wants)
      ensures k in Wrong(m, init)
                || (Read(m, wants[|wants| - 1].key) != wants[|wants| - 1].value && k == wants[|wants| - 1].key)
    {
      var i :| 0 <= i < |wants| && Read(m, wants[i].key) != wants[i].value && k == wants[i].key;
      if i < |init| { assert init[i] == wants[i]; }
    }
  }

  lemma RightUnlessWrong(m: Entries, wants: seq<Want>, i: nat)
    requires i < |wants|
    ensures Read(m, wants[i].key) != wants[i].value ==> wants[i].key in Wrong(m, wants)
  {
  }

  /** A key wanted before, with the same value, adds no wrong entry. */
  lemma WrongKnownKey(m: Entries, wants: seq<Want>, i: nat)
    requires Consistent(wants) && i < |wants| - 1 && wants[i].key == wants[|wants| - 1].key
    ensures Wrong(m, wants) == Wrong(m, wants[..|wants| - 1])
  {
    WrongSnoc(m, wants);
    assert wants[..|wants| - 1][i] == wants[i];
    RightUnlessWrong(m, wants[..|wants| - 1], i);
  }

  /** Every transaction that took effect corrected exactly one wrong entry, and nothing else changed;
      before and after are the sets of wrong entries. */
  ghost predicate Corrects(m: Entries, m': Entries, effective: nat, before: set<Key>, after: set<Key>) {
    && after <= before
    && effective == |before| - |after|
    && (forall k :: k !in before || k in after ==> (k in m' <==> k in m) && Read(m', k) == Read(m, k))
  }

  ghost predicate PassOutcome(m: Entries, p: Progress, wants: seq<Want>) {
    && Corrects(m, p.entries, p.effective, Wrong(m, wants), Wrong(p.entries, wants))
    && (p.ok ==> Wrong(p.entries, wants) == {})
  }

  /** What a pass does to a consistent list of wanted entries, wherever it ends: every transaction
      that takes effect corrects one wrong entry and nothing else changes; when the pass completes,
      nothing is wrong any more. */
  lemma {:induction false} PassIsMinimal(m: Entries, wants: seq<Want>, calls: Calls)
    requires Consistent(wants)
    ensures PassOutcome(m, Pass(m, wants, calls), wants)
  {
    if wants == [] {
      assert Wrong(m, wants) == {};
    } else {
      var init, w := wants[..|wants| - 1], wants[|wants| - 1];
      PassIsMinimal(m, init, calls);
      var p0 := Pass(m, init, calls);
      if i :| 0 <= i < |wants| - 1 && wants[i].key == w.key {
        KnownKey(m, p0, wants, i, calls);
      } else {
        NewKey(m, p0, wants, calls);
      }
    }
  }

  lemma KnownKey(m: Entries, p0: Progress, wants: seq<Want>, i: nat, calls: Calls)
    requires Consistent(wants) && i < |wants| - 1 && wants[i].key == wants[|wants| - 1].key
    requires PassOutcome(m, p0, wants[..|wants| - 1])
    ensures PassOutcome(m, Step(p0, wants[|wants| - 1], calls), wants)
  {
    WrongKnownKey(m, wants, i);
    WrongKnownKey(p0.entries, wants, i);
    RightUnlessWrong(p0.entries, wants, i);
  }

  lemma StepFrame(p: Progress, w: Want, wants: seq<Want>, calls: Calls)
    requires forall i :: 0 <= i < |wants| ==> wants[i].key != w.key
    ensures Wrong(Step(p, w, calls).entries, wants) == Wrong(p.entries, wants)
  {
  }

  /** A key wanted for the first time still has its initial value. */
  lemma NewKey(m: Entries, p0: Progress, wants: seq<Want>, calls: Calls)
    requires wants != [] && forall i :: 0 <= i < |wants| - 1 ==> wants[i].key != wants[|wants| - 1].key
    requires PassOutcome(m, p0, wants[..|wants| - 1])
    ensures PassOutcome(m, Step(p0, wants[|wants| - 1], calls), wants)
  {
    var init, w := wants[..|wants| - 1], wants[|wants| - 1];
    assert forall i :: 0 <= i < |init| ==> init[i].key != w.key;
    WrongSnoc(m, wants);
    WrongSnoc(Step(p0, w, calls).entries, wants);
    StepFrame(p0, w, init, calls);
    NewKeyStep(m, p0, w, Wrong(m, init), Wrong(p0.entries, init), calls);
  }

  lemma NewKeyStep(m: Entries, p0: Progress, w: Want, before: set<Key>, after: set<Key>, calls: Calls)
    requires Corrects(m, p0.entries, p0.effective, before, after) && w.key !in before && (p0.ok ==> after == {})
    ensures var p := Step(p0, w, calls);
            var after' := after + (if Read(p.entries, w.key) != w.value then {w.key} else {});
            && Corrects(m, p.entries, p.effective, before + (if Read(m, w.key) != w.value then {w.key} else {}), after')
            && (p.ok ==> after' == {})
  {
    assert Read(p0.entries, w.key) == Read(m, w.key);
    if Read(m, w.key) == w.value {
      assert before + {} == before && after + {} == after;
    } else {
      WrongKeyStep(m, p0, w, before, after, calls);
    }
  }

  /** A new key with a wrong value is one more wrong entry before the pass, and one more after it
      unless its transaction takes effect. */
  lemma WrongKeyStep(m: Entries, p0: Progress, w: Want, before: set<Key>, after: set<Key>, calls: Calls)
    requires Corrects(m, p0.entries, p0.effective, before, after) && w.key !in before && (p0.ok ==> after == {})
    requires Read(p0.entries, w.key) == Read(m, w.key) != w.value
    ensures var p := Step(p0, w, calls);
            var after' := after + (if Read(p.entries, w.key) != w.value then {w.key} else {});
            && Corrects(m, p.entries, p.effective, before + {w.key}, after')
            && (p.ok ==> after' == {})
  {
    if p0.ok && calls.read(p0.seen) && calls.fate(p0.seen) != Rejected {
      assert after + {} == after;
    }
  }

  /** The pass sends a transaction at i: the entry is wrong and not wanted before i. */
  ghost predicate SendsAt(m: Entries, wants: seq<Want>, i: nat)
    requires i < |wants|
  {
    Read(m, wants[i].key) != wants[i].value && forall j :: 0 <= j < i ==> wants[j].key != wants[i].key
  }

  ghost predicate GoesThrough(m: Entries, wants: seq<Want>, calls: Calls, i: nat)
    requires i < |wants|
  {
    calls.read(i) && (SendsAt(m, wants, i) ==> calls.fate(i) == Confirmed)
  }

  lemma GoesThroughPrefix(m: Entries, wants: seq<Want>, calls: Calls, i: nat)
    requires i < |wants| - 1
    ensures GoesThrough(m, wants[..|wants| - 1], calls, i) <==> GoesThrough(m, wants, calls, i)
  {
    assert forall j :: 0 <= j <= i ==> wants[..|wants| - 1][j] == wants[j];
  }

  /** A pass completes exactly when every read goes through and every transaction for an initially
      wrong entry is confirmed. */
  lemma {:induction false} PassCompletes(m: Entries, wants: seq<Want>, calls: Calls)
    requires Consistent(wants)
    ensures Pass(m, wants, calls).ok <==> forall i :: 0 <= i < |wants| ==> GoesThrough(m, wants, calls, i)
    ensures Pass(m, wants, calls).ok ==> Pass(m, wants, calls).seen == |wants|
  {
    if wants != [] {
      var n := |wants| - 1;
      PassCompletes(m, wants[..n], calls);
      if Pass(m, wants[..n], calls).ok {
        forall i | 0 <= i < n ensures GoesThrough(m, wants, calls, i) {
          GoesThroughPrefix(m, wants, calls, i);
        }
        LastSends(m, wants, calls);
        assert Pass(m, wants, calls).ok <==> GoesThrough(m, wants, calls, n);
      } else {
        var i :| 0 <= i < n && !GoesThrough(m, wants[..n], calls, i);
        GoesThroughPrefix(m, wants, calls, i);
      }
    }
  }

  /** Behind a completed pass over the others, the last entry is still to be sent exactly when it
      was wrong at first and is not wanted before. */
  lemma LastSends(m: Entries, wants: seq<Want>, calls: Calls)
    requires Consistent(wants) && wants != [] && Pass(m, wants[..|wants| - 1], calls).ok
    ensures var w := wants[|wants| - 1];
            Read(Pass(m, wants[..|wants| - 1], calls).entries, w.key) != w.value <==> SendsAt(m, wants, |wants| - 1)
  {
    var init, w := wants[..|wants| - 1], wants[|wants| - 1];
    PassIsMinimal(m, init, calls);
    if i :| 0 <= i < |init| && init[i].key == w.key {
      RightUnlessWrong(Pass(m, init, calls).entries, init, i);
    } else {
      assert forall j :: 0 <= j < |init| ==> init[j] == wants[j];
    }
  }

  /** Wherever a pass ends: if it changed an entry, everything wanted before that entry is right. */
  lemma {:induction false} EarlierFirst(m: Entries, wants: seq<Want>, calls: Calls, i: nat, j: nat)
    requires Consistent(wants) && i < j < |wants| && forall k :: 0 <= k < j ==> wants[k].key != wants[j].key
    requires Read(Pass(m, wants, calls).entries, wants[j].key) != Read(m, wants[j].key)
    ensures Read(Pass(m, wants, calls).entries, wants[i].key) == wants[i].value
    decreases |wants|
  {
    var init := wants[..|wants| - 1];
    PassIsMinimal(m, init, calls);
    if Pass(m, init, calls).ok {
      RightUnlessWrong(Pass(m, init, calls).entries, init, i);
    } else if j < |init| {
      EarlierFirst(m, init, calls, i, j);
    }
    StepKeeps(Pass(m, init, calls), wants[|wants| - 1], calls, wants[i]);
  }

  lemma StepKeeps(p: Progress, w: Want, calls: Calls, other: Want)
    requires Read(p.entries, other.key) == other.value && (w.key == other.key ==> w.value == other.value)
    ensures Read(Step(p, w, calls).entries, other.key) == other.value
  {
  }

  /** The entries after a run of passes over one list. */
  function AfterPasses(m: Entries, wants: seq<Want>, run: seq<Calls>): Entries {
    if run == [] then m else Pass(AfterPasses(m, wants, run[..|run| - 1]), wants, run[|run| - 1]).entries
  }

  /** How many transactions of the run take effect. */
  function Effective(m: Entries, wants: seq<Want>, run: seq<Calls>): nat {
    if run == [] then 0
    else
      var init := run[..|run| - 1];
      Effective(m, wants, init) + Pass(AfterPasses(m, wants, init), wants, run[|run| - 1]).effective
  }

  /** Over any run of passes, each ending anywhere, the transactions that take effect are as many as
      the entries that are corrected: no entry is written twice, and nothing else changes. */
  lemma {:induction false} NothingWrittenTwice(m: Entries, wants: seq<Want>, run: seq<Calls>)
    requires Consistent(wants)
    ensures var m' := AfterPasses(m, wants, run);
            Corrects(m, m', Effective(m, wants, run), Wrong(m, wants), Wrong(m', wants))
  {
    if run != [] {
      var init, m0 := run[..|run| - 1], AfterPasses(m, wants, run[..|run| - 1]);
      var p := Pass(m0, wants, run[|run| - 1]);
      NothingWrittenTwice(m, wants, init);
      PassIsMinimal(m0, wants, run[|run| - 1]);
    }
  }

  /** Once a pass completes, nothing is wrong for the rest of the run and nothing more is sent. */
  lemma {:induction false} StaysRight(m: Entries, wants: seq<Want>, run: seq<Calls>, i: nat)
    requires Consistent(wants) && i < |run| && Pass(AfterPasses(m, wants, run[..i]), wants, run[i]).ok
    ensures AllHold(AfterPasses(m, wants, run), wants)
    ensures AfterPasses(m, wants, run) == AfterPasses(m, wants, run[..i + 1])
    ensures Effective(m, wants, run) == Effective(m, wants, run[..i + 1])
    decreases |run|
  {
    var init := run[..|run| - 1];
    if i < |run| - 1 {
      assert init[..i] == run[..i] && init[..i + 1] == run[..i + 1];
      StaysRight(m, wants, init, i);
      SecondPassIsIdle(AfterPasses(m, wants, init), wants, run[|run| - 1]);
    } else {
      assert run[..i + 1] == run;
      PassConverges(AfterPasses(m, wants, init), wants, run[i]);
    }
  }

  ghost predicate AllHold(m: Entries, wants: seq<Want>) {
    forall i :: 0 <= i < |wants| ==> Read(m, wants[i].key) == wants[i].value
  }

  /** A completed pass leaves every wanted entry right exactly when the list does not contradict itself. */
  lemma PassConverges(m: Entries, wants: seq<Want>, calls: Calls)
    requires Pass(m, wants, calls).ok
    ensures AllHold(Pass(m, wants, calls).entries, wants) <==> Consistent(wants)
  {
    if Consistent(wants) {
      PassIsMinimal(m, wants, calls);
      var e := Pass(m, wants, calls).entries;
      forall i | 0 <= i < |wants| ensures Read(e, wants[i].key) == wants[i].value {
        assert wants[i].key !in Wrong(e, wants);
      }
    }
  }

  /** When everything holds, a pass sends nothing and changes nothing, whatever becomes of its calls;
      it completes exactly when every read goes through. */
  lemma {:induction false} SecondPassIsIdle(m: Entries, wants: seq<Want>, calls: Calls)
    requires AllHold(m, wants)
    ensures var p := Pass(m, wants, calls);
            && p.entries == m && p.effective == 0
            && (p.ok <==> forall i :: 0 <= i < |wants| ==> calls.read(i))
            && (p.ok ==> p.seen == |wants|)
  {
    if wants != [] {
      SecondPassIsIdle(m, wants[..|wants| - 1], calls);
    }
  }

  /** The pass sent nothing and changed nothing. */
  predicate Idle(m: Entries, p: Progress) {
    p.entries == m && p.effective == 0
  }

  // ---------- the three oracles ----------

  function AttesterWants(attesters: seq<string>): seq<Want> {
    if attesters == [] then []
    else AttesterWants(attesters[..|attesters| - 1]) + [Want(Attester(attesters[|attesters| - 1]), Flag(true))]
  }

  const HYPERLANE_CHAINS: set<nat> := {1, 10, 42161, 8453, 11155111, 84532, 11155420, 421614}
  const OP_STACK_CHAINS: set<nat> := {10, 8453, 11155420, 84532, 420690, 420691}

  /** HYPERLANE_DOMAINS: each listed chain is its own domain; 0 stands for undefined. */
  function HyperlaneDomain(chainId: nat): nat {
    if chainId in HYPERLANE_CHAINS then chainId else 0
  }

  function AddressToBytes32(addr: string): string {
    "0x" + PadStart(if |addr| < 2 then "" else addr[2..], 64, '0')
  }

  /** On 20-byte addresses the widening gives 32-byte words and is injective. */
  lemma AddressToBytes32Injective(a: string, b: string)
    requires |a| == |b| == 42 && a[..2] == b[..2] == "0x"
    ensures AddressToBytes32(a) == "0x" + "000000000000" + "000000000000" + a[2..]
    ensures AddressToBytes32(a) == AddressToBytes32(b) ==> a == b
  {
    assert AddressToBytes32(a)[26..] == a[2..] && AddressToBytes32(b)[26..] == b[2..];
    assert a == a[..2] + a[2..] && b == b[..2] + b[2..];
  }

  /** What is widened comes behind zeros up to 64 digits; a text too short has nothing to widen. */
  lemma AddressToBytes32Text(addr: string)
    ensures |addr| <= 2 ==> AddressToBytes32(addr) == "0x" + Repeat('0', 64)
    ensures 2 < |addr| <= 66 ==> AddressToBytes32(addr) == "0x" + Repeat('0', 66 - |addr|) + addr[2..]
    ensures |addr| > 66 ==> AddressToBytes32(addr) == "0x" + addr[2..]
  {
    if |addr| <= 2 {
      assert Repeat('0', 64) + "" == Repeat('0', 64);
    }
  }

  predicate HasSettler(c: ChainDeployment) {
    c.outputSettler.Some? && c.outputSettler.value != ""
  }

  function HyperlaneChainWants(chainId: nat, c: ChainDeployment): seq<Want> {
    var domain := HyperlaneDomain(c.chainId);
    if c.chainId == chainId || domain == 0 then []
    else
      var sender := if HasSettler(c)
              then [Want(TrustedSender(domain), Word(Lower(AddressToBytes32(c.outputSettler.value))))]
              else [];
      [Want(DomainId(c.chainId), Number(domain))] + sender
  }

  function SuperchainChainWants(chainId: nat, c: ChainDeployment): seq<Want> {
    if c.chainId == chainId || c.chainId !in OP_STACK_CHAINS then []
    else
      var settler := if HasSettler(c) then [Want(OutputSettler(c.chainId), Word(Lower(c.outputSettler.value)))] else [];
      [Want(SourceChain(c.chainId), Flag(true))] + settler
  }

  datatype Kind = Hyperlane | Superchain

  function ChainWants(kind: Kind, chainId: nat, c: ChainDeployment): seq<Want> {
    match kind case Hyperlane => HyperlaneChainWants(chainId, c) case Superchain => SuperchainChainWants(chainId, c)
  }

  /** Everything a pass over an oracle of this kind wants, in the order of the loops. */
  function OracleWants(kind: Kind, chainId: nat, attesters: seq<string>, chains: seq<ChainDeployment>): seq<Want> {
    if chains == [] then AttesterWants(attesters)
    else OracleWants(kind, chainId, attesters, chains[..|chains| - 1]) + ChainWants(kind, chainId, chains[|chains| - 1])
  }

  lemma {:induction false} StepsConcat(p: Progress, a: seq<Want>, b: seq<Want>, calls: Calls)
    ensures Steps(p, a + b, calls) == Steps(Steps(p, a, calls), b, calls)
  {
    if b == [] {
      assert a + b == a;
    } else {
      assert (a + b)[..|a + b| - 1] == a + b[..|b| - 1];
      StepsConcat(p, a, b[..|b| - 1], calls);
    }
  }

  class Oracle {
    var entries: Entries

    constructor ()
      ensures entries == map[]
    {
      entries := map[];
    }

    /** Read, compare, write only if different; false stands for a call that threw. */
    method Reconcile(w: Want, seen: nat, effective: nat, calls: Calls) returns (ok: bool, seen': nat, effective': nat)
      modifies this
      ensures Progress(entries, seen', effective', ok) == Step(Progress(old(entries), seen, effective, true), w, calls)
    {
      if !calls.read(seen) { return false, seen, effective; }
      if Read(entries, w.key) == w.value { return true, seen + 1, effective; }
      if calls.fate(seen) == Rejected { return false, seen + 1, effective; }
      entries := entries[w.key := w.value];
      return calls.fate(seen) == Confirmed, seen + 1, effective + 1;
    }

    method ConfigureAttesters(attesters: seq<string>, calls: Calls) returns (ok: bool, seen: nat, effective: nat)
      modifies this
      ensures Progress(entries, seen, effective, ok) == Pass(old(entries), AttesterWants(attesters), calls)
    {
      ok, seen, effective := true, 0, 0;
      var i := 0;
      while i < |attesters| && ok
        invariant i <= |attesters|
        invariant Progress(entries, seen, effective, ok) == Pass(old(entries), AttesterWants(attesters[..i]), calls)
      {
        assert attesters[..i + 1][..i] == attesters[..i];
        ok, seen, effective := Reconcile(Want(Attester(attesters[i]), Flag(true)), seen, effective, calls);
        i := i + 1;
      }
      AttestersStopped(Progress(old(entries), 0, 0, true), attesters, i, calls);
    }

    /** The body of the chain loop. */
    method ConfigureChain(kind: Kind, chainId: nat, chain: ChainDeployment, seen: nat, effective: nat, calls: Calls)
      returns (ok: bool, seen': nat, effective': nat)
      modifies this
      ensures Progress(entries, seen', effective', ok)
           == Steps(Progress(old(entries), seen, effective, true), ChainWants(kind, chainId, chain), calls)
    {
      var wants := ChainWants(kind, chainId, chain);
      ok, seen', effective' := true, seen, effective;
      if wants == [] { return; }
      assert wants[..1] == [wants[0]] && [wants[0]][..0] == [];
      ok, seen', effective' := Reconcile(wants[0], seen, effective, calls);
      assert Progress(entries, seen', effective', ok)
           == Steps(Progress(old(entries), seen, effective, true), wants[..1], calls);
      if ok && |wants| == 2 {
        ok, seen', effective' := Reconcile(wants[1], seen', effective', calls);
      }
      assert |wants| == 1 ==> wants[..1] == wants;
    }

    method ConfigureOracle(kind: Kind, chainId: nat, attesters: seq<string>, otherChains: seq<ChainDeployment>,
                           calls: Calls)
      returns (ok: bool, seen: nat, effective: nat)
      modifies this
      ensures Progress(entries, seen, effective, ok)
           == Pass(old(entries), OracleWants(kind, chainId, attesters, otherChains), calls)
    {
      ghost var p := Progress(entries, 0, 0, true);
      ok, seen, effective := ConfigureAttesters(attesters, calls);
      var i := 0;
      while i < |otherChains| && ok
        invariant i <= |otherChains|
        invariant Progress(entries, seen, effective, ok)
               == Steps(p, OracleWants(kind, chainId, attesters, otherChains[..i]), calls)
      {
        assert otherChains[..i + 1][..i] == otherChains[..i];
        StepsConcat(p, OracleWants(kind, chainId, attesters, otherChains[..i]),
                    ChainWants(kind, chainId, otherChains[i]), calls);
        ok, seen, effective := ConfigureChain(kind, chainId, otherChains[i], seen, effective, calls);
        i := i + 1;
      }
      ChainsStopped(p, kind, chainId, attesters, otherChains, i, calls);
    }
  }

  lemma {:induction false} StepsStopped(p: Progress, wants: seq<Want>, calls: Calls)
    requires !p.ok
    ensures Steps(p, wants, calls) == p
  {
    if wants != [] {
      StepsStopped(p, wants[..|wants| - 1], calls);
    }
  }

  /** After a throw, or at the end of the list, the rest of the pass changes nothing. */
  lemma {:induction false} AttestersStopped(p: Progress, attesters: seq<string>, i: nat, calls: Calls)
    requires i <= |attesters| && (i < |attesters| ==> !Steps(p, AttesterWants(attesters[..i]), calls).ok)
    ensures Steps(p, AttesterWants(attesters), calls) == Steps(p, AttesterWants(attesters[..i]), calls)
    decreases |attesters|
  {
    if i < |attesters| {
      var init := attesters[..|attesters| - 1];
      assert init[..i] == attesters[..i];
      AttestersStopped(p, init, i, calls);
    } else {
      assert attesters[..i] == attesters;
    }
  }

  lemma {:induction false} ChainsStopped(p: Progress, kind: Kind, chainId: nat, attesters: seq<string>,
                                         chains: seq<ChainDeployment>, i: nat, calls: Calls)
    requires i <= |chains| && (i < |chains| ==> !Steps(p, OracleWants(kind, chainId, attesters, chains[..i]), calls).ok)
    ensures Steps(p, OracleWants(kind, chainId, attesters, chains), calls)
         == Steps(p, OracleWants(kind, chainId, attesters, chains[..i]), calls)
    decreases |chains|
  {
    if i < |chains| {
      var init := chains[..|chains| - 1];
      assert init[..i] == chains[..i];
      ChainsStopped(p, kind, chainId, attesters, init, i, calls);
      var more := ChainWants(kind, chainId, chains[|chains| - 1]);
      StepsConcat(p, OracleWants(kind, chainId, attesters, init), more, calls);
      StepsStopped(Steps(p, OracleWants(kind, chainId, attesters, init), calls), more, calls);
    } else {
      assert chains[..i] == chains;
    }
  }

  // ---------- when the wanted entries are consistent ----------

  /** The chain list does not want two different settlers for one configured chain. */
  ghost predicate ChainsAgree(kind: Kind, chainId: nat, chains: seq<ChainDeployment>) {
    forall i, j :: 0 <= i < |chains| && 0 <= j < |chains| && chains[i].chainId == chains[j].chainId
      && |ChainWants(kind, chainId, chains[i])| == 2 && |ChainWants(kind, chainId, chains[j])| == 2
      ==> ChainWants(kind, chainId, chains[i])[1].value == ChainWants(kind, chainId, chains[j])[1].value
  }

  lemma {:induction false} AttesterWantsAre(attesters: seq<string>)
    ensures forall w :: w in AttesterWants(attesters) ==>
              w.key.Attester? && w.key.address in attesters && w.value == Flag(true)
  {
    if attesters != [] {
      AttesterWantsAre(attesters[..|attesters| - 1]);
    }
  }

  lemma {:induction false} OracleWantsAre(kind: Kind, chainId: nat, attesters: seq<string>,
                                          chains: seq<ChainDeployment>, w: Want)
    ensures w in OracleWants(kind, chainId, attesters, chains)
       <==> w in AttesterWants(attesters) || exists c :: c in chains && w in ChainWants(kind, chainId, c)
  {
    if chains != [] {
      var init, last := chains[..|chains| - 1], chains[|chains| - 1];
      OracleWantsAre(kind, chainId, attesters, init, w);
      assert chains == init + [last];
      assert w in OracleWants(kind, chainId, attesters, chains)
        <==> w in OracleWants(kind, chainId, attesters, init) || w in ChainWants(kind, chainId, last);
    }
  }

  /** Two chains want the same entry only if they have the same chain id: the domain table is injective. */
  lemma ChainWantsDisjoint(kind: Kind, chainId: nat, c: ChainDeployment, c': ChainDeployment, w: Want, w': Want)
    requires w in ChainWants(kind, chainId, c) && w' in ChainWants(kind, chainId, c') && w.key == w'.key
    ensures !w.key.Attester? && c.chainId == c'.chainId
    ensures w.value == w'.value ||
            (|ChainWants(kind, chainId, c)| == 2 && |ChainWants(kind, chainId, c')| == 2
             && w == ChainWants(kind, chainId, c)[1] && w' == ChainWants(kind, chainId, c')[1])
  {
  }

  lemma WantsAgree(kind: Kind, chainId: nat, attesters: seq<string>, chains: seq<ChainDeployment>, w: Want, w': Want)
    requires ChainsAgree(kind, chainId, chains) && w.key == w'.key
    requires w in OracleWants(kind, chainId, attesters, chains) && w' in OracleWants(kind, chainId, attesters, chains)
    ensures w.value == w'.value
  {
    if w.key.Attester? {
      AttesterKeyIsAttester(kind, chainId, attesters, chains, w);
      AttesterKeyIsAttester(kind, chainId, attesters, chains, w');
    } else {
      AttesterWantsAre(attesters);
      OracleWantsAre(kind, chainId, attesters, chains, w);
      OracleWantsAre(kind, chainId, attesters, chains, w');
      var c :| c in chains && w in ChainWants(kind, chainId, c);
      var c' :| c' in chains && w' in ChainWants(kind, chainId, c');
      ChainWantsDisjoint(kind, chainId, c, c', w, w');
    }
  }

  lemma SettlersAgree(kind: Kind, chainId: nat, attesters: seq<string>, chains: seq<ChainDeployment>,
                      c: ChainDeployment, c': ChainDeployment)
    requires Consistent(OracleWants(kind, chainId, attesters, chains))
           && c in chains && c' in chains && c.chainId == c'.chainId
    requires |ChainWants(kind, chainId, c)| == 2 && |ChainWants(kind, chainId, c')| == 2
    ensures ChainWants(kind, chainId, c)[1].value == ChainWants(kind, chainId, c')[1].value
  {
    var w, w' := ChainWants(kind, chainId, c)[1], ChainWants(kind, chainId, c')[1];
    OracleWantsAre(kind, chainId, attesters, chains, w);
    OracleWantsAre(kind, chainId, attesters, chains, w');
    assert w.key == w'.key;
  }

  /** No iteration undoes another exactly when the list does not name two settlers for one chain. */
  lemma WantsConsistent(kind: Kind, chainId: nat, attesters: seq<string>, chains: seq<ChainDeployment>)
    ensures Consistent(OracleWants(kind, chainId, attesters, chains)) <==> ChainsAgree(kind, chainId, chains)
  {
    var wants := OracleWants(kind, chainId, attesters, chains);
    if ChainsAgree(kind, chainId, chains) {
      forall a, b | 0 <= a < |wants| && 0 <= b < |wants| && wants[a].key == wants[b].key
        ensures wants[a].value == wants[b].value
      {
        WantsAgree(kind, chainId, attesters, chains, wants[a], wants[b]);
      }
    }
    if Consistent(wants) {
      forall i, j | 0 <= i < |chains| && 0 <= j < |chains| && chains[i].chainId == chains[j].chainId
        && |ChainWants(kind, chainId, chains[i])| == 2 && |ChainWants(kind, chainId, chains[j])| == 2
        ensures ChainWants(kind, chainId, chains[i])[1].value == ChainWants(kind, chainId, chains[j])[1].value
      {
        SettlersAgree(kind, chainId, attesters, chains, chains[i], chains[j]);
      }
    }
  }

  lemma AttesterKeyIsAttester(kind: Kind, chainId: nat, attesters: seq<string>, chains: seq<ChainDeployment>, w: Want)
    requires w in OracleWants(kind, chainId, attesters, chains) && w.key.Attester?
    ensures w.value == Flag(true)
  {
    OracleWantsAre(kind, chainId, attesters, chains, w);
    AttesterWantsAre(attesters);
  }

  predicate DistinctIds(chains: seq<ChainDeployment>) {
    forall i, j :: 0 <= i < j < |chains| ==> chains[i].chainId != chains[j].chainId
  }

  /** With distinct chain ids every completed pass configures the oracle fully, changes nothing else,
      sends one transaction per wrong entry, and a second pass sends none. */
  lemma OracleConfigured(kind: Kind, chainId: nat, attesters: seq<string>, chains: seq<ChainDeployment>, m: Entries,
                         calls: Calls, calls': Calls)
    requires DistinctIds(chains)
    ensures Consistent(OracleWants(kind, chainId, attesters, chains))
    ensures var wants := OracleWants(kind, chainId, attesters, chains);
            var p := Pass(m, wants, calls);
            && PassOutcome(m, p, wants)
            && (p.ok ==> AllHold(p.entries, wants) && Idle(p.entries, Pass(p.entries, wants, calls')))
  {
    var wants := OracleWants(kind, chainId, attesters, chains);
    assert ChainsAgree(kind, chainId, chains);
    WantsConsistent(kind, chainId, attesters, chains);
    PassIsMinimal(m, wants, calls);
    if Pass(m, wants, calls).ok {
      PassConverges(m, wants, calls);
      SecondPassIsIdle(Pass(m, wants, calls).entries, wants, calls');
    }
  }

  lemma {:induction false} AttesterWanted(attesters: seq<string>, a: string)
    requires a in attesters
    ensures Want(Attester(a), Flag(true)) in AttesterWants(attesters)
  {
    var init := attesters[..|attesters| - 1];
    if a in init {
      AttesterWanted(init, a);
    }
  }

  /** The entries a Hyperlane oracle has for another listed chain: its domain and, if the chain has a
      settler, the settler, widened, as trusted sender. */
  ghost predicate HyperlaneTrusts(e: Entries, c: ChainDeployment) {
    && Read(e, DomainId(c.chainId)) == Number(c.chainId)
    && (c.outputSettler.Some? && c.outputSettler.value != "" ==>
          Read(e, TrustedSender(c.chainId)) == Word(Lower(AddressToBytes32(c.outputSettler.value))))
  }

  /** The entries a Superchain oracle has for another listed OP-stack chain. */
  ghost predicate SuperchainTrusts(e: Entries, c: ChainDeployment) {
    && Read(e, SourceChain(c.chainId)) == Flag(true)
    && (c.outputSettler.Some? && c.outputSettler.value != "" ==>
          Read(e, OutputSettler(c.chainId)) == Word(Lower(c.outputSettler.value)))
  }

  lemma HyperlaneChainHolds(chainId: nat, attesters: seq<string>, chains: seq<ChainDeployment>, e: Entries,
                            c: ChainDeployment)
    requires AllHold(e, OracleWants(Hyperlane, chainId, attesters, chains)) && c in chains
    requires c.chainId != chainId && c.chainId in HYPERLANE_CHAINS
    ensures HyperlaneTrusts(e, c)
  {
    ChainHolds(Hyperlane, chainId, attesters, chains, e, c, 0);
    if HasSettler(c) {
      ChainHolds(Hyperlane, chainId, attesters, chains, e, c, 1);
    }
  }

  lemma SuperchainChainHolds(chainId: nat, attesters: seq<string>, chains: seq<ChainDeployment>, e: Entries,
                             c: ChainDeployment)
    requires AllHold(e, OracleWants(Superchain, chainId, attesters, chains)) && c in chains
    requires c.chainId != chainId && c.chainId in OP_STACK_CHAINS
    ensures SuperchainTrusts(e, c)
  {
    ChainHolds(Superchain, chainId, attesters, chains, e, c, 0);
    if HasSettler(c) {
      ChainHolds(Superchain, chainId, attesters, chains, e, c, 1);
    }
  }

  /** After a completed pass over a Hyperlane oracle every attester is authorised and every other
      listed chain with a domain trusted. */
  lemma HyperlaneConfigured(chainId: nat, attesters: seq<string>, chains: seq<ChainDeployment>, m: Entries,
                            calls: Calls)
    requires DistinctIds(chains) && Pass(m, OracleWants(Hyperlane, chainId, attesters, chains), calls).ok
    ensures var e := Pass(m, OracleWants(Hyperlane, chainId, attesters, chains), calls).entries;
            && (forall a :: a in attesters ==> Read(e, Attester(a)) == Flag(true))
            && (forall c :: c in chains && c.chainId != chainId && c.chainId in HYPERLANE_CHAINS ==>
                  HyperlaneTrusts(e, c))
  {
    var e := Pass(m, OracleWants(Hyperlane, chainId, attesters, chains), calls).entries;
    OracleConfigured(Hyperlane, chainId, attesters, chains, m, calls, calls);
    AttestersHold(Hyperlane, chainId, attesters, chains, e);
    forall c | c in chains && c.chainId != chainId && c.chainId in HYPERLANE_CHAINS ensures HyperlaneTrusts(e, c) {
      HyperlaneChainHolds(chainId, attesters, chains, e, c);
    }
  }

  /** After a completed pass over a Superchain oracle every attester is authorised and every other
      listed OP-stack chain trusted. */
  lemma SuperchainConfigured(chainId: nat, attesters: seq<string>, chains: seq<ChainDeployment>, m: Entries,
                             calls: Calls)
    requires DistinctIds(chains) && Pass(m, OracleWants(Superchain, chainId, attesters, chains), calls).ok
    ensures var e := Pass(m, OracleWants(Superchain, chainId, attesters, chains), calls).entries;
            && (forall a :: a in attesters ==> Read(e, Attester(a)) == Flag(true))
            && (forall c :: c in chains && c.chainId != chainId && c.chainId in OP_STACK_CHAINS ==>
                  SuperchainTrusts(e, c))
  {
    var e := Pass(m, OracleWants(Superchain, chainId, attesters, chains), calls).entries;
    OracleConfigured(Superchain, chainId, attesters, chains, m, calls, calls);
    AttestersHold(Superchain, chainId, attesters, chains, e);
    forall c | c in chains && c.chainId != chainId && c.chainId in OP_STACK_CHAINS ensures SuperchainTrusts(e, c) {
      SuperchainChainHolds(chainId, attesters, chains, e, c);
    }
  }

  lemma AttestersHold(kind: Kind, chainId: nat, attesters: seq<string>, chains: seq<ChainDeployment>, e: Entries)
    requires AllHold(e, OracleWants(kind, chainId, attesters, chains))
    ensures forall a :: a in attesters ==> Read(e, Attester(a)) == Flag(true)
  {
    forall a | a in attesters ensures Read(e, Attester(a)) == Flag(true) {
      var w := Want(Attester(a), Flag(true));
      AttesterWanted(attesters, a);
      OracleWantsAre(kind, chainId, attesters, chains, w);
    }
  }

  lemma ChainHolds(kind: Kind, chainId: nat, attesters: seq<string>, chains: seq<ChainDeployment>, e: Entries,
                   c: ChainDeployment, i: nat)
    requires AllHold(e, OracleWants(kind, chainId, attesters, chains))
           && c in chains && i < |ChainWants(kind, chainId, c)|
    ensures Read(e, ChainWants(kind, chainId, c)[i].key) == ChainWants(kind, chainId, c)[i].value
  {
    var w := ChainWants(kind, chainId, c)[i];
    OracleWantsAre(kind, chainId, attesters, chains, w);
  }

  // ---------- where the lists come from ----------

  datatype Deployment = Deployment(status: string, oracle: string, outputSettler: Option<string>)

  /** A decimal numeral as the keys of the deployment files are written. */
  predicate IsDecimal(s: string) {
    s != "" && s[0] != '0' && forall i :: 0 <= i < |s| ==> '0' <= s[i] <= '9'
  }

  function DecimalDigits(s: string): seq<nat>
    requires IsDecimal(s)
  {
    seq(|s|, i requires 0 <= i < |s| => s[i] as int - '0' as int)
  }

  function ParseInt(s: string): nat
    requires IsDecimal(s)
  {
    Digits.Value(DecimalDigits(s), 10)
  }

  /** Decimal notation: a digit behind multiplies by ten and adds. */
  lemma ParseIntDigit(s: string, c: char)
    requires IsDecimal(s) && '0' <= c <= '9'
    ensures IsDecimal(s + [c]) && ParseInt(s + [c]) == 10 * ParseInt(s) + (c as int - '0' as int)
    ensures c != '0' ==> IsDecimal([c]) && ParseInt([c]) == c as int - '0' as int
  {
    assert DecimalDigits(s + [c])[..|s|] == DecimalDigits(s);
    if c != '0' {
      assert DecimalDigits([c]) == [c as int - '0' as int];
      assert Digits.Value([], 10) == 0;
    }
  }

  lemma ParseIntInjective(s: string, t: string)
    requires IsDecimal(s) && IsDecimal(t) && ParseInt(s) == ParseInt(t)
    ensures s == t
  {
    NumeralUnique(DecimalDigits(s), 10);
    NumeralUnique(DecimalDigits(t), 10);
    DecimalDigitsInjective(s, t);
  }

  lemma DecimalDigitsInjective(s: string, t: string)
    requires IsDecimal(s) && IsDecimal(t) && DecimalDigits(s) == DecimalDigits(t)
    ensures s == t
  {
    assert |s| == |DecimalDigits(s)| == |DecimalDigits(t)| == |t|;
    forall i | 0 <= i < |s| ensures s[i] == t[i] {
      assert DecimalDigits(s)[i] == DecimalDigits(t)[i];
    }
  }

  /** getDeployedChains, from the entries of the merged deployment object. */
  function DeployedChains(all: seq<(string, Deployment)>): seq<ChainDeployment>
    requires forall i :: 0 <= i < |all| ==> IsDecimal(all[i].0)
  {
    if all == [] then []
    else
      var (id, d) := all[0];
      (if IsDeployed(d) then [ChainDeployment(ParseInt(id), d.outputSettler)] else []) + DeployedChains(all[1..])
  }

  predicate IsDeployed(d: Deployment) {
    d.status == "deployed" && d.oracle != ""
  }

  /** The merged deployment object: decimal keys, each once. */
  predicate IsDeploymentObject(all: seq<(string, Deployment)>) {
    && (forall i :: 0 <= i < |all| ==> IsDecimal(all[i].0))
    && (forall i, j :: 0 <= i < j < |all| ==> all[i].0 != all[j].0)
  }

  /** An entry that says its chain is deployed with an oracle, and the chain it stands for. */
  ghost predicate Lists(entry: (string, Deployment), c: ChainDeployment) {
    && IsDecimal(entry.0) && entry.1.status == "deployed" && entry.1.oracle != ""
    && c == ChainDeployment(ParseInt(entry.0), entry.1.outputSettler)
  }

  /** The deployed chains are exactly those of the entries that are deployed with an oracle, and no
      two have the same id. */
  lemma {:induction false} DeployedChainIds(all: seq<(string, Deployment)>)
    requires IsDeploymentObject(all)
    ensures DistinctIds(DeployedChains(all))
    ensures forall c :: c in DeployedChains(all) <==> exists i :: 0 <= i < |all| && Lists(all[i], c)
  {
    if all != [] {
      var rest := DeployedChains(all[1..]);
      DeployedChainIds(all[1..]);
      forall c
        ensures c in rest <==> exists i :: 1 <= i < |all| && Lists(all[i], c)
        ensures c in rest ==> c.chainId != ParseInt(all[0].0)
      {
        if c in rest {
          var i :| 0 <= i < |all[1..]| && Lists(all[1..][i], c);
          assert Lists(all[i + 1], c);
          if c.chainId == ParseInt(all[0].0) { ParseIntInjective(all[0].0, all[i + 1].0); }
        }
        if i :| 1 <= i < |all| && Lists(all[i], c) {
          assert all[1..][i - 1] == all[i];
        }
      }
      assert forall c :: c in DeployedChains(all) <==> c in rest || Lists(all[0], c);
    }
  }

  /** The lower-case addresses without repetition: first occurrences, in order. */
  function UniqueAttesters(attesters: seq<string>): (r: seq<string>)
    ensures forall a :: a in r <==> exists i :: 0 <= i < |attesters| && a == Lower(attesters[i])
    ensures forall i, j :: 0 <= i < j < |r| ==> r[i] != r[j]
  {
    if attesters == [] then []
    else
      var init := attesters[..|attesters| - 1];
      var r, a := UniqueAttesters(init), Lower(attesters[|attesters| - 1]);
      assert forall i :: 0 <= i < |init| ==> init[i] == attesters[i];
      if a in r then r else r + [a]
  }

  // ---------- from the deployment files to the oracles ----------

  /** Every address given, whatever its case, is an authorised attester. */
  ghost predicate AttestersAuthorised(e: Entries, addresses: seq<string>) {
    forall i :: 0 <= i < |addresses| ==> Read(e, Attester(Lower(addresses[i]))) == Flag(true)
  }

  /** What the script promises of an oracle of the given kind on the given chain. */
  ghost predicate TrustsAll(e: Entries, kind: Kind, chainId: nat, all: seq<(string, Deployment)>)
    requires IsDeploymentObject(all)
  {
    forall i :: 0 <= i < |all| && all[i].1.status == "deployed" && all[i].1.oracle != "" ==>
      TrustsChain(e, kind, chainId, ChainDeployment(ParseInt(all[i].0), all[i].1.outputSettler))
  }

  ghost predicate TrustsChain(e: Entries, kind: Kind, chainId: nat, c: ChainDeployment) {
    c.chainId != chainId ==>
      match kind
      case Hyperlane => HasDomain(c.chainId) ==> HyperlaneTrusts(e, c)
      case Superchain => IsOpStack(c.chainId) ==> SuperchainTrusts(e, c)
  }

  predicate HasDomain(id: nat) {
    id in {1, 10, 8453, 42161, 84532, 421614, 11155111, 11155420}
  }

  predicate IsOpStack(id: nat) {
    id in {10, 8453, 84532, 420690, 420691, 11155420}
  }

  ghost predicate ListsId(all: seq<(string, Deployment)>, id: nat) {
    exists i, c :: 0 <= i < |all| && Lists(all[i], c) && c.chainId == id
  }

  ghost predicate ListsSettler(all: seq<(string, Deployment)>, id: nat) {
    exists i, c :: && 0 <= i < |all| && Lists(all[i], c) && c.chainId == id
                   && c.outputSettler.Some? && c.outputSettler.value != ""
  }

  /** The entries a pass is about: the addresses given, and other chains that are listed as deployed. */
  ghost predicate Concerns(key: Key, kind: Kind, chainId: nat, addresses: seq<string>, all: seq<(string, Deployment)>) {
    match key
    case Attester(a) => exists i :: 0 <= i < |addresses| && a == Lower(addresses[i])
    case DomainId(id) => kind.Hyperlane? && id != chainId && HasDomain(id) && ListsId(all, id)
    case TrustedSender(id) => kind.Hyperlane? && id != chainId && HasDomain(id) && ListsSettler(all, id)
    case SourceChain(id) => kind.Superchain? && id != chainId && IsOpStack(id) && ListsId(all, id)
    case OutputSettler(id) => kind.Superchain? && id != chainId && IsOpStack(id) && ListsSettler(all, id)
  }

  lemma ChainConcerned(kind: Kind, chainId: nat, addresses: seq<string>, all: seq<(string, Deployment)>,
                       c: ChainDeployment, w: Want, i: nat)
    requires i < |all| && Lists(all[i], c) && w in ChainWants(kind, chainId, c)
    ensures Concerns(w.key, kind, chainId, addresses, all)
  {
    assert ListsId(all, c.chainId);
    if HasSettler(c) {
      assert ListsSettler(all, c.chainId);
    }
  }

  lemma WantsConcern(kind: Kind, chainId: nat, addresses: seq<string>, all: seq<(string, Deployment)>, w: Want)
    requires IsDeploymentObject(all)
    requires w in OracleWants(kind, chainId, UniqueAttesters(addresses), DeployedChains(all))
    ensures Concerns(w.key, kind, chainId, addresses, all)
  {
    OracleWantsAre(kind, chainId, UniqueAttesters(addresses), DeployedChains(all), w);
    if w in AttesterWants(UniqueAttesters(addresses)) {
      AttesterWantsAre(UniqueAttesters(addresses));
    } else {
      var c :| c in DeployedChains(all) && w in ChainWants(kind, chainId, c);
      DeployedChainIds(all);
      var i :| 0 <= i < |all| && Lists(all[i], c);
      ChainConcerned(kind, chainId, addresses, all, c, w, i);
    }
  }

  /** From the files and addresses the script reads to the entries on chain, with no condition on
      their contents: the wanted entries never contradict each other, every transaction that takes
      effect corrects one wrong entry, nothing else changes wherever the pass ends, and a pass that
      completes leaves every address authorised and every other deployed chain trusted; the next pass,
      whatever becomes of its calls, sends nothing. */
  lemma FilesConfigureOracle(kind: Kind, chainId: nat, addresses: seq<string>, all: seq<(string, Deployment)>,
                             m: Entries,
                             calls: Calls, calls': Calls)
    requires IsDeploymentObject(all)
    ensures Consistent(OracleWants(kind, chainId, UniqueAttesters(addresses), DeployedChains(all)))
    ensures var wants := OracleWants(kind, chainId, UniqueAttesters(addresses), DeployedChains(all));
            var p := Pass(m, wants, calls);
            && PassOutcome(m, p, wants)
            && (forall key :: !Concerns(key, kind, chainId, addresses, all) ==> Read(p.entries, key) == Read(m, key))
            && (p.ok ==> AttestersAuthorised(p.entries, addresses) && TrustsAll(p.entries, kind, chainId, all))
            && (p.ok ==> Idle(p.entries, Pass(p.entries, wants, calls')))
  {
    var attesters, chains := UniqueAttesters(addresses), DeployedChains(all);
    var wants := OracleWants(kind, chainId, attesters, chains);
    var p := Pass(m, wants, calls);
    DeployedChainIds(all);
    OracleConfigured(kind, chainId, attesters, chains, m, calls, calls');
    forall key | !Concerns(key, kind, chainId, addresses, all) ensures Read(p.entries, key) == Read(m, key) {
      NotConcerned(kind, chainId, addresses, all, m, key);
    }
    if p.ok {
      AttestersHold(kind, chainId, attesters, chains, p.entries);
      AllTrusted(kind, chainId, attesters, all, m, calls);
    }
  }

  lemma NotConcerned(kind: Kind, chainId: nat, addresses: seq<string>, all: seq<(string, Deployment)>, m: Entries,
                     key: Key)
    requires IsDeploymentObject(all) && !Concerns(key, kind, chainId, addresses, all)
    ensures key !in Wrong(m, OracleWants(kind, chainId, UniqueAttesters(addresses), DeployedChains(all)))
  {
    var wants := OracleWants(kind, chainId, UniqueAttesters(addresses), DeployedChains(all));
    forall w | w in wants ensures w.key != key {
      WantsConcern(kind, chainId, addresses, all, w);
    }
  }

  lemma AllTrusted(kind: Kind, chainId: nat, attesters: seq<string>, all: seq<(string, Deployment)>, m: Entries,
                   calls: Calls)
    requires IsDeploymentObject(all)
    requires Pass(m, OracleWants(kind, chainId, attesters, DeployedChains(all)), calls).ok
    ensures var e := Pass(m, OracleWants(kind, chainId, attesters, DeployedChains(all)), calls).entries;
            TrustsAll(e, kind, chainId, all)
  {
    var chains := DeployedChains(all);
    DeployedChainIds(all);
    forall i, c | 0 <= i < |all| && Lists(all[i], c)
      ensures TrustsChain(Pass(m, OracleWants(kind, chainId, attesters, chains), calls).entries, kind, chainId, c)
    {
      if kind.Hyperlane? {
        HyperlaneConfigured(chainId, attesters, chains, m, calls);
      } else {
        SuperchainConfigured(chainId, attesters, chains, m, calls);
      }
    }
  }

  // ---------- the order of the entries, and new oracles ----------

  /** A settler is trusted for a chain that is announced by another entry. */
  function Announced(key: Key): (w: Want)
    requires key.TrustedSender? || key.OutputSettler?
  {
    if key.TrustedSender? then Want(DomainId(key.domain), Number(key.domain))
    else Want(SourceChain(key.ofChain), Flag(true))
  }

  lemma {:induction false} AnnouncedBefore(kind: Kind, chainId: nat, attesters: seq<string>,
                                           chains: seq<ChainDeployment>, j: nat) returns (i: nat)
    requires j < |OracleWants(kind, chainId, attesters, chains)|
    requires var key := OracleWants(kind, chainId, attesters, chains)[j].key; key.TrustedSender? || key.OutputSettler?
    ensures i < j
    ensures var wants := OracleWants(kind, chainId, attesters, chains); wants[i] == Announced(wants[j].key)
  {
    if chains == [] {
      AttesterWantsAre(attesters);
      assert AttesterWants(attesters)[j] in AttesterWants(attesters);
    } else {
      var init, last := chains[..|chains| - 1], chains[|chains| - 1];
      if j < |OracleWants(kind, chainId, attesters, init)| {
        i := AnnouncedBefore(kind, chainId, attesters, init, j);
      } else {
        AnnouncedInChain(kind, chainId, last, j - |OracleWants(kind, chainId, attesters, init)|);
        i := j - 1;
      }
    }
  }

  lemma AnnouncedInChain(kind: Kind, chainId: nat, c: ChainDeployment, k: nat)
    requires k < |ChainWants(kind, chainId, c)|
    requires var key := ChainWants(kind, chainId, c)[k].key; key.TrustedSender? || key.OutputSettler?
    ensures k == 1 && ChainWants(kind, chainId, c)[0] == Announced(ChainWants(kind, chainId, c)[1].key)
  {
  }

  lemma FirstWanted(wants: seq<Want>, key: Key) returns (j: nat)
    requires exists i :: 0 <= i < |wants| && wants[i].key == key
    ensures j < |wants| && wants[j].key == key && forall k :: 0 <= k < j ==> wants[k].key != key
  {
    if i :| 0 <= i < |wants| - 1 && wants[i].key == key {
      assert wants[..|wants| - 1][i].key == key;
      j := FirstWanted(wants[..|wants| - 1], key);
    } else {
      j := |wants| - 1;
    }
  }

  lemma {:induction false} AttestersFirst(kind: Kind, chainId: nat, attesters: seq<string>,
                                          chains: seq<ChainDeployment>)
    ensures AttesterWants(attesters) <= OracleWants(kind, chainId, attesters, chains)
  {
    if chains != [] {
      AttestersFirst(kind, chainId, attesters, chains[..|chains| - 1]);
    }
  }

  /** Wherever a pass ends, a chain's entries have been touched only if every attester is authorised,
      and a settler has been trusted only for a chain that is announced. */
  lemma TrustComesLast(kind: Kind, chainId: nat, attesters: seq<string>, chains: seq<ChainDeployment>, m: Entries,
                       calls: Calls, key: Key)
    requires DistinctIds(chains) && !key.Attester?
    requires Read(Pass(m, OracleWants(kind, chainId, attesters, chains), calls).entries, key) != Read(m, key)
    ensures var e := Pass(m, OracleWants(kind, chainId, attesters, chains), calls).entries;
            && (forall a :: a in attesters ==> Read(e, Attester(a)) == Flag(true))
            && (key.TrustedSender? ==> Read(e, DomainId(key.domain)) == Number(key.domain))
            && (key.OutputSettler? ==> Read(e, SourceChain(key.ofChain)) == Flag(true))
  {
    var wants := OracleWants(kind, chainId, attesters, chains);
    OracleConfigured(kind, chainId, attesters, chains, m, calls, calls);
    var j := FirstWanted(wants, key);
    AttesterWantsAre(attesters);
    AttestersFirst(kind, chainId, attesters, chains);
    forall a | a in attesters ensures Read(Pass(m, wants, calls).entries, Attester(a)) == Flag(true) {
      AttesterWanted(attesters, a);
      var i :| 0 <= i < |AttesterWants(attesters)| && AttesterWants(attesters)[i] == Want(Attester(a), Flag(true));
      EarlierFirst(m, wants, calls, i, j);
    }
    if key.TrustedSender? || key.OutputSettler? {
      var i := AnnouncedBefore(kind, chainId, attesters, chains, j);
      EarlierFirst(m, wants, calls, i, j);
    }
  }

  /** On a new oracle everything wanted is still to be written, except a zero settler. */
  lemma NewOracle(kind: Kind, chainId: nat, attesters: seq<string>, chains: seq<ChainDeployment>, w: Want)
    requires w in OracleWants(kind, chainId, attesters, chains)
    ensures Read(map[], w.key) == w.value <==>
            || (w.key.TrustedSender? && w.value == Word("0x" + Repeat('0', 64)))
            || (w.key.OutputSettler? && w.value == Word("0x" + Repeat('0', 40)))
  {
    OracleWantsAre(kind, chainId, attesters, chains, w);
    AttesterWantsAre(attesters);
  }
}
