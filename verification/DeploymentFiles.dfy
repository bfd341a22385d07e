/** The merge of deployment files in packages/config/network.ts. */
module DeploymentFiles {
  import opened Wrappers

  /** Parsed JSON; the entries of an object are in Object.entries order. */
  datatype Json = Null | Text(s: string) | Scalar | Array(items: seq<Json>) | Object(entries: seq<(string, Json)>)

  datatype Thrown = CannotConvertNull

  type Leaf = (string, string)

  const WETH := "0x4200000000000000000000000000000000000006"

  /** The key of an array item or of a character of a string. */
  function IndexKey(i: nat): string {
    if i < 10 then [('0' as int + i) as char] else IndexKey(i / 10) + [('0' as int + i % 10) as char]
  }

  /** Decimal notation: a digit behind multiplies by ten and adds. */
  lemma IndexKeyDigit(i: nat, d: nat)
    requires d < 10
    ensures IndexKey(d) == ["0123456789"[d]]
    ensures i > 0 ==> IndexKey(10 * i + d) == IndexKey(i) + ["0123456789"[d]]
  {
    assert (10 * i + d) / 10 == i && (10 * i + d) % 10 == d;
  }

  /** Object.entries; the entries of a string, number or boolean are never addresses or objects. */
  function EntriesOf(data: Json): seq<(string, Json)> {
    match data
    case Object(entries) => entries
    case Array(items) => seq(|items|, i requires 0 <= i < |items| => (IndexKey(i), items[i]))
    case _ => []
  }

  /** value.contracts, if the key is there. */
  function ContractsOf(entries: seq<(string, Json)>): (r: Option<Json>)
    ensures r.Some? ==> exists i :: 0 <= i < |entries| && entries[i] == ("contracts", r.value)
    ensures r.None? ==> forall i :: 0 <= i < |entries| ==> entries[i].0 != "contracts"
  {
    if entries == [] then None
    else if entries[0].0 == "contracts" then Some(entries[0].1)
    else
      var r := ContractsOf(entries[1..]);
      assert r.Some? ==>
               exists i :: && 0 <= i < |entries[1..]|
                           && entries[1..][i] == ("contracts", r.value) == entries[i + 1];
      r
  }

  /** The object under "contracts" that flattenContracts descends into. */
  function Nested(value: Json): (r: Option<Json>)
    ensures r.Some? ==> r.value < value
  {
    if value.Object? then ContractsOf(value.entries) else None
  }

  // ---------- specification: matching leaves in traversal order ----------

  /** The address leaves of data from entry k on, in traversal order; descending into null throws. */
  function LeavesFrom(data: Json, k: nat): Result<seq<Leaf>, Thrown>
    requires k <= |EntriesOf(data)|
    decreases data, |EntriesOf(data)| - k
  {
    if data.Null? then Err(CannotConvertNull)
    else if k == |EntriesOf(data)| then Ok([])
    else
      var (key, value) := EntriesOf(data)[k];
      var here := EntryLeaves(data, k);
      if here.Err? then here
      else
        var rest := LeavesFrom(data, k + 1);
        if rest.Err? then rest else Ok(here.value + rest.value)
  }

  function EntryLeaves(data: Json, k: nat): Result<seq<Leaf>, Thrown>
    requires k < |EntriesOf(data)| && !data.Null?
    decreases data, |EntriesOf(data)| - k, 0
  {
    var (key, value) := EntriesOf(data)[k];
    if value.Text? && "0x" <= value.s then Ok([(key, value.s)])
    else if Nested(value).Some? then LeavesFrom(Nested(value).value, 0)
    else Ok([])
  }

  lemma {:induction false} LeavesAppend(entries: seq<(string, Json)>, last: (string, Json), k: nat)
    requires k <= |entries| && LeavesFrom(Object(entries), k).Ok?
    ensures EntryLeaves(Object(entries + [last]), |entries|).Err? ==> LeavesFrom(Object(entries + [last]), k).Err?
    ensures EntryLeaves(Object(entries + [last]), |entries|).Ok? ==>
              LeavesFrom(Object(entries + [last]), k)
              == Ok(LeavesFrom(Object(entries), k).value + EntryLeaves(Object(entries + [last]), |entries|).value)
    decreases |entries| - k
  {
    var a, b := Object(entries), Object(entries + [last]);
    var here := EntryLeaves(b, |entries|);
    assert forall i :: 0 <= i < |entries| ==> EntriesOf(a)[i] == EntriesOf(b)[i];
    if k < |entries| {
      assert EntryLeaves(a, k) == EntryLeaves(b, k);
      LeavesAppend(entries, last, k + 1);
      if here.Ok? {
        var first, rest := EntryLeaves(a, k).value, LeavesFrom(a, k + 1).value;
        assert first + (rest + here.value) == (first + rest) + here.value;
      }
    } else if here.Ok? {
      assert LeavesFrom(b, k + 1) == Ok([]);
      assert here.value + [] == here.value == [] + here.value;
    }
  }

  /** The first entry called "contracts". */
  predicate IsContracts(entries: seq<(string, Json)>, i: nat) {
    i < |entries| && entries[i].0 == "contracts" && forall j :: 0 <= j < i ==> entries[j].0 != "contracts"
  }

  lemma {:induction false} ContractsAt(entries: seq<(string, Json)>, i: nat)
    requires IsContracts(entries, i)
    ensures ContractsOf(entries) == Some(entries[i].1)
  {
    if i > 0 {
      ContractsAt(entries[1..], i - 1);
    }
  }

  /** What one more entry adds to the leaves: itself if it is a text that starts with "0x", the leaves
      under "contracts" if it is an object that has such an entry, and nothing otherwise. */
  lemma LeavesOfEntry(entries: seq<(string, Json)>, key: string, value: Json)
    requires LeavesFrom(Object(entries), 0).Ok?
    ensures LeavesFrom(Object([]), 0) == Ok([])
    ensures var before := LeavesFrom(Object(entries), 0).value;
            var all := LeavesFrom(Object(entries + [(key, value)]), 0);
            match value
            case Text(s) => all == Ok(before + if "0x" <= s then [(key, s)] else [])
            case Object(inner) =>
              && ((forall i :: 0 <= i < |inner| ==> inner[i].0 != "contracts") ==> all == Ok(before))
              && (forall i: nat :: IsContracts(inner, i) ==>
                    var nested := LeavesFrom(inner[i].1, 0);
                    if nested.Err? then all.Err? else all == Ok(before + nested.value))
            case _ => all == Ok(before)
  {
    LeavesAppend(entries, (key, value), 0);
    var data := Object(entries + [(key, value)]);
    assert EntriesOf(data)[|entries|] == (key, value);
    assert LeavesFrom(Object(entries), 0).value + [] == LeavesFrom(Object(entries), 0).value;
    if value.Object? {
      forall i: nat | IsContracts(value.entries, i) ensures Nested(value) == Some(value.entries[i].1) {
        ContractsAt(value.entries, i);
      }
    }
  }

  /** Null throws, texts and scalars hold no leaves, and an array is an object with its indices as keys. */
  lemma LeavesOfOthers(data: Json, items: seq<Json>)
    ensures LeavesFrom(Null, 0).Err?
    ensures data.Text? || data.Scalar? ==> LeavesFrom(data, 0) == Ok([])
    ensures var entries := seq(|items|, i requires 0 <= i < |items| => (IndexKey(i), items[i]));
            LeavesFrom(Array(items), 0) == LeavesFrom(Object(entries), 0)
  {
    var entries := seq(|items|, i requires 0 <= i < |items| => (IndexKey(i), items[i]));
    SameEntries(Array(items), Object(entries), 0);
  }

  lemma {:induction false} SameEntries(a: Json, b: Json, k: nat)
    requires !a.Null? && !b.Null? && EntriesOf(a) == EntriesOf(b) && k <= |EntriesOf(a)|
    ensures LeavesFrom(a, k) == LeavesFrom(b, k)
    decreases |EntriesOf(a)| - k
  {
    if k < |EntriesOf(a)| {
      SameEntries(a, b, k + 1);
      assert EntryLeaves(a, k) == EntryLeaves(b, k);
    }
  }

  /** The value of the last leaf with a key. */
  function LastLeaf(leaves: seq<Leaf>, key: string): Option<string> {
    if leaves == [] then None
    else if leaves[|leaves| - 1].0 == key then Some(leaves[|leaves| - 1].1)
    else LastLeaf(leaves[..|leaves| - 1], key)
  }

  /** A map gives every key its last leaf, and has no other key. */
  ghost predicate Merges(m: map<string, string>, leaves: seq<Leaf>) {
    forall key :: (key in m <==> LastLeaf(leaves, key).Some?) && (key in m ==> LastLeaf(leaves, key) == Some(m[key]))
  }

  lemma {:induction false} LastLeafConcat(a: seq<Leaf>, b: seq<Leaf>, key: string)
    ensures LastLeaf(a + b, key) == if LastLeaf(b, key).Some? then LastLeaf(b, key) else LastLeaf(a, key)
  {
    if b == [] {
      assert a + b == a;
    } else {
      assert (a + b)[..|a + b| - 1] == a + b[..|b| - 1];
      LastLeafConcat(a, b[..|b| - 1], key);
    }
  }

  /** Object.assign on merged maps merges the concatenation of their leaves. */
  lemma MergesConcat(m: map<string, string>, a: seq<Leaf>, n: map<string, string>, b: seq<Leaf>)
    requires Merges(m, a) && Merges(n, b)
    ensures Merges(m + n, a + b)
  {
    forall key {
      LastLeafConcat(a, b, key);
    }
  }

  // ---------- the code ----------

  method FlattenContracts(data: Json) returns (r: Result<map<string, string>, Thrown>)
    ensures r.Err? <==> LeavesFrom(data, 0).Err?
    ensures r.Ok? ==> Merges(r.value, LeavesFrom(data, 0).value)
    decreases data
  {
    if data.Null? { return Err(CannotConvertNull); }
    var result := map[];
    var entries := EntriesOf(data);
    ghost var done := [];
    assert Merges(result, done);
    var k := 0;
    while k < |entries|
      invariant k <= |entries| && Merges(result, done)
      invariant LeavesFrom(data, 0).Err? <==> LeavesFrom(data, k).Err?
      invariant LeavesFrom(data, k).Ok? ==> LeavesFrom(data, 0).value == done + LeavesFrom(data, k).value
    {
      var (key, value) := entries[k];
      LeavesNext(data, k, done);
      if value.Text? && "0x" <= value.s {
        MergesConcat(result, done, map[key := value.s], [(key, value.s)]);
        assert result + map[key := value.s] == result[key := value.s];
        result := result[key := value.s];
        done := done + [(key, value.s)];
      } else if Nested(value).Some? {
        var nested := FlattenContracts(Nested(value).value);
        if nested.Err? { return nested; }
        MergesConcat(result, done, nested.value, LeavesFrom(Nested(value).value, 0).value);
        result := result + nested.value;
        done := done + LeavesFrom(Nested(value).value, 0).value;
      } else {
        assert done + [] == done;
      }
      k := k + 1;
    }
    assert done + [] == done;
    r := Ok(result);
  }

  lemma LeavesNext(data: Json, k: nat, done: seq<Leaf>)
    requires !data.Null? && k < |EntriesOf(data)|
    ensures EntryLeaves(data, k).Err? ==> LeavesFrom(data, k).Err?
    ensures EntryLeaves(data, k).Ok? ==>
              && (LeavesFrom(data, k).Err? <==> LeavesFrom(data, k + 1).Err?)
              && (LeavesFrom(data, k).Ok? ==>
                    done + LeavesFrom(data, k).value
                    == (done + EntryLeaves(data, k).value) + LeavesFrom(data, k + 1).value)
  {
  }

  /** The leaves of all existing files, in the order in which the files are read. */
  function FileLeaves(files: seq<Option<Json>>): Result<seq<Leaf>, Thrown> {
    if files == [] then Ok([])
    else
      var before, file := FileLeaves(files[..|files| - 1]), files[|files| - 1];
      if before.Err? || file.None? then before
      else
        var leaves := LeavesFrom(file.value, 0);
        if leaves.Err? then leaves else Ok(before.value + leaves.value)
  }

  /** Every key gets its last matching leaf across all files; weth falls back to the predeploy. */
  method LoadDeployedContracts(files: seq<Option<Json>>) returns (r: Result<map<string, string>, Thrown>)
    ensures r.Err? <==> FileLeaves(files).Err?
    ensures r.Ok? ==> Merges(r.value, [("weth", WETH)] + FileLeaves(files).value)
  {
    var contracts := map["weth" := WETH];
    var k := 0;
    assert [("weth", WETH)] + [] == [("weth", WETH)];
    while k < |files|
      invariant k <= |files| && FileLeaves(files[..k]).Ok?
      invariant Merges(contracts, [("weth", WETH)] + FileLeaves(files[..k]).value)
    {
      assert files[..k + 1][..k] == files[..k];
      if files[k].Some? {
        var data := FlattenContracts(files[k].value);
        if data.Err? {
          FilesStopped(files, k + 1);
          return data;
        }
        ghost var before, leaves := FileLeaves(files[..k]).value, LeavesFrom(files[k].value, 0).value;
        MergesConcat(contracts, [("weth", WETH)] + before, data.value, leaves);
        assert ([("weth", WETH)] + before) + leaves == [("weth", WETH)] + (before + leaves);
        contracts := contracts + data.value;
      }
      k := k + 1;
    }
    assert files[..k] == files;
    r := Ok(contracts);
  }

  lemma {:induction false} FilesStopped(files: seq<Option<Json>>, k: nat)
    requires k <= |files| && FileLeaves(files[..k]).Err?
    ensures FileLeaves(files).Err?
    decreases |files|
  {
    if k < |files| {
      assert files[..|files| - 1][..k] == files[..k];
      FilesStopped(files[..|files| - 1], k);
    } else {
      assert files[..k] == files;
    }
  }

  /** What a look-up in the merged map gives. */
  lemma MergedLookup(files: seq<Option<Json>>, m: map<string, string>, key: string)
    requires FileLeaves(files).Ok? && Merges(m, [("weth", WETH)] + FileLeaves(files).value)
    ensures LastLeaf(FileLeaves(files).value, key).Some? ==>
                  key in m && m[key] == LastLeaf(FileLeaves(files).value, key).value
    ensures LastLeaf(FileLeaves(files).value, key).None? ==>
                  && (key in m <==> key == "weth")
                  && (key == "weth" ==> m[key] == "0x4200000000000000000000000000000000000006")
  {
    LastLeafConcat([("weth", WETH)], FileLeaves(files).value, key);
    assert LastLeaf([("weth", WETH)], key).Some? <==> key in map["weth" := WETH];
  }
}
