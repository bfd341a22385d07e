/** The iterative namehash of scripts/deploy/jns.ts, the recursive one of EIP-137 ("namehash
    algorithm"), and the registry set-up that relies on them. Keccak-256 and UTF-8 are arbitrary
    functions; what is assumed of them is said lemma by lemma. */
module Namehash {
  import opened Digits
  import opened Text
  import opened Transactions
  import Names

  type Bytes = seq<nat>

  type Node = b: Bytes | |b| == 32 witness Zeros(32)

  datatype Hashing = Hashing(keccak256: Bytes -> Node, utf8: string -> Bytes)

  const ROOT: Node := Zeros(32)

  function LabelHash(h: Hashing, lbl: string): Node {
    h.keccak256(h.utf8(lbl))
  }

  function Subnode(h: Hashing, node: Node, lbl: string): Node {
    h.keccak256(node + LabelHash(h, lbl))
  }

  /** EIP-137 on a list of labels, leaf first, continued from a given node. */
  function HashFrom(h: Hashing, node: Node, labels: seq<string>): Node {
    if labels == [] then node else Subnode(h, HashFrom(h, node, labels[1..]), labels[0])
  }

  /** The labels of a name, leaf first; the empty name is the root. */
  function Labels(name: string): seq<string> {
    if name == "" then [] else Split(name, '.')
  }

  function NamehashOf(h: Hashing, name: string): Node {
    HashFrom(h, ROOT, Labels(name))
  }

  function Reverse(s: seq<string>): (r: seq<string>)
    ensures |r| == |s| && forall i :: 0 <= i < |s| ==> r[i] == s[|s| - 1 - i]
  {
    if s == [] then [] else Reverse(s[1..]) + [s[0]]
  }

  /** The loop of the source computes the recursive definition. */
  method Namehash(h: Hashing, name: string) returns (node: Node)
    ensures node == NamehashOf(h, name)
  {
    node := ROOT;
    if name == "" { return; }
    ghost var split := Split(name, '.');
    var labels := Reverse(Split(name, '.'));
    assert split[|split|..] == [];
    for i := 0 to |labels|
      invariant node == HashFrom(h, ROOT, split[|split| - i..])
    {
      var labelHash := h.keccak256(h.utf8(labels[i]));
      node := h.keccak256(node + labelHash);
      assert split[|split| - (i + 1)..][1..] == split[|split| - i..];
    }
    assert split[0..] == split;
  }

  // ---------- structure ----------

  lemma {:induction false} HashFromConcat(h: Hashing, node: Node, a: seq<string>, b: seq<string>)
    ensures HashFrom(h, node, a + b) == HashFrom(h, HashFrom(h, node, b), a)
  {
    if a == [] {
      assert a + b == b;
    } else {
      HashFromConcat(h, node, a[1..], b);
      assert (a + b)[1..] == a[1..] + b;
    }
  }

  /** The hash of a name under a parent continues the fold from the parent's node. */
  lemma NamehashUnder(h: Hashing, name: string, parent: string)
    requires parent != ""
    ensures NamehashOf(h, name + "." + parent) == HashFrom(h, NamehashOf(h, parent), Split(name, '.'))
  {
    assert name + "." + parent == name + ['.'] + parent;
    SplitConcat(name, parent, '.');
    HashFromConcat(h, ROOT, Split(name, '.'), Split(parent, '.'));
  }

  lemma NamehashSubnode(h: Hashing, lbl: string, parent: string)
    requires '.' !in lbl && parent != ""
    ensures NamehashOf(h, lbl + "." + parent) == Subnode(h, NamehashOf(h, parent), lbl)
    ensures Labels(lbl + "." + parent) == [lbl] + Labels(parent)
  {
    SplitWithout(lbl, '.');
    assert [lbl][1..] == [];
    NamehashUnder(h, lbl, parent);
    assert lbl + "." + parent == lbl + ['.'] + parent;
    SplitConcat(lbl, parent, '.');
  }

  lemma TopLevelNode(h: Hashing, lbl: string)
    requires '.' !in lbl && lbl != ""
    ensures Labels(lbl) == [lbl]
    ensures NamehashOf(h, lbl) == Subnode(h, ROOT, lbl)
  {
    SplitWithout(lbl, '.');
    assert [lbl][1..] == [];
    assert HashFrom(h, ROOT, [lbl]) == Subnode(h, HashFrom(h, ROOT, []), lbl);
  }

  lemma NodeUnderJeju(h: Hashing, lbl: string)
    requires '.' !in lbl
    ensures NamehashOf(h, Names.FormatJNSName(lbl)) == Subnode(h, NamehashOf(h, "jeju"), lbl)
  {
    assert Names.FormatJNSName(lbl) == lbl + "." + "jeju";
    NamehashSubnode(h, lbl, "jeju");
  }

  /** The node of an accepted label is the subnode of "jeju" at its label hash. */
  lemma RegisteredNode(h: Hashing, lbl: string)
    requires Names.ValidateJNSName(lbl).Ok?
    ensures NamehashOf(h, Names.FormatJNSName(lbl)) == Subnode(h, NamehashOf(h, "jeju"), lbl)
  {
    Names.ValidLabelRoundTrip(lbl);
    NodeUnderJeju(h, lbl);
  }

  // ---------- EIP-137's own program ----------

  /** The reference program of EIP-137, which partitions the name at its first dot. */
  function EipNamehash(h: Hashing, name: string): Node
    decreases |name|
  {
    if name == "" then Zeros(32) else
      var i := IndexOf(name, ".");
      var lbl := if i == -1 then name else name[..i];
      var remainder := if i == -1 then "" else name[i + 1..];
      h.keccak256(EipNamehash(h, remainder) + h.keccak256(h.utf8(lbl)))
  }

  lemma FirstDot(name: string)
    ensures var i := IndexOf(name, ".");
            && ('.' in name <==> i != -1)
            && (i != -1 ==> i < |name| && name[i] == '.' && '.' !in name[..i])
            && (i != -1 ==> name == name[..i] + ['.'] + name[i + 1..])
  {
    var i := IndexOf(name, ".");
    forall j | 0 <= j < |name| && name[j] == '.' ensures "." <= name[j..] {
    }
    if i != -1 {
      assert name[i..][0] == '.';
    }
  }

  lemma {:induction false} EipWithoutTrailingDot(h: Hashing, name: string)
    requires name == "" || name[|name| - 1] != '.'
    ensures EipNamehash(h, name) == NamehashOf(h, name)
    decreases |name|
  {
    if name != "" {
      FirstDot(name);
      var i := IndexOf(name, ".");
      if i == -1 {
        TopLevelNode(h, name);
      } else {
        EipWithoutTrailingDot(h, name[i + 1..]);
        NamehashSubnode(h, name[..i], name[i + 1..]);
        assert name == name[..i] + "." + name[i + 1..];
      }
    }
  }

  lemma FirstDotAfter(lbl: string, remainder: string)
    requires '.' !in lbl
    ensures IndexOf(lbl + "." + remainder, ".") == |lbl|
  {
    var name := lbl + "." + remainder;
    FirstDot(name);
    forall j | 0 <= j < |lbl| ensures name[j] != '.' {
      assert name[j] == lbl[j] && lbl[j] in lbl;
    }
    assert name[|lbl|] == '.';
    assert "." <= name[|lbl|..];
  }

  lemma EipStep(h: Hashing, lbl: string, remainder: string)
    requires '.' !in lbl
    ensures EipNamehash(h, lbl + "." + remainder) == Subnode(h, EipNamehash(h, remainder), lbl)
  {
    var name := lbl + "." + remainder;
    FirstDotAfter(lbl, remainder);
    assert name[..|lbl|] == lbl && name[|lbl| + 1..] == remainder;
  }

  lemma EipDottedLabel(h: Hashing, name: string)
    requires '.' !in name
    ensures EipNamehash(h, name + ".") == HashFrom(h, ROOT, Split(name, '.'))
  {
    EipStep(h, name, "");
    assert name + "." + "" == name + ".";
    SplitWithout(name, '.');
  }

  lemma EipDottedMore(h: Hashing, lbl: string, rest: string)
    requires '.' !in lbl && EipNamehash(h, rest + ".") == HashFrom(h, ROOT, Split(rest, '.'))
    ensures EipNamehash(h, lbl + "." + (rest + ".")) == HashFrom(h, ROOT, Split(lbl + ['.'] + rest, '.'))
  {
    EipStep(h, lbl, rest + ".");
    SplitConcat(lbl, rest, '.');
    SplitWithout(lbl, '.');
    HashFromConcat(h, ROOT, [lbl], Split(rest, '.'));
  }

  lemma DotAtEnd(name: string, lbl: string, rest: string)
    requires name == lbl + ['.'] + rest
    ensures name + "." == lbl + "." + (rest + ".")
  {
  }

  /** With a dot at the end the reference program drops the last, empty label. */
  lemma {:induction false} EipWithTrailingDot(h: Hashing, name: string)
    ensures EipNamehash(h, name + ".") == HashFrom(h, ROOT, Split(name, '.'))
    decreases |name|
  {
    FirstDot(name);
    var i := IndexOf(name, ".");
    if i == -1 {
      EipDottedLabel(h, name);
    } else {
      var lbl, rest := name[..i], name[i + 1..];
      DotAtEnd(name, lbl, rest);
      EipWithTrailingDot(h, rest);
      EipDottedMore(h, lbl, rest);
    }
  }

  // ---------- collisions ----------

  /** Every byte string hashed while computing the node of these labels. */
  ghost function Inputs(h: Hashing, labels: seq<string>): set<Bytes> {
    if labels == [] then {} else
      Inputs(h, labels[1..]) + {h.utf8(labels[0]), HashFrom(h, ROOT, labels[1..]) + LabelHash(h, labels[0])}
  }

  /** Keccak-256 has no collision on these inputs and maps none of them to the zero node. */
  ghost predicate CollisionFree(h: Hashing, inputs: set<Bytes>) {
    && (forall x, y :: x in inputs && y in inputs && h.keccak256(x) == h.keccak256(y) ==> x == y)
    && (forall x :: x in inputs ==> h.keccak256(x) != ROOT)
  }

  ghost predicate Utf8Injective(h: Hashing) {
    forall s, t :: h.utf8(s) == h.utf8(t) ==> s == t
  }

  lemma {:induction false} LabelsInjective(h: Hashing, a: seq<string>, b: seq<string>)
    requires Utf8Injective(h) && CollisionFree(h, Inputs(h, a) + Inputs(h, b))
    requires HashFrom(h, ROOT, a) == HashFrom(h, ROOT, b)
    ensures a == b
  {
    if a != [] && b != [] {
      var na, nb := HashFrom(h, ROOT, a[1..]), HashFrom(h, ROOT, b[1..]);
      var x, y := na + LabelHash(h, a[0]), nb + LabelHash(h, b[0]);
      assert x in Inputs(h, a) && y in Inputs(h, b);
      assert x == y;
      assert na == x[..32] == y[..32] == nb;
      assert LabelHash(h, a[0]) == x[32..] == y[32..] == LabelHash(h, b[0]);
      assert h.utf8(a[0]) in Inputs(h, a) && h.utf8(b[0]) in Inputs(h, b);
      LabelsInjective(h, a[1..], b[1..]);
      assert a == [a[0]] + a[1..] && b == [b[0]] + b[1..];
    }
  }

  /** Two names with the same node are the same name, unless Keccak-256 collides, or gives zero, on
      one of the byte strings hashed for these two names. */
  lemma NamehashInjective(h: Hashing, s: string, t: string)
    requires Utf8Injective(h) && CollisionFree(h, Inputs(h, Labels(s)) + Inputs(h, Labels(t)))
    requires NamehashOf(h, s) == NamehashOf(h, t)
    ensures s == t
  {
    LabelsInjective(h, Labels(s), Labels(t));
    if s != "" && t != "" {
      SplitInjective(s, t, '.');
    }
  }

  /** The source agrees with EIP-137's program on a name exactly when the name has no dot at its end. */
  lemma AgreesWithEip(h: Hashing, name: string)
    requires Utf8Injective(h)
    requires name != "" ==> CollisionFree(h, Inputs(h, Split(name, '.')) + Inputs(h, Split(name[..|name| - 1], '.')))
    ensures NamehashOf(h, name) == EipNamehash(h, name) <==> name == "" || name[|name| - 1] != '.'
  {
    if name == "" || name[|name| - 1] != '.' {
      EipWithoutTrailingDot(h, name);
    } else {
      var body := name[..|name| - 1];
      assert name == body + ".";
      EipWithTrailingDot(h, body);
      if NamehashOf(h, name) == EipNamehash(h, name) {
        LabelsInjective(h, Split(name, '.'), Split(body, '.'));
        SplitInjective(name, body, '.');
      }
    }
  }

  // ---------- the registry set-up ----------

  type Address = nat

  /** The name registry contract: a node's owner, and the operators the owner approved, may set the
      owner of its subnodes. */
  class Registry {
    var owners: map<Node, Address>
    var approvals: set<(Address, Address)>

    constructor (deployer: Address)
      ensures owners == map[ROOT := deployer] && approvals == {}
      ensures forall node, caller :: Authorised(node, caller) <==> caller == if node == ROOT then deployer else 0
    {
      owners, approvals := map[ROOT := deployer], {};
    }

    /** A node without a record is owned by the zero address. */
    function OwnerOf(node: Node): Address
      reads this
    {
      if node in owners then owners[node] else 0
    }

    predicate Authorised(node: Node, caller: Address)
      reads this
    {
      OwnerOf(node) == caller || (OwnerOf(node), caller) in approvals
    }

    method SetApprovalForAll(caller: Address, operator: Address, approved: bool)
      modifies this`approvals
      ensures forall node, other :: Authorised(node, other) <==>
                if OwnerOf(node) == caller && other == operator then approved || caller == operator
                else old(Authorised(node, other))
    {
      approvals := if approved then approvals + {(caller, operator)} else approvals - {(caller, operator)};
    }

    /** A transaction of the caller: it reverts unless the caller is authorised, and otherwise its
        fate is given; ok is false if sending it or waiting for it throws. */
    method SetSubnodeOwner(h: Hashing, caller: Address, node: Node, labelHash: Node, owner: Address, fate: Fate)
      returns (ok: bool)
      modifies this`owners
      ensures ok <==> old(Authorised(node, caller)) && fate == Confirmed
      ensures owners == if old(Authorised(node, caller)) && fate != Rejected
                        then old(owners)[h.keccak256(node + labelHash) := owner] else old(owners)
    {
      if !Authorised(node, caller) || fate == Rejected { return false; }
      owners := owners[h.keccak256(node + labelHash) := owner];
      ok := fate == Confirmed;
    }
  }

  /** No Keccak-256 collision among everything hashed for two top-level names and one below the second. */
  ghost predicate SetUpCollisionFree(h: Hashing, tld: string, reverse: string, addr: string) {
    && Utf8Injective(h)
    && CollisionFree(h, Inputs(h, [tld]) + Inputs(h, [reverse]) + Inputs(h, [addr, reverse]))
  }

  /** The root and the three nodes are four different nodes. */
  lemma SetUpDistinct(h: Hashing, tld: string, reverse: string, addr: string)
    requires SetUpCollisionFree(h, tld, reverse, addr) && tld != reverse
    ensures var j, r := Subnode(h, ROOT, tld), Subnode(h, ROOT, reverse);
            var a := Subnode(h, r, addr);
            j != r && j != a && r != a && ROOT != j && ROOT != r && ROOT != a
  {
    var j, r, a := [tld], [reverse], [addr, reverse];
    assert j[1..] == [] && r[1..] == [] && a[1..] == r;
    var all := Inputs(h, j) + Inputs(h, r) + Inputs(h, a);
    Different(h, j, r, all);
    Different(h, j, a, all);
    Different(h, r, a, all);
  }

  lemma Different(h: Hashing, a: seq<string>, b: seq<string>, inputs: set<Bytes>)
    requires Utf8Injective(h) && CollisionFree(h, inputs)
    requires Inputs(h, a) <= inputs && Inputs(h, b) <= inputs && a != b
    ensures HashFrom(h, ROOT, a) != HashFrom(h, ROOT, b)
  {
    if HashFrom(h, ROOT, a) == HashFrom(h, ROOT, b) {
      LabelsInjective(h, a, b);
    }
  }

  /** How many of the three transactions take effect when every one is authorised: those before the
      first throw, and the throwing one if only the waiting threw. */
  function TakeEffect(fates: seq<Fate>): (n: nat)
    ensures n <= |fates|
  {
    if fates == [] || fates[0] == Rejected then 0
    else if fates[0] == Unconfirmed then 1
    else 1 + TakeEffect(fates[1..])
  }

  /** The calls of main that hand out a top-level namespace and one below another top-level name;
      main passes "jeju", "reverse" and "addr". They go through exactly when the wallet may act for
      the root and all three transactions are confirmed. They set these three owners and no other, or,
      when one throws, those of the transactions that took effect. */
  method SetUpRegistry(h: Hashing, registry: Registry, wallet: Address, registrar: Address, reverseRegistrar: Address,
                       tld: string, reverse: string, addr: string, first: Fate, second: Fate, third: Fate)
    returns (ok: bool)
    requires '.' !in tld && '.' !in reverse && '.' !in addr && tld != "" && reverse != "" && tld != reverse
    requires SetUpCollisionFree(h, tld, reverse, addr)
    modifies registry`owners
    ensures ok <==> old(registry.Authorised(ROOT, wallet)) && first == second == third == Confirmed
    ensures var n := if old(registry.Authorised(ROOT, wallet)) then TakeEffect([first, second, third]) else 0;
            && (n == 0 ==> registry.owners == old(registry.owners))
            && (n == 1 ==> registry.owners == old(registry.owners) + map[NamehashOf(h, tld) := registrar])
            && (n == 2 ==> registry.owners == old(registry.owners) + map[
                             NamehashOf(h, tld) := registrar,
                             NamehashOf(h, reverse) := wallet])
            && (n == 3 ==> registry.owners == old(registry.owners) + map[
                             NamehashOf(h, tld) := registrar,
                             NamehashOf(h, reverse) := wallet,
                             NamehashOf(h, addr + "." + reverse) := reverseRegistrar])
  {
    ghost var before := registry.owners;
    ghost var j, r, a := SetUpNodes(h, tld, reverse, addr);
    ThreeUpdates(before, j, registrar, r, wallet, a, reverseRegistrar);
    ThreeFates(first, second, third);
    ok := registry.SetSubnodeOwner(h, wallet, ROOT, LabelHash(h, tld), registrar, first);
    if !ok { return; }
    ok := registry.SetSubnodeOwner(h, wallet, ROOT, LabelHash(h, reverse), wallet, second);
    if !ok { return; }
    var reverseNode := Namehash(h, reverse);
    ok := registry.SetSubnodeOwner(h, wallet, reverseNode, LabelHash(h, addr), reverseRegistrar, third);
  }

  lemma ThreeFates(first: Fate, second: Fate, third: Fate)
    ensures TakeEffect([first, second, third])
         == if first != Confirmed then (if first == Rejected then 0 else 1)
            else if second != Confirmed then (if second == Rejected then 1 else 2)
            else if third == Rejected then 2 else 3
  {
    assert [first, second, third][1..] == [second, third];
    assert [second, third][1..] == [third];
    assert TakeEffect([third]) == if third == Rejected then 0 else 1;
    assert TakeEffect([second, third])
        == if second == Rejected then 0 else if second == Unconfirmed then 1 else 1 + TakeEffect([third]);
  }

  lemma ThreeUpdates(m: map<Node, Address>, j: Node, x: Address, r: Node, y: Address, a: Node, z: Address)
    requires j != r && j != a && r != a
    ensures m[j := x] == m + map[j := x]
    ensures m[j := x][r := y] == m + map[j := x, r := y]
    ensures m[j := x][r := y][a := z] == m + map[j := x, r := y, a := z]
  {
  }

  lemma SetUpNodes(h: Hashing, tld: string, reverse: string, addr: string) returns (j: Node, r: Node, a: Node)
    requires '.' !in tld && '.' !in reverse && '.' !in addr && tld != "" && reverse != "" && tld != reverse
    requires SetUpCollisionFree(h, tld, reverse, addr)
    ensures j == NamehashOf(h, tld) == h.keccak256(ROOT + LabelHash(h, tld))
    ensures r == NamehashOf(h, reverse) == h.keccak256(ROOT + LabelHash(h, reverse))
    ensures a == NamehashOf(h, addr + "." + reverse) == h.keccak256(r + LabelHash(h, addr))
    ensures j != r && j != a && r != a && ROOT != j && ROOT != r && ROOT != a
  {
    TopLevelNode(h, tld);
    TopLevelNode(h, reverse);
    NamehashSubnode(h, addr, reverse);
    SetUpDistinct(h, tld, reverse, addr);
    j, r, a := NamehashOf(h, tld), NamehashOf(h, reverse), NamehashOf(h, addr + "." + reverse);
  }
}
