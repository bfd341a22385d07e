/** Contract look-ups: the environment-key codec and precedence of packages/config/index.ts, and the
    key of packages/config/network.ts. */
module ConfigLookup {
  // ---------- environment keys ----------

  predicate IsUpper(c: char) { 'A' <= c <= 'Z' }

  predicate IsLower(c: char) { 'a' <= c <= 'z' }

  predicate IsDigit(c: char) { '0' <= c <= '9' }

  predicate IsName(s: string) {
    forall i :: 0 <= i < |s| ==> IsUpper(s[i]) || IsLower(s[i]) || IsDigit(s[i])
  }

  function UpperChar(c: char): char {
    if IsLower(c) then (c as int - 32) as char else c
  }

  function ToUpper(s: string): string {
    if s == "" then "" else [UpperChar(s[0])] + ToUpper(s[1..])
  }

  /** Puts an underscore in front of every capital. */
  function MarkCapitals(s: string): string {
    if s == "" then "" else (if IsUpper(s[0]) then ['_', s[0]] else [s[0]]) + MarkCapitals(s[1..])
  }

  /** toEnvKey of packages/config/index.ts. */
  function ToEnvKey(s: string): string {
    var key := ToUpper(MarkCapitals(s));
    if "_" <= key then key[1..] else key
  }

  /** The key of getContractAddress in packages/config/network.ts. */
  function AddressKey(s: string): string {
    ToUpper(MarkCapitals(s)) + "_ADDRESS"
  }

  /** Reads a marked key back: an underscore announces a capital. */
  function DecodeKey(key: string): string {
    if key == "" then ""
    else if key[0] == '_' && |key| >= 2 then [key[1]] + DecodeKey(key[2..])
    else [if IsUpper(key[0]) then (key[0] as int + 32) as char else key[0]] + DecodeKey(key[1..])
  }

  lemma UpperTwo(c: char, d: char, s: string)
    ensures ToUpper([d] + s) == [UpperChar(d)] + ToUpper(s)
    ensures ToUpper([c, d] + s) == [UpperChar(c), UpperChar(d)] + ToUpper(s)
  {
    assert ([d] + s)[1..] == s;
    assert ([c, d] + s)[1..] == [d] + s;
  }

  lemma UpperMarked(s: string)
    requires s != ""
    ensures ToUpper(MarkCapitals(s))
         == (if IsUpper(s[0]) then ['_', s[0]] else [UpperChar(s[0])]) + ToUpper(MarkCapitals(s[1..]))
  {
    UpperTwo('_', s[0], MarkCapitals(s[1..]));
  }

  lemma {:induction false} DecodeMarked(s: string)
    requires IsName(s)
    ensures DecodeKey(ToUpper(MarkCapitals(s))) == s
  {
    if s != "" {
      DecodeMarked(s[1..]);
      UpperMarked(s);
      assert s == [s[0]] + s[1..];
    }
  }

  /** On letter/digit names both files build the same key, and it can be decoded, exactly when the
      name does not start with a capital. */
  lemma EnvKeyFaithful(s: string)
    requires IsName(s)
    ensures DecodeKey(ToEnvKey(s)) == s <==> s == "" || !IsUpper(s[0])
    ensures AddressKey(s) == ToEnvKey(s) + "_ADDRESS" <==> s == "" || !IsUpper(s[0])
  {
    DecodeMarked(s);
    var key := ToUpper(MarkCapitals(s));
    if s == "" {
    } else if !IsUpper(s[0]) {
      assert MarkCapitals(s)[0] == s[0];
      assert key[0] == UpperChar(s[0]) != '_';
    } else {
      assert MarkCapitals(s)[0] == '_' && MarkCapitals(s)[1] == s[0];
      assert MarkCapitals(s)[1..][0] == s[0];
      assert key[0] == '_' && key[1] == s[0];
      assert key[1..][0] == s[0];
      assert DecodeKey(key[1..])[0] == (s[0] as int + 32) as char;
      assert |key + "_ADDRESS"| == |key[1..] + "_ADDRESS"| + 1;
    }
  }

  /** Two letter/digit names that do not start with a capital never share a key. */
  lemma EnvKeyInjective(s: string, t: string)
    requires IsName(s) && IsName(t) && (s == "" || !IsUpper(s[0])) && (t == "" || !IsUpper(t[0]))
    requires ToEnvKey(s) == ToEnvKey(t)
    ensures s == t
  {
    EnvKeyFaithful(s);
    EnvKeyFaithful(t);
  }

  /** The name with a leading capital lowered. */
  function Uncap(s: string): string {
    if s != "" && IsUpper(s[0]) then [(s[0] as int + 32) as char] + s[1..] else s
  }

  lemma UncapKeepsKey(s: string)
    requires IsName(s)
    ensures ToEnvKey(s) == ToEnvKey(Uncap(s))
    ensures IsName(Uncap(s)) && (Uncap(s) == "" || !IsUpper(Uncap(s)[0]))
  {
    if s != "" && IsUpper(s[0]) {
      UpperMarked(s);
      UpperMarked(Uncap(s));
      assert Uncap(s)[1..] == s[1..];
    } else if s != "" {
      assert IsName(Uncap(s));
    }
  }

  /** Two letter/digit names share a key exactly when they differ in the case of the first letter at most. */
  lemma EnvKeyShared(s: string, t: string)
    requires IsName(s) && IsName(t)
    ensures ToEnvKey(s) == ToEnvKey(t) <==> Uncap(s) == Uncap(t)
  {
    UncapKeepsKey(s);
    UncapKeepsKey(t);
    if ToEnvKey(s) == ToEnvKey(t) {
      EnvKeyInjective(Uncap(s), Uncap(t));
    }
  }

  /** So two names can share a key. */
  lemma CapitalNameClashes()
    ensures ToEnvKey("Ab") == ToEnvKey("ab")
  {
    assert "Ab"[1..] == "b" && "ab"[1..] == "b";
    EnvKeyShared("Ab", "ab");
  }

  // ---------- the text of a key ----------

  predicate NoCapitals(s: string) {
    forall i :: 0 <= i < |s| ==> !IsUpper(s[i])
  }

  lemma {:induction false} PlainKey(a: string, rest: string)
    requires NoCapitals(a)
    ensures ToUpper(MarkCapitals(a + rest)) == ToUpper(a) + ToUpper(MarkCapitals(rest))
  {
    if a == "" {
      assert a + rest == rest;
    } else {
      assert (a + rest)[1..] == a[1..] + rest;
      PlainKey(a[1..], rest);
      UpperMarked(a + rest);
    }
  }

  /** The key of a camel-case name is its words in capitals, joined by underscores. */
  lemma EnvKeyWords(first: string, rest: string)
    requires first != "" && first[0] != '_' && NoCapitals(first)
    requires rest != "" ==> IsUpper(rest[0])
    ensures ToEnvKey(first + rest) == ToUpper(first) + if rest == "" then "" else "_" + ToEnvKey(rest)
  {
    PlainKey(first, rest);
    assert first[0] == (first + rest)[0];
    assert ToUpper(first)[0] == UpperChar(first[0]) != '_';
    if rest != "" {
      UpperMarked(rest);
      var key := ToUpper(MarkCapitals(rest));
      assert key == "_" + key[1..];
    }
  }

  /** A leading capital is kept, and a leading underscore goes. */
  lemma EnvKeyStart(s: string)
    requires s != ""
    ensures IsUpper(s[0]) ==> ToEnvKey(s) == [s[0]] + ToUpper(MarkCapitals(s[1..]))
    ensures s[0] == '_' ==> ToEnvKey(s) == ToUpper(MarkCapitals(s[1..]))
  {
    UpperMarked(s);
  }

  // ---------- precedence ----------

  datatype Category = Tokens | Registry | Moderation | NodeStaking | Jns | Payments
      | Defi | Compute | Governance | Oif | Eil

  function CategoryName(c: Category): string {
    match c
    case Tokens => "tokens"
    case Registry => "registry"
    case Moderation => "moderation"
    case NodeStaking => "nodeStaking"
    case Jns => "jns"
    case Payments => "payments"
    case Defi => "defi"
    case Compute => "compute"
    case Governance => "governance"
    case Oif => "oif"
    case Eil => "eil"
  }

  type Environment = map<string, string>

  /** process.env[key] when it is set and not empty. */
  predicate Truthy(env: Environment, key: string) {
    key in env && env[key] != ""
  }

  function ViteKey(name: string): string { "VITE_" + ToEnvKey(name) + "_ADDRESS" }

  function NextKey(name: string): string { "NEXT_PUBLIC_" + ToEnvKey(name) + "_ADDRESS" }

  function CategoryKey(c: Category, name: string): string { ToUpper(CategoryName(c)) + ("_" + ToEnvKey(name)) }

  /** getContract, with the configured address (or "") as a parameter. */
  function GetContract(env: Environment, c: Category, name: string, configured: string): string {
    FirstSet(env, ViteKey(name), NextKey(name), CategoryKey(c, name), configured)
  }

  function FirstSet(env: Environment, vite: string, next: string, category: string, configured: string): string {
    if Truthy(env, vite) then env[vite]
    else if Truthy(env, next) then env[next]
    else if Truthy(env, category) then env[category]
    else configured
  }

  /** What a look-up gives: the first of the three variables that is set and not empty, and the
      configured address if none is. */
  lemma LookUp(env: Environment, c: Category, name: string, configured: string)
    ensures var vite := "VITE_" + ToEnvKey(name) + "_ADDRESS";
            var next := "NEXT_PUBLIC_" + ToEnvKey(name) + "_ADDRESS";
            var category := ToUpper(CategoryName(c)) + ("_" + ToEnvKey(name));
            var noVite, noNext := vite !in env || env[vite] == "", next !in env || env[next] == "";
            && (!noVite ==> GetContract(env, c, name, configured) == env[vite])
            && (noVite && !noNext ==> GetContract(env, c, name, configured) == env[next])
            && (noVite && noNext && category in env && env[category] != "" ==>
                  GetContract(env, c, name, configured) == env[category])
            && (noVite && noNext && (category !in env || env[category] == "") ==>
                  GetContract(env, c, name, configured) == configured)
  {
  }

  lemma {:induction false} UpperIs(s: string, t: string)
    requires |s| == |t| && forall i :: 0 <= i < |s| ==> UpperChar(s[i]) == t[i]
    ensures ToUpper(s) == t
  {
    if s != "" {
      UpperIs(s[1..], t[1..]);
      assert t == [t[0]] + t[1..];
    }
  }

  /** The categories in capitals. */
  lemma CategoryTexts(c: Category)
    ensures ToUpper(CategoryName(c)) == match c
                                        case Tokens => "TOKENS"
                                        case Registry => "REGISTRY"
                                        case Moderation => "MODERATION"
                                        case NodeStaking => "NODESTAKING"
                                        case Jns => "JNS"
                                        case Payments => "PAYMENTS"
                                        case Defi => "DEFI"
                                        case Compute => "COMPUTE"
                                        case Governance => "GOVERNANCE"
                                        case Oif => "OIF"
                                        case Eil => "EIL"
  {
    match c
    case Tokens => UpperIs("tokens", "TOKENS");
    case Registry => UpperIs("registry", "REGISTRY");
    case Moderation => UpperIs("moderation", "MODERATION");
    case NodeStaking => UpperIs("nodeStaking", "NODESTAKING");
    case Jns => UpperIs("jns", "JNS");
    case Payments => UpperIs("payments", "PAYMENTS");
    case Defi => UpperIs("defi", "DEFI");
    case Compute => UpperIs("compute", "COMPUTE");
    case Governance => UpperIs("governance", "GOVERNANCE");
    case Oif => UpperIs("oif", "OIF");
    case Eil => UpperIs("eil", "EIL");
  }

  /** Setting a key changes the look-up exactly when the key is one of the three, none before it is
      set, and the value is new. */
  lemma SetKey(env: Environment, vite: string, next: string, category: string, configured: string, key: string,
               address: string)
    requires address != "" && vite != next && vite != category && next != category
    ensures FirstSet(env[key := address], vite, next, category, configured)
         == FirstSet(env, vite, next, category, configured)
       <==> || key !in {vite, next, category}
            || (key != vite && Truthy(env, vite))
            || (key == category && Truthy(env, next))
            || FirstSet(env, vite, next, category, configured) == address
  {
  }

  lemma UpperFirstTwo(s: string)
    requires |s| >= 2
    ensures |ToUpper(s)| >= 2
    ensures ToUpper(s)[0] == UpperChar(s[0])
    ensures ToUpper(s)[1] == UpperChar(s[1])
  {
    assert ToUpper(s) == [UpperChar(s[0])] + ToUpper(s[1..]);
    assert ToUpper(s[1..])[0] == UpperChar(s[1..][0]);
  }

  /** The three families of keys never meet, whatever the names. */
  lemma KeyFamiliesDisjoint(a: string, b: string, c: Category, d: string)
    ensures ViteKey(a) != NextKey(b)
    ensures ViteKey(a) != CategoryKey(c, d)
    ensures NextKey(b) != CategoryKey(c, d)
  {
    UpperFirstTwo(CategoryName(c));
    assert ViteKey(a)[0] == 'V' && NextKey(b)[0] == 'N' && NextKey(b)[1] == 'E';
    assert CategoryKey(c, d)[0] == UpperChar(CategoryName(c)[0])
           && CategoryKey(c, d)[1] == UpperChar(CategoryName(c)[1]);
  }

  lemma UnwrapFront(prefix: string, a: string, b: string)
    requires prefix + a == prefix + b
    ensures a == b
  {
    assert (prefix + a)[|prefix|..] == a && (prefix + b)[|prefix|..] == b;
  }

  lemma Unwrap(prefix: string, a: string, b: string, suffix: string)
    requires prefix + a + suffix == prefix + b + suffix
    ensures a == b
  {
    var x, y := prefix + a + suffix, prefix + b + suffix;
    assert |a| == |b|;
    assert x[|prefix|..|prefix| + |a|] == a && y[|prefix|..|prefix| + |b|] == b;
  }

  lemma SharedKeys(name: string, other: string)
    ensures ViteKey(name) == ViteKey(other) <==> ToEnvKey(name) == ToEnvKey(other)
    ensures NextKey(name) == NextKey(other) <==> ToEnvKey(name) == ToEnvKey(other)
  {
    if ViteKey(name) == ViteKey(other) {
      Unwrap("VITE_", ToEnvKey(name), ToEnvKey(other), "_ADDRESS");
    }
    if NextKey(name) == NextKey(other) {
      Unwrap("NEXT_PUBLIC_", ToEnvKey(name), ToEnvKey(other), "_ADDRESS");
    }
  }

  /** Setting a VITE_ key changes the look-up of another name, in any category, exactly when the two
      names share their key and the value is not what the look-up gave. */
  lemma ViteOverride(env: Environment, name: string, address: string, c: Category, other: string, configured: string)
    requires address != ""
    ensures GetContract(env[ViteKey(name) := address], c, other, configured) == GetContract(env, c, other, configured)
       <==> ToEnvKey(name) != ToEnvKey(other) || GetContract(env, c, other, configured) == address
  {
    KeyFamiliesDisjoint(name, other, c, other);
    KeyFamiliesDisjoint(other, other, c, other);
    SharedKeys(name, other);
    SetKey(env, ViteKey(other), NextKey(other), CategoryKey(c, other), configured, ViteKey(name), address);
  }

  /** The same for a NEXT_PUBLIC_ key, unless the other name's VITE_ key is set. */
  lemma NextOverride(env: Environment, name: string, address: string, c: Category, other: string, configured: string)
    requires address != ""
    ensures GetContract(env[NextKey(name) := address], c, other, configured) == GetContract(env, c, other, configured)
       <==> || ToEnvKey(name) != ToEnvKey(other)
            || Truthy(env, ViteKey(other))
            || GetContract(env, c, other, configured) == address
  {
    KeyFamiliesDisjoint(other, name, c, other);
    KeyFamiliesDisjoint(other, other, c, other);
    SharedKeys(name, other);
    SetKey(env, ViteKey(other), NextKey(other), CategoryKey(c, other), configured, NextKey(name), address);
  }

  lemma CategoryKeyStart(c: Category, name: string)
    ensures |CategoryKey(c, name)| >= 2
    ensures CategoryKey(c, name)[..2] == CategoryStart(c)
  {
    UpperFirstTwo(CategoryName(c));
    StartOf(ToUpper(CategoryName(c)), "_" + ToEnvKey(name));
  }

  lemma StartOf(a: string, b: string)
    requires |a| >= 2
    ensures (a + b)[..2] == [a[0], a[1]]
  {
  }

  /** The first two characters of a category's keys. */
  function CategoryStart(c: Category): string {
    [UpperChar(CategoryName(c)[0]), UpperChar(CategoryName(c)[1])]
  }

  lemma StartNamesCategory(c: Category, d: Category)
    requires CategoryStart(c) == CategoryStart(d)
    ensures c == d
  {
    assert UpperChar(CategoryName(c)[0]) == CategoryStart(d)[0] && UpperChar(CategoryName(c)[1]) == CategoryStart(d)[1];
  }

  lemma CategoryKeyInjective(c: Category, a: string, d: Category, b: string)
    ensures CategoryKey(c, a) == CategoryKey(d, b) <==> c == d && ToEnvKey(a) == ToEnvKey(b)
  {
    CategoryKeyStart(c, a);
    CategoryKeyStart(d, b);
    if CategoryKey(c, a) == CategoryKey(d, b) {
      StartNamesCategory(c, d);
      UnwrapFront(ToUpper(CategoryName(c)), "_" + ToEnvKey(a), "_" + ToEnvKey(b));
      UnwrapFront("_", ToEnvKey(a), ToEnvKey(b));
    }
  }

  /** A category key reaches only its own category, and only where neither of the other keys is set. */
  lemma CategoryOverride(env: Environment, d: Category, name: string, address: string, c: Category, other: string,
                         configured: string)
    requires address != ""
    ensures GetContract(env[CategoryKey(d, name) := address], c, other, configured)
         == GetContract(env, c, other, configured)
       <==> || d != c
            || ToEnvKey(name) != ToEnvKey(other)
            || Truthy(env, ViteKey(other))
            || Truthy(env, NextKey(other))
            || GetContract(env, c, other, configured) == address
  {
    KeyFamiliesDisjoint(other, other, d, name);
    KeyFamiliesDisjoint(other, other, c, other);
    CategoryKeyInjective(d, name, c, other);
    SetKey(env, ViteKey(other), NextKey(other), CategoryKey(c, other), configured, CategoryKey(d, name), address);
  }

  /** Two categories with a contract of one name, such as jns and compute with their "registry": the
      VITE_ and NEXT_PUBLIC_ keys carry no category and replace both contracts at once, while the
      category key of one leaves the other alone. */
  lemma SharedName(env: Environment, c: Category, d: Category, name: string, address: string, configured: string)
    requires address != "" && c != d
    ensures GetContract(env[ViteKey(name) := address], d, name, configured) == address
    ensures GetContract(env[NextKey(name) := address], d, name, configured) == address
       <==> !Truthy(env, ViteKey(name)) || env[ViteKey(name)] == address
    ensures GetContract(env[CategoryKey(c, name) := address], d, name, configured)
         == GetContract(env, d, name, configured)
  {
    KeyFamiliesDisjoint(name, name, d, name);
    CategoryOverride(env, c, name, address, d, name, configured);
  }
}
