/** The line-by-line parser of scripts/check-vendor-security.ts and its block specification. */
module AuditParser {
  import opened Wrappers
  import opened Text

  datatype Severity = High | Critical

  datatype Vulnerability = Vulnerability(package: string, severity: Severity, title: string, path: string)

  // ---------- the three patterns ----------

  /** The white space of JavaScript's patterns. */
  predicate IsSpace(c: char) {
    || 9 <= c as int <= 13 || c == ' ' || c as int == 0xA0 || c as int == 0x1680
    || 0x2000 <= c as int <= 0x200A || c as int == 0x2028 || c as int == 0x2029
    || c as int == 0x202F || c as int == 0x205F || c as int == 0x3000 || c as int == 0xFEFF
  }

  /** The characters `.` does not match. */
  predicate IsTerminator(c: char) {
    c as int == 10 || c as int == 13 || c as int == 0x2028 || c as int == 0x2029
  }

  /** Both as lists of characters: white space and line terminators of ECMAScript, sections 12.2 and 12.3. */
  lemma SpaceCharacters(c: char)
    ensures IsTerminator(c) <==> c in "\n\r\U{2028}\U{2029}"
    ensures IsSpace(c) <==>
            || IsTerminator(c) || c in "\t\U{0B}\U{0C}\U{FEFF} \U{A0}\U{1680}\U{202F}\U{205F}\U{3000}"
            || '\U{2000}' <= c <= '\U{200A}'
  {
  }

  /** End of the run of spaces (or of non-spaces) that starts at k. */
  function RunEnd(s: string, k: nat, spaces: bool): (e: nat)
    requires k <= |s|
    ensures k <= e <= |s|
    ensures forall i :: k <= i < e ==> IsSpace(s[i]) == spaces
    ensures e < |s| ==> IsSpace(s[e]) != spaces
    decreases |s| - k
  {
    if k < |s| && IsSpace(s[k]) == spaces then RunEnd(s, k + 1, spaces) else k
  }

  /** One of <=, >= and ~ and then a digit or a dot at the start. */
  predicate RangeFollows(tail: string) {
    var k := if "<=" <= tail || ">=" <= tail then 2 else if "~" <= tail then 1 else 0;
    k > 0 && k < |tail| && ('0' <= tail[k] <= '9' || tail[k] == '.')
  }

  /** The header pattern: non-spaces, spaces, an operator and a version. Its fourth operator, written ^,
      is an anchor, which never matches there. */
  function PackageMatch(line: string): (r: Option<string>)
    ensures r.Some? ==> r.value != "" && r.value <= line && forall c :: c in r.value ==> !IsSpace(c)
  {
    var i := RunEnd(line, 0, false);
    var j := RunEnd(line, i, true);
    if i == 0 || j == i || !RangeFollows(line[j..]) then None else Some(line[..i])
  }

  predicate AllSpaces(s: string, spaces: bool) {
    forall i :: 0 <= i < |s| ==> IsSpace(s[i]) == spaces
  }

  lemma {:induction false} RunEndIs(s: string, k: nat, e: nat, spaces: bool)
    requires k <= e <= |s| && (e < |s| ==> IsSpace(s[e]) != spaces)
    requires forall i :: k <= i < e ==> IsSpace(s[i]) == spaces
    ensures RunEnd(s, k, spaces) == e
    decreases e - k
  {
    if k < e { RunEndIs(s, k + 1, e, spaces); }
  }

  /** A line cut as the header pattern reads it. */
  predicate IsPackageLine(line: string, package: string, gap: string, op: string, rest: string) {
    && line == package + gap + op + rest
    && package != "" && AllSpaces(package, false) && gap != "" && AllSpaces(gap, true)
    && (op == "<=" || op == ">=" || op == "~")
    && rest != "" && ('0' <= rest[0] <= '9' || rest[0] == '.')
  }

  /** A package is found exactly when the line has it, spaces, one of <=, >= and ~, and a version. */
  lemma PackageMeaning(line: string, package: string)
    ensures PackageMatch(line) == Some(package) <==> exists gap, op, rest :: IsPackageLine(line, package, gap, op, rest)
  {
    if PackageMatch(line) == Some(package) {
      var gap, op, rest := PackageParts(line, package);
    }
    if gap, op, rest :| IsPackageLine(line, package, gap, op, rest) {
      PackageFound(line, package, gap, op, rest);
    }
  }

  lemma PackageParts(line: string, package: string) returns (gap: string, op: string, rest: string)
    requires PackageMatch(line) == Some(package)
    ensures IsPackageLine(line, package, gap, op, rest)
  {
    var i := RunEnd(line, 0, false);
    var j := RunEnd(line, i, true);
    gap := line[i..j];
    op, rest := OperatorParts(line[j..]);
  }

  lemma OperatorParts(tail: string) returns (op: string, rest: string)
    requires RangeFollows(tail)
    ensures tail == op + rest && (op == "<=" || op == ">=" || op == "~")
    ensures rest != "" && ('0' <= rest[0] <= '9' || rest[0] == '.')
  {
    op := if "<=" <= tail then "<=" else if ">=" <= tail then ">=" else "~";
    rest := tail[|op|..];
  }

  /** Where the runs of a line end that is cut into non-spaces, spaces and the rest. */
  lemma CutRuns(line: string, package: string, gap: string, tail: string)
    requires line == package + gap + tail && AllSpaces(package, false) && AllSpaces(gap, true) && gap != ""
    requires tail != "" && !IsSpace(tail[0])
    ensures RunEnd(line, 0, false) == |package|
    ensures RunEnd(line, |package|, true) == |package| + |gap|
    ensures line[..|package|] == package && line[|package| + |gap|..] == tail
  {
    var i, j := |package|, |package| + |gap|;
    assert forall k :: 0 <= k < i ==> line[k] == package[k];
    assert forall k :: i <= k < j ==> line[k] == gap[k - i];
    assert line[j] == tail[0];
    RunEndIs(line, 0, i, false);
    RunEndIs(line, i, j, true);
  }

  lemma RangeFound(op: string, rest: string)
    requires op == "<=" || op == ">=" || op == "~"
    requires rest != "" && ('0' <= rest[0] <= '9' || rest[0] == '.')
    ensures RangeFollows(op + rest) && !IsSpace((op + rest)[0])
  {
    var tail := op + rest;
    assert tail[0] == op[0] && tail[|op|] == rest[0];
    assert tail[..|op|] == op;
  }

  lemma PackageFound(line: string, package: string, gap: string, op: string, rest: string)
    requires IsPackageLine(line, package, gap, op, rest)
    ensures PackageMatch(line) == Some(package)
  {
    RangeFound(op, rest);
    CutRuns(line, package, gap, op + rest);
  }

  /** So a caret range, which the fourth alternative was meant for, is never a package header. */
  lemma CaretRangeIsNoHeader(package: string, gap: string, range: string)
    requires package != "" && AllSpaces(package, false) && gap != "" && AllSpaces(gap, true)
    ensures PackageMatch(package + gap + ("^" + range)).None?
  {
    CutRuns(package + gap + ("^" + range), package, gap, "^" + range);
  }

  /** The path pattern: spaces, "workspace:" and the longest run of non-spaces. */
  function PathMatch(line: string): (r: Option<string>)
    ensures r.Some? ==> r.value != ""
  {
    var j := RunEnd(line, 0, true);
    if j == 0 || !("workspace:" <= line[j..]) then None
    else
      var e := RunEnd(line, j + 10, false);
      if e > j + 10 then Some(line[j + 10..e]) else None
  }

  function WordAt(line: string, k: nat): Option<Severity> {
    if k + 5 <= |line| && Lower(line[k..k + 5]) == "high:" then Some(High)
    else if k + 9 <= |line| && Lower(line[k..k + 9]) == "critical:" then Some(Critical)
    else None
  }

  function WordLength(s: Severity): nat {
    match s case High => 5 case Critical => 9
  }

  function TitleEnd(line: string, k: nat): (e: nat)
    requires k <= |line|
    ensures k <= e <= |line|
    decreases |line| - k
  {
    if k < |line| && !IsTerminator(line[k]) then TitleEnd(line, k + 1) else k
  }

  function TrimStart(s: string): string {
    if s != "" && IsSpace(s[0]) then TrimStart(s[1..]) else s
  }

  function TrimEnd(s: string): string {
    if s != "" && IsSpace(s[|s| - 1]) then TrimEnd(s[..|s| - 1]) else s
  }

  function Trim(s: string): string {
    TrimEnd(TrimStart(s))
  }

  /** Spaces and a title after the colon: the title starts behind the spaces, or, when nothing follows them,
      at a space the first group gives back, which trimming removes. */
  function TitleAt(line: string, k: nat): Option<string>
    requires k <= |line|
  {
    var m := RunEnd(line, k, true);
    if m == k then None
    else if m < |line| then Some(Trim(line[m..TitleEnd(line, m)]))
    else if exists p :: k < p < m && !IsTerminator(line[p]) then Some("")
    else None
  }

  /** The severity and title that the pattern reads at j, where its word would start. */
  function Candidate(line: string, j: nat): Option<(Severity, string)>
    requires j <= |line|
  {
    match WordAt(line, j)
    case None => None
    case Some(severity) =>
      match TitleAt(line, j + WordLength(severity))
      case None => None
      case Some(title) => Some((severity, title))
  }

  /** The leftmost match at or after k of spaces, a severity word with its colon, spaces and a title. */
  function SeverityFrom(line: string, k: nat): Option<(Severity, string)>
    requires k <= |line|
    decreases |line| - k
  {
    if k == |line| then None
    else
      var j := RunEnd(line, k, true);
      var found := if j > k then Candidate(line, j) else None;
      if found.Some? then found else SeverityFrom(line, k + 1)
  }

  function SeverityMatch(line: string): Option<(Severity, string)> {
    SeverityFrom(line, 0)
  }

  predicate IsPathLine(line: string, gap: string, path: string, rest: string) {
    && line == gap + "workspace:" + path + rest
    && gap != "" && AllSpaces(gap, true) && path != "" && AllSpaces(path, false)
    && (rest != "" ==> IsSpace(rest[0]))
  }

  /** A path is the whole run of non-spaces after leading spaces and "workspace:". */
  lemma PathMeaning(line: string, path: string)
    ensures PathMatch(line) == Some(path) <==> exists gap, rest :: IsPathLine(line, gap, path, rest)
  {
    if PathMatch(line) == Some(path) {
      var j := RunEnd(line, 0, true);
      var e := RunEnd(line, j + 10, false);
      assert line[j..j + 10] == "workspace:";
      assert line == line[..j] + line[j..j + 10] + line[j + 10..e] + line[e..];
      assert IsPathLine(line, line[..j], path, line[e..]);
    }
    if gap, rest :| IsPathLine(line, gap, path, rest) {
      PathFound(line, gap, path, rest);
    }
  }

  lemma PathFound(line: string, gap: string, path: string, rest: string)
    requires IsPathLine(line, gap, path, rest)
    ensures PathMatch(line) == Some(path)
  {
    PathRuns(line, gap, path, rest);
    assert line[|gap|..] == "workspace:" + (path + rest);
    assert line[|gap| + 10..|gap| + 10 + |path|] == path;
  }

  lemma PathRuns(line: string, gap: string, path: string, rest: string)
    requires IsPathLine(line, gap, path, rest)
    ensures RunEnd(line, 0, true) == |gap|
    ensures RunEnd(line, |gap| + 10, false) == |gap| + 10 + |path|
  {
    var j, e := |gap|, |gap| + 10 + |path|;
    assert line[j] == "workspace:"[0] == 'w';
    assert forall k :: j + 10 <= k < e ==> line[k] == path[k - j - 10];
    assert e < |line| ==> line[e] == rest[0];
    RunEndIs(line, 0, j, true);
    RunEndIs(line, j + 10, e, false);
  }

  lemma WordIsNoSpace(line: string, j: nat)
    requires WordAt(line, j).Some?
    ensures j < |line| && !IsSpace(line[j])
  {
    if j + 5 <= |line| { assert Lower(line[j..j + 5])[0] == LowerChar(line[j]); }
    if j + 9 <= |line| { assert Lower(line[j..j + 9])[0] == LowerChar(line[j]); }
  }

  type Candidates = seq<Option<(Severity, string)>>

  function SpacedCandidate(line: string, j: nat): Option<(Severity, string)>
    requires j <= |line|
  {
    if 1 <= j && IsSpace(line[j - 1]) then Candidate(line, j) else None
  }

  /** What the pattern reads at every position that follows a space. */
  function CandidatesOf(line: string): (cs: Candidates)
    ensures |cs| == |line| + 1
  {
    seq(|line| + 1, j requires 0 <= j <= |line| => SpacedCandidate(line, j))
  }

  /** Only the position right behind the run of spaces at k can hold a candidate of that run. */
  lemma RunCandidates(line: string, k: nat)
    requires k < |line|
    ensures var cs, j := CandidatesOf(line), RunEnd(line, k, true);
            && (forall i :: k < i < j ==> cs[i].None?)
            && (j == k ==> cs[k + 1].None?)
            && (j > k ==> cs[j] == Candidate(line, j))
  {
    forall i | k < i < RunEnd(line, k, true) ensures CandidatesOf(line)[i].None? {
      if WordAt(line, i).Some? { WordIsNoSpace(line, i); }
    }
  }

  /** What is found is the first candidate after k. */
  ghost predicate FirstAfter(cs: Candidates, k: nat, found: Option<(Severity, string)>) {
    match found
    case None => forall i :: k < i < |cs| ==> cs[i].None?
    case Some(_) => exists j: nat :: IsFirst(cs, k, j) && cs[j] == found
  }

  predicate IsFirst(cs: Candidates, k: nat, j: nat) {
    k < j < |cs| && cs[j].Some? && forall i :: k < i < j ==> cs[i].None?
  }

  lemma FirstHereOrLater(cs: Candidates, k: nat, j: nat, later: Option<(Severity, string)>)
    requires k <= j < |cs| && k + 1 < |cs| && forall i :: k < i < j ==> cs[i].None?
    requires j == k ==> cs[k + 1].None?
    requires FirstAfter(cs, k + 1, later)
    ensures FirstAfter(cs, k, if j > k && cs[j].Some? then cs[j] else later)
  {
    if j > k && cs[j].Some? {
      assert IsFirst(cs, k, j);
    } else if later.Some? {
      var i: nat :| IsFirst(cs, k + 1, i) && cs[i] == later;
      assert IsFirst(cs, k, i);
    }
  }

  lemma {:induction false} SeverityFromMeaning(line: string, k: nat)
    requires k <= |line|
    ensures FirstAfter(CandidatesOf(line), k, SeverityFrom(line, k))
    decreases |line| - k
  {
    if k < |line| {
      SeverityFromMeaning(line, k + 1);
      RunCandidates(line, k);
      FirstHereOrLater(CandidatesOf(line), k, RunEnd(line, k, true), SeverityFrom(line, k + 1));
    }
  }

  // ---------- what the severity pattern means ----------

  /** What String.trim leaves of s: everything between its leading and trailing spaces. */
  ghost predicate IsTrimmed(s: string, t: string) {
    && (t != "" ==> !IsSpace(t[0]) && !IsSpace(t[|t| - 1]))
    && exists a, b :: AllSpaces(a, true) && AllSpaces(b, true) && s == a + t + b
  }

  lemma TrimStartParts(s: string) returns (a: string)
    ensures AllSpaces(a, true) && s == a + TrimStart(s)
    ensures TrimStart(s) != "" ==> !IsSpace(TrimStart(s)[0])
  {
    if s != "" && IsSpace(s[0]) {
      var rest := TrimStartParts(s[1..]);
      a := [s[0]] + rest;
    } else {
      a := "";
    }
  }

  lemma TrimEndParts(s: string) returns (b: string)
    ensures AllSpaces(b, true) && s == TrimEnd(s) + b
    ensures TrimEnd(s) != "" ==> !IsSpace(TrimEnd(s)[|TrimEnd(s)| - 1])
  {
    if s != "" && IsSpace(s[|s| - 1]) {
      var rest := TrimEndParts(s[..|s| - 1]);
      b := rest + [s[|s| - 1]];
    } else {
      b := "";
    }
  }

  lemma {:induction false} TrimStartOf(a: string, t: string)
    requires AllSpaces(a, true) && (t != "" ==> !IsSpace(t[0]))
    ensures TrimStart(a + t) == t
  {
    if a == "" {
      assert a + t == t;
    } else {
      TrimStartOf(a[1..], t);
      assert (a + t)[1..] == a[1..] + t;
    }
  }

  lemma {:induction false} TrimEndOf(t: string, b: string)
    requires AllSpaces(b, true) && (t != "" ==> !IsSpace(t[|t| - 1]))
    ensures TrimEnd(t + b) == t
  {
    if b == "" {
      assert t + b == t;
    } else {
      TrimEndOf(t, b[..|b| - 1]);
      assert (t + b)[..|t + b| - 1] == t + b[..|b| - 1];
    }
  }

  lemma TrimMeaning(s: string, t: string)
    ensures Trim(s) == t <==> IsTrimmed(s, t)
  {
    if Trim(s) == t {
      var a := TrimStartParts(s);
      var b := TrimEndParts(TrimStart(s));
      assert s == a + t + b;
      assert t != "" ==> t[0] == TrimStart(s)[0];
    }
    if IsTrimmed(s, t) {
      var a, b :| AllSpaces(a, true) && AllSpaces(b, true) && s == a + t + b;
      TrimOf(a, t, b);
    }
  }

  lemma TrimOf(a: string, t: string, b: string)
    requires AllSpaces(a, true) && AllSpaces(b, true) && (t != "" ==> !IsSpace(t[0]) && !IsSpace(t[|t| - 1]))
    ensures Trim(a + t + b) == t
  {
    if t == "" {
      assert a + t + b == (a + b) + "";
      TrimStartOf(a + b, "");
    } else {
      assert a + t + b == a + (t + b);
      TrimStartOf(a, t + b);
      TrimEndOf(t, b);
    }
  }

  /** The title group can start at p: spaces from k to p, and a character that `.` matches at p. */
  predicate TitleCanStart(line: string, k: nat, p: nat) {
    k < p < |line| && !IsTerminator(line[p]) && forall i :: k <= i < p ==> IsSpace(line[i])
  }

  /** The group runs from p to the first terminator or the end of the line, e. */
  predicate GroupIs(line: string, p: nat, e: nat) {
    && p < e <= |line|
    && (forall i :: p <= i < e ==> !IsTerminator(line[i]))
    && (e < |line| ==> IsTerminator(line[e]))
  }

  /** The greedy \s+(.+) matches from k on, and trimming its group gives t. */
  ghost predicate HasTitle(line: string, k: nat, t: string) {
    exists p: nat, e: nat :: GreatestStart(line, k, p) && GroupIs(line, p, e) && IsTrimmed(line[p..e], t)
  }

  ghost predicate GreatestStart(line: string, k: nat, p: nat) {
    TitleCanStart(line, k, p) && forall q: nat :: TitleCanStart(line, k, q) ==> q <= p
  }

  lemma {:induction false} TitleEndIs(line: string, k: nat, e: nat)
    requires k <= e <= |line| && (e < |line| ==> IsTerminator(line[e]))
    requires forall i :: k <= i < e ==> !IsTerminator(line[i])
    ensures TitleEnd(line, k) == e
    decreases e - k
  {
    if k < e { TitleEndIs(line, k + 1, e); }
  }

  lemma {:induction false} TitleEndGroup(line: string, p: nat)
    requires p < |line| && !IsTerminator(line[p])
    ensures GroupIs(line, p, TitleEnd(line, p))
    decreases |line| - p
  {
    if p + 1 < |line| && !IsTerminator(line[p + 1]) {
      TitleEndGroup(line, p + 1);
    }
  }

  /** Starts lie inside the run of spaces, or right behind it. */
  lemma StartsInRun(line: string, k: nat, p: nat)
    requires k <= |line|
    ensures var m := RunEnd(line, k, true);
            TitleCanStart(line, k, p) <==> k < p <= m && p < |line| && !IsTerminator(line[p])
  {
  }

  /** The greatest start, if there is one, and the title it gives. */
  lemma {:induction false} LastStart(line: string, k: nat, m: nat) returns (p: nat)
    requires exists q: nat :: q <= m && TitleCanStart(line, k, q)
    ensures p <= m && TitleCanStart(line, k, p)
    ensures forall q: nat :: q <= m && TitleCanStart(line, k, q) ==> q <= p
    decreases m
  {
    if TitleCanStart(line, k, m) {
      p := m;
    } else {
      p := LastStart(line, k, m - 1);
    }
  }

  lemma TitleOfStart(line: string, k: nat, p: nat)
    requires k <= |line| && GreatestStart(line, k, p)
    ensures TitleAt(line, k) == Some(Trim(line[p..TitleEnd(line, p)]))
  {
    var m := RunEnd(line, k, true);
    StartsInRun(line, k, p);
    if m < |line| {
      StartsInRun(line, k, m);
    } else {
      var group := line[p..TitleEnd(line, p)];
      assert AllSpaces(group, true);
      assert group == group + "" + "";
      TrimOf(group, "", "");
    }
  }

  /** The title found behind a colon at k is that of the greedy match, and none is found only if
      the pattern has no match there. */
  lemma TitleMeaning(line: string, k: nat, t: string)
    requires k <= |line|
    ensures TitleAt(line, k) == Some(t) <==> HasTitle(line, k, t)
  {
    if HasTitle(line, k, t) {
      var p: nat, e: nat :| GreatestStart(line, k, p) && GroupIs(line, p, e) && IsTrimmed(line[p..e], t);
      TitleEndIs(line, p, e);
      TrimMeaning(line[p..e], t);
      TitleOfStart(line, k, p);
    }
    if TitleAt(line, k) == Some(t) {
      TitleHasStart(line, k);
      var p := LastStart(line, k, |line|);
      assert GreatestStart(line, k, p);
      TitleOfStart(line, k, p);
      TitleEndGroup(line, p);
      TrimMeaning(line[p..TitleEnd(line, p)], t);
    }
  }

  lemma TitleHasStart(line: string, k: nat)
    requires k <= |line| && TitleAt(line, k).Some?
    ensures exists p: nat :: p <= |line| && TitleCanStart(line, k, p)
  {
    var m := RunEnd(line, k, true);
    if m < |line| {
      StartsInRun(line, k, m);
      assert TitleCanStart(line, k, m);
    } else {
      var p :| k < p < m && !IsTerminator(line[p]);
      StartsInRun(line, k, p);
      assert TitleCanStart(line, k, p);
    }
  }

  function Word(severity: Severity): (w: string)
    ensures |w| == WordLength(severity)
  {
    match severity case High => "high:" case Critical => "critical:"
  }

  /** The severity word, in any case, starts at j, and title t is behind its colon. */
  ghost predicate Reads(line: string, j: nat, severity: Severity, t: string) {
    var after := j + WordLength(severity);
    after <= |line| && Lower(line[j..after]) == Word(severity) && HasTitle(line, after, t)
  }

  /** ... and it stands behind a space. */
  ghost predicate Stands(line: string, j: nat, severity: Severity, t: string) {
    1 <= j <= |line| && IsSpace(line[j - 1]) && Reads(line, j, severity, t)
  }

  lemma WordMeaning(line: string, j: nat, severity: Severity)
    ensures WordAt(line, j) == Some(severity)
       <==> j + WordLength(severity) <= |line| && Lower(line[j..j + WordLength(severity)]) == Word(severity)
  {
    if j + 9 <= |line| {
      assert Lower(line[j..j + 5])[0] == LowerChar(line[j]) == Lower(line[j..j + 9])[0];
      assert "high:"[0] == 'h' && "critical:"[0] == 'c';
    }
  }

  lemma ReadsMeaning(line: string, j: nat, severity: Severity, t: string)
    requires j <= |line|
    ensures Reads(line, j, severity, t) <==> Candidate(line, j) == Some((severity, t))
  {
    WordMeaning(line, j, severity);
    if WordAt(line, j) == Some(severity) {
      TitleMeaning(line, j + WordLength(severity), t);
    }
  }

  lemma StandsMeaning(line: string, j: nat, severity: Severity, t: string)
    ensures Stands(line, j, severity, t) <==> j <= |line| && CandidatesOf(line)[j] == Some((severity, t))
  {
    if j <= |line| {
      ReadsMeaning(line, j, severity, t);
      assert CandidatesOf(line)[j] == SpacedCandidate(line, j);
    }
  }

  /** The first place of all where a severity stands. */
  ghost predicate StandsFirst(line: string, j: nat, severity: Severity, t: string) {
    Stands(line, j, severity, t) && forall i: nat, severity', t' :: i < j ==> !Stands(line, i, severity', t')
  }

  predicate Leftmost(cs: Candidates, j: nat, c: (Severity, string)) {
    j < |cs| && cs[j] == Some(c) && forall i :: 0 <= i < j ==> cs[i].None?
  }

  lemma StandsFirstMeaning(line: string, j: nat, severity: Severity, t: string)
    ensures StandsFirst(line, j, severity, t) <==> Leftmost(CandidatesOf(line), j, (severity, t))
  {
    var cs := CandidatesOf(line);
    StandsMeaning(line, j, severity, t);
    if Leftmost(cs, j, (severity, t)) {
      forall i: nat, severity', t' | i < j ensures !Stands(line, i, severity', t') {
        StandsMeaning(line, i, severity', t');
      }
    }
    if StandsFirst(line, j, severity, t) {
      forall i | 0 <= i < j ensures cs[i].None? {
        NoneAt(line, i);
      }
    }
  }

  lemma NoneAt(line: string, i: nat)
    requires i <= |line| && forall severity, t :: !Stands(line, i, severity, t)
    ensures CandidatesOf(line)[i].None?
  {
    match CandidatesOf(line)[i]
    case None =>
    case Some(c) => StandsMeaning(line, i, c.0, c.1);
  }

  lemma LeftmostIsFirst(cs: Candidates, found: Option<(Severity, string)>, c: (Severity, string))
    requires |cs| > 0 && cs[0].None? && FirstAfter(cs, 0, found)
    ensures found == Some(c) <==> exists j: nat :: Leftmost(cs, j, c)
  {
    if found == Some(c) {
      var j: nat :| IsFirst(cs, 0, j) && cs[j] == found;
      assert Leftmost(cs, j, c);
    }
    if j: nat :| Leftmost(cs, j, c) {
      assert found.Some?;
      var i: nat :| IsFirst(cs, 0, i) && cs[i] == found;
      assert i == j;
    }
  }

  /** A severity and title are found exactly when they stand at the leftmost place where any do. */
  lemma SeverityMeaning(line: string, severity: Severity, t: string)
    ensures SeverityMatch(line) == Some((severity, t)) <==> exists j: nat :: StandsFirst(line, j, severity, t)
  {
    SeverityFromMeaning(line, 0);
    LeftmostIsFirst(CandidatesOf(line), SeverityMatch(line), (severity, t));
    forall j: nat ensures StandsFirst(line, j, severity, t) <==> Leftmost(CandidatesOf(line), j, (severity, t)) {
      StandsFirstMeaning(line, j, severity, t);
    }
  }

  /** None is found exactly when none stands anywhere in the line. */
  lemma SeverityMissing(line: string)
    ensures SeverityMatch(line).None? <==> forall j: nat, severity, t :: !Stands(line, j, severity, t)
  {
    SeverityFromMeaning(line, 0);
    if SeverityMatch(line).None? {
      forall j: nat, severity, t ensures !Stands(line, j, severity, t) {
        StandsMeaning(line, j, severity, t);
      }
    } else {
      var (severity, t) := SeverityMatch(line).value;
      SeverityMeaning(line, severity, t);
    }
  }

  /** What the three patterns say of a line. */
  datatype Line = Line(package: Option<string>, path: Option<string>, severity: Option<(Severity, string)>)

  function Classify(line: string): (l: Line)
    ensures l.package.Some? ==> l.package.value != ""
    ensures l.path.Some? ==> l.path.value != ""
  {
    Line(PackageMatch(line), PathMatch(line), SeverityMatch(line))
  }

  // ---------- the block specification ----------

  predicate IsHeader(lines: seq<Line>, i: nat)
    requires i < |lines|
  {
    lines[i].package.Some?
  }

  predicate IsSeverity(lines: seq<Line>, i: nat)
    requires i < |lines|
  {
    !IsHeader(lines, i) && lines[i].severity.Some?
  }

  /** The first header at or after k, or the end: where the block of an earlier header stops. */
  function NextHeader(lines: seq<Line>, k: nat): (e: nat)
    requires k <= |lines|
    ensures k <= e <= |lines|
    ensures e < |lines| ==> IsHeader(lines, e)
    decreases |lines| - k
  {
    if k == |lines| || IsHeader(lines, k) then k else NextHeader(lines, k + 1)
  }

  /** The first severity line in [k, end), or end. */
  function FirstSeverity(lines: seq<Line>, k: nat, end: nat): (s: nat)
    requires k <= end <= |lines|
    ensures k <= s <= end
    ensures s < end ==> IsSeverity(lines, s)
    decreases end - k
  {
    if k == end || IsSeverity(lines, k) then k else FirstSeverity(lines, k + 1, end)
  }

  lemma {:induction false} NoHeaderBefore(lines: seq<Line>, k: nat)
    requires k <= |lines|
    ensures forall i :: k <= i < NextHeader(lines, k) ==> !IsHeader(lines, i)
    decreases |lines| - k
  {
    if k < |lines| && !IsHeader(lines, k) {
      NoHeaderBefore(lines, k + 1);
    }
  }

  lemma {:induction false} NoSeverityBefore(lines: seq<Line>, k: nat, end: nat)
    requires k <= end <= |lines|
    ensures forall i :: k <= i < FirstSeverity(lines, k, end) ==> !IsSeverity(lines, i)
    decreases end - k
  {
    if k < end && !IsSeverity(lines, k) {
      NoSeverityBefore(lines, k + 1, end);
    }
  }

  /** The path a header's next line gives, or "unknown". */
  function HeaderPath(lines: seq<Line>, h: nat): string
    requires h < |lines|
  {
    if h + 1 < |lines| && lines[h + 1].path.Some? then lines[h + 1].path.value else "unknown"
  }

  function Report(lines: seq<Line>, h: nat, s: nat): Vulnerability
    requires h < s < |lines| && IsHeader(lines, h) && IsSeverity(lines, s)
  {
    var (severity, title) := lines[s].severity.value;
    Vulnerability(lines[h].package.value, severity, title, HeaderPath(lines, h))
  }

  /** The report of the block that header h opens: its first severity line, if it has one. */
  function BlockReport(lines: seq<Line>, h: nat): seq<Vulnerability>
    requires h < |lines| && IsHeader(lines, h)
  {
    var end := NextHeader(lines, h + 1);
    var s := FirstSeverity(lines, h + 1, end);
    if s < end then [Report(lines, h, s)] else []
  }

  /** The reports of all blocks from line k on, in order. */
  function Reports(lines: seq<Line>, k: nat): seq<Vulnerability>
    requires k <= |lines|
    decreases |lines| - k
  {
    var h := NextHeader(lines, k);
    if h == |lines| then [] else BlockReport(lines, h) + Reports(lines, h + 1)
  }

  /** The streaming reading: what the lines from k on add to the reports with header h pending. */
  function Stream(lines: seq<Line>, k: nat, h: Option<nat>): seq<Vulnerability>
    requires k <= |lines|
    requires h.Some? ==> h.value < k && IsHeader(lines, h.value)
    decreases |lines| - k
  {
    if k == |lines| then []
    else if IsHeader(lines, k) then Stream(lines, k + 1, Some(k))
    else if h.Some? && IsSeverity(lines, k) then [Report(lines, h.value, k)] + Stream(lines, k + 1, None)
    else Stream(lines, k + 1, h)
  }

  /** The same by blocks: the rest of the pending block, then the blocks after it. */
  function Blocks(lines: seq<Line>, k: nat, h: Option<nat>): seq<Vulnerability>
    requires k <= |lines|
    requires h.Some? ==> h.value < k && IsHeader(lines, h.value)
  {
    if h.None? then Reports(lines, k)
    else
      var end := NextHeader(lines, k);
      var s := FirstSeverity(lines, k, end);
      (if s < end then [Report(lines, h.value, s)] else []) + Reports(lines, end)
  }

  lemma ReportsAtHeader(lines: seq<Line>, k: nat)
    requires k < |lines| && IsHeader(lines, k)
    ensures Reports(lines, k) == BlockReport(lines, k) + Reports(lines, NextHeader(lines, k + 1))
  {
    assert NextHeader(lines, k) == k;
  }

  lemma BlocksAtHeader(lines: seq<Line>, k: nat, h: Option<nat>)
    requires k < |lines| && IsHeader(lines, k)
    requires h.Some? ==> h.value < k && IsHeader(lines, h.value)
    ensures Blocks(lines, k, h) == Blocks(lines, k + 1, Some(k))
  {
    ReportsAtHeader(lines, k);
    if h.Some? {
      assert NextHeader(lines, k) == k;
      assert FirstSeverity(lines, k, k) == k;
      assert [] + Reports(lines, k) == Reports(lines, k);
    }
  }

  lemma BlocksAtSeverity(lines: seq<Line>, k: nat, h: nat)
    requires h < k < |lines| && IsHeader(lines, h) && IsSeverity(lines, k)
    ensures Blocks(lines, k, Some(h)) == [Report(lines, h, k)] + Blocks(lines, k + 1, None)
  {
    BlockEnds(lines, k, h);
  }

  lemma BlockEnds(lines: seq<Line>, k: nat, h: nat)
    requires h < k < |lines| && IsHeader(lines, h) && IsSeverity(lines, k)
    ensures Blocks(lines, k, Some(h)) == [Report(lines, h, k)] + Reports(lines, NextHeader(lines, k + 1))
  {
  }

  lemma BlocksElsewhere(lines: seq<Line>, k: nat, h: Option<nat>)
    requires k < |lines| && !IsHeader(lines, k) && (h.None? || !IsSeverity(lines, k))
    requires h.Some? ==> h.value < k && IsHeader(lines, h.value)
    ensures Blocks(lines, k, h) == Blocks(lines, k + 1, h)
  {
    var end := NextHeader(lines, k);
    assert end == NextHeader(lines, k + 1);
    if h.None? {
    } else {
      assert FirstSeverity(lines, k, end) == FirstSeverity(lines, k + 1, end);
    }
  }

  /** Reading line by line is cutting into blocks. */
  lemma {:induction false} StreamIsBlocks(lines: seq<Line>, k: nat, h: Option<nat>)
    requires k <= |lines|
    requires h.Some? ==> h.value < k && IsHeader(lines, h.value)
    ensures Stream(lines, k, h) == Blocks(lines, k, h)
    decreases |lines| - k
  {
    if k < |lines| {
      if IsHeader(lines, k) {
        StreamIsBlocks(lines, k + 1, Some(k));
        BlocksAtHeader(lines, k, h);
      } else if h.Some? && IsSeverity(lines, k) {
        StreamIsBlocks(lines, k + 1, None);
        BlocksAtSeverity(lines, k, h.value);
      } else {
        StreamIsBlocks(lines, k + 1, h);
        BlocksElsewhere(lines, k, h);
      }
    }
  }

  predicate WellFormed(lines: seq<Line>) {
    forall i :: 0 <= i < |lines| ==>
      (lines[i].package.Some? ==> lines[i].package.value != "") && (lines[i].path.Some? ==> lines[i].path.value != "")
  }

  /** The loop of runSecurityAudit on the matched lines. */
  method ParseLines(lines: seq<Line>) returns (vulnerabilities: seq<Vulnerability>)
    requires WellFormed(lines)
    ensures vulnerabilities == Reports(lines, 0)
  {
    vulnerabilities := [];
    var currentPackage, currentPath := "", "";
    ghost var pending: Option<nat> := None;
    var i := 0;
    while i < |lines|
      invariant i <= |lines|
      invariant pending.Some? ==> pending.value < i && IsHeader(lines, pending.value)
      invariant pending.None? <==> currentPackage == ""
      invariant pending.Some? ==> currentPackage == lines[pending.value].package.value
      invariant pending.Some? ==>
              HeaderPath(lines, pending.value) == (if currentPath == "" then "unknown" else currentPath)
      invariant vulnerabilities + Stream(lines, i, pending) == Stream(lines, 0, None)
    {
      if lines[i].package.Some? {
        currentPackage := lines[i].package.value;
        currentPath := "";
        if i + 1 < |lines| && lines[i + 1].path.Some? {
          currentPath := lines[i + 1].path.value;
        }
        pending := Some(i);
      } else if lines[i].severity.Some? && currentPackage != "" {
        var (severity, title) := lines[i].severity.value;
        var v := Vulnerability(currentPackage, severity, title, if currentPath == "" then "unknown" else currentPath);
        assert vulnerabilities + ([v] + Stream(lines, i + 1, None))
                       == (vulnerabilities + [v]) + Stream(lines, i + 1, None);
        vulnerabilities := vulnerabilities + [v];
        currentPackage := "";
        currentPath := "";
        pending := None;
      }
      i := i + 1;
    }
    assert vulnerabilities + [] == vulnerabilities;
    StreamIsBlocks(lines, 0, None);
  }

  function ClassifyAll(output: string): (lines: seq<Line>)
    ensures WellFormed(lines)
  {
    var texts := Split(output, '\n');
    seq(|texts|, i requires 0 <= i < |texts| => Classify(texts[i]))
  }

  /** runSecurityAudit on the output of the audit command. */
  method ParseAudit(output: string) returns (vulnerabilities: seq<Vulnerability>)
    ensures vulnerabilities == Reports(ClassifyAll(output), 0)
  {
    vulnerabilities := ParseLines(ClassifyAll(output));
  }

  /** A severity line is the one reported for header h. */
  ghost predicate IsReportedFor(lines: seq<Line>, h: nat, s: nat) {
    && h < s < |lines| && IsHeader(lines, h) && IsSeverity(lines, s)
    && forall i :: h < i < s ==> !IsHeader(lines, i) && !IsSeverity(lines, i)
  }

  lemma {:induction false} ReportsAreFirst(lines: seq<Line>, k: nat, v: Vulnerability)
    requires k <= |lines| && v in Reports(lines, k)
    ensures exists h, s :: k <= h && IsReportedFor(lines, h, s) && v == Report(lines, h, s)
    decreases |lines| - k
  {
    var h := NextHeader(lines, k);
    if v in BlockReport(lines, h) {
      NoHeaderBefore(lines, h + 1);
      NoSeverityBefore(lines, h + 1, NextHeader(lines, h + 1));
      assert IsReportedFor(lines, h, FirstSeverity(lines, h + 1, NextHeader(lines, h + 1)));
    } else {
      ReportsAreFirst(lines, h + 1, v);
    }
  }

  lemma {:induction false} FirstAreReported(lines: seq<Line>, k: nat, h: nat, s: nat)
    requires k <= h && IsReportedFor(lines, h, s)
    ensures Report(lines, h, s) in Reports(lines, k)
    decreases |lines| - k
  {
    var h0 := NextHeader(lines, k);
    NoHeaderBefore(lines, k);
    if h == h0 {
      ReportedIsFirst(lines, h, s);
    } else {
      FirstAreReported(lines, h0 + 1, h, s);
    }
  }

  /** Nothing else is reported, and nothing is missing: every report is that of a header and the
      first severity line of its block, and every such pair is reported. */
  lemma ReportsAreExact(lines: seq<Line>, v: Vulnerability)
    ensures v in Reports(lines, 0) <==> exists h, s :: IsReportedFor(lines, h, s) && v == Report(lines, h, s)
  {
    if v in Reports(lines, 0) {
      ReportsAreFirst(lines, 0, v);
    }
    if h, s :| IsReportedFor(lines, h, s) && v == Report(lines, h, s) {
      FirstAreReported(lines, 0, h, s);
    }
  }

  lemma ReportedIsFirst(lines: seq<Line>, h: nat, s: nat)
    requires IsReportedFor(lines, h, s)
    ensures BlockReport(lines, h) == [Report(lines, h, s)]
  {
    var end := NextHeader(lines, h + 1);
    assert s < end;
    NoSeverityBefore(lines, h + 1, end);
  }

  /** The headers from k on whose blocks are reported. */
  function ReportedHeaders(lines: seq<Line>, k: nat): seq<nat>
    requires k <= |lines|
    decreases |lines| - k
  {
    var h := NextHeader(lines, k);
    if h == |lines| then []
    else (if BlockReport(lines, h) == [] then [] else [h]) + ReportedHeaders(lines, h + 1)
  }

  lemma {:induction false} HeadersIncrease(lines: seq<Line>, k: nat)
    requires k <= |lines|
    ensures forall i :: 0 <= i < |ReportedHeaders(lines, k)| ==> k <= ReportedHeaders(lines, k)[i] < |lines|
    ensures forall i, j :: 0 <= i < j < |ReportedHeaders(lines, k)| ==>
              ReportedHeaders(lines, k)[i] < ReportedHeaders(lines, k)[j]
    decreases |lines| - k
  {
    var h := NextHeader(lines, k);
    if h < |lines| {
      HeadersIncrease(lines, h + 1);
    }
  }

  /** The i-th report is that of the i-th header. */
  predicate InStep(lines: seq<Line>, hs: seq<nat>, reports: seq<Vulnerability>) {
    |hs| == |reports| && forall i :: 0 <= i < |hs| ==> IsReportOf(lines, hs[i], reports[i])
  }

  predicate IsReportOf(lines: seq<Line>, h: nat, v: Vulnerability) {
    h < |lines| && IsHeader(lines, h) && BlockReport(lines, h) == [v]
  }

  lemma InStepMore(lines: seq<Line>, h: nat, own: seq<Vulnerability>, hs: seq<nat>, reports: seq<Vulnerability>)
    requires InStep(lines, hs, reports) && h < |lines| && IsHeader(lines, h) && own == BlockReport(lines, h)
    ensures InStep(lines, (if own == [] then [] else [h]) + hs, own + reports)
  {
    if own != [] {
      assert own == [own[0]] && IsReportOf(lines, h, own[0]);
    }
  }

  lemma {:induction false} HeadersInStep(lines: seq<Line>, k: nat)
    requires k <= |lines|
    ensures InStep(lines, ReportedHeaders(lines, k), Reports(lines, k))
    decreases |lines| - k
  {
    var h := NextHeader(lines, k);
    if h < |lines| {
      HeadersInStep(lines, h + 1);
      InStepMore(lines, h, BlockReport(lines, h), ReportedHeaders(lines, h + 1), Reports(lines, h + 1));
    }
  }

  lemma BlockReported(lines: seq<Line>, h: nat) returns (s: nat)
    requires h < |lines| && IsHeader(lines, h) && BlockReport(lines, h) != []
    ensures IsReportedFor(lines, h, s) && BlockReport(lines, h) == [Report(lines, h, s)]
  {
    var end := NextHeader(lines, h + 1);
    s := FirstSeverity(lines, h + 1, end);
    NoHeaderBefore(lines, h + 1);
    NoSeverityBefore(lines, h + 1, end);
  }

  /** The reports follow their headers: the i-th is that of the i-th header that has one. */
  lemma ReportsInOrder(lines: seq<Line>, i: nat) returns (s: nat)
    requires i < |Reports(lines, 0)|
    ensures |ReportedHeaders(lines, 0)| == |Reports(lines, 0)|
    ensures var h := ReportedHeaders(lines, 0)[i];
            && IsReportedFor(lines, h, s) && Reports(lines, 0)[i] == Report(lines, h, s)
            && forall j :: 0 <= j < i ==> ReportedHeaders(lines, 0)[j] < h
  {
    HeadersInStep(lines, 0);
    assert IsReportOf(lines, ReportedHeaders(lines, 0)[i], Reports(lines, 0)[i]);
    HeadersIncrease(lines, 0);
    s := BlockReported(lines, ReportedHeaders(lines, 0)[i]);
  }

  // ---------- from the text ----------

  ghost predicate IsPackageText(line: string, package: string) {
    exists gap, op, rest :: IsPackageLine(line, package, gap, op, rest)
  }

  ghost predicate IsHeaderText(line: string) {
    exists package :: IsPackageText(line, package)
  }

  ghost predicate IsSeverityText(line: string, severity: Severity, t: string) {
    exists j: nat :: StandsFirst(line, j, severity, t)
  }

  ghost predicate HasSeverityText(line: string) {
    exists severity, t :: IsSeverityText(line, severity, t)
  }

  ghost predicate IsPathText(line: string, path: string) {
    exists gap, rest :: IsPathLine(line, gap, path, rest)
  }

  ghost predicate HasPathText(line: string) {
    exists path :: IsPathText(line, path)
  }

  ghost predicate PathOrUnknown(line: string, path: string) {
    IsPathText(line, path) || (path == "unknown" && !HasPathText(line))
  }

  /** Line h is the header of v's package; line s is the first behind it, without another header in
      between, on which a severity stands; and the path is the one on the line behind the header, if
      there is one. */
  ghost predicate ReportedIn(texts: seq<string>, h: nat, s: nat, v: Vulnerability) {
    && h < s < |texts|
    && IsPackageText(texts[h], v.package)
    && IsSeverityText(texts[s], v.severity, v.title)
    && (forall i :: h < i <= s ==> !IsHeaderText(texts[i]))
    && (forall i :: h < i < s ==> !HasSeverityText(texts[i]))
    && PathOrUnknown(texts[h + 1], v.path)
  }

  /** The same in terms of what the patterns find. */
  predicate ReportedFrom(lines: seq<Line>, h: nat, s: nat, v: Vulnerability) {
    && h < s < |lines|
    && lines[h].package == Some(v.package)
    && lines[s].severity == Some((v.severity, v.title))
    && (forall i :: h < i <= s ==> lines[i].package.None?)
    && (forall i :: h < i < s ==> lines[i].severity.None?)
    && v.path == (if lines[h + 1].path.Some? then lines[h + 1].path.value else "unknown")
  }

  lemma ReportFields(lines: seq<Line>, h: nat, s: nat, v: Vulnerability)
    ensures IsReportedFor(lines, h, s) && v == Report(lines, h, s) <==> ReportedFrom(lines, h, s, v)
  {
    if ReportedFrom(lines, h, s, v) {
      assert IsReportedFor(lines, h, s) by {
        assert forall i :: h < i < s ==> lines[i].package.None? && lines[i].severity.None?;
      }
      assert Report(lines, h, s) == Vulnerability(v.package, v.severity, v.title, v.path);
    }
    if IsReportedFor(lines, h, s) && v == Report(lines, h, s) {
      var found := lines[s].severity.value;
      assert found == (found.0, found.1);
      forall i | h < i <= s ensures lines[i].package.None? && (i < s ==> lines[i].severity.None?) {
        assert !IsHeader(lines, i) && (i < s ==> !IsSeverity(lines, i));
      }
    }
  }

  lemma PackageText(line: string, package: string)
    ensures Classify(line).package == Some(package) <==> IsPackageText(line, package)
    ensures Classify(line).package.None? <==> !IsHeaderText(line)
  {
    PackageMeaning(line, package);
    if Classify(line).package.Some? {
      PackageMeaning(line, Classify(line).package.value);
      assert IsPackageText(line, Classify(line).package.value);
    }
    if other :| IsPackageText(line, other) {
      PackageMeaning(line, other);
    }
  }

  lemma SeverityText(line: string, severity: Severity, t: string)
    ensures Classify(line).severity == Some((severity, t)) <==> IsSeverityText(line, severity, t)
    ensures Classify(line).severity.None? <==> !HasSeverityText(line)
  {
    SeverityMeaning(line, severity, t);
    if Classify(line).severity.Some? {
      var (found, title) := Classify(line).severity.value;
      SeverityMeaning(line, found, title);
      assert IsSeverityText(line, found, title);
    }
    if other, title :| IsSeverityText(line, other, title) {
      SeverityMeaning(line, other, title);
    }
  }

  lemma PathText(line: string, path: string)
    ensures path == (if Classify(line).path.Some? then Classify(line).path.value else "unknown")
       <==> PathOrUnknown(line, path)
  {
    PathMeaning(line, path);
    if Classify(line).path.Some? {
      PathMeaning(line, Classify(line).path.value);
      assert IsPathText(line, Classify(line).path.value);
    }
    if other :| IsPathText(line, other) {
      PathMeaning(line, other);
    }
  }

  predicate AreClassified(texts: seq<string>, lines: seq<Line>) {
    |lines| == |texts| && forall i :: 0 <= i < |lines| ==> lines[i] == Classify(texts[i])
  }

  lemma NoHeaderText(texts: seq<string>, lines: seq<Line>, h: nat, s: nat)
    requires AreClassified(texts, lines) && h < s < |lines|
    ensures (forall i :: h < i <= s ==> lines[i].package.None?)
       <==> (forall i :: h < i <= s ==> !IsHeaderText(texts[i]))
  {
    forall i | h < i <= s ensures lines[i].package.None? <==> !IsHeaderText(texts[i]) {
      PackageText(texts[i], "");
    }
  }

  lemma NoSeverityText(texts: seq<string>, lines: seq<Line>, h: nat, s: nat)
    requires AreClassified(texts, lines) && h < s < |lines|
    ensures (forall i :: h < i < s ==> lines[i].severity.None?)
       <==> (forall i :: h < i < s ==> !HasSeverityText(texts[i]))
  {
    forall i | h < i < s ensures lines[i].severity.None? <==> !HasSeverityText(texts[i]) {
      SeverityText(texts[i], High, "");
    }
  }

  lemma ReportedText(texts: seq<string>, lines: seq<Line>, h: nat, s: nat, v: Vulnerability)
    requires AreClassified(texts, lines)
    ensures ReportedFrom(lines, h, s, v) <==> ReportedIn(texts, h, s, v)
  {
    if h < s < |texts| {
      PackageText(texts[h], v.package);
      SeverityText(texts[s], v.severity, v.title);
      PathText(texts[h + 1], v.path);
      NoHeaderText(texts, lines, h, s);
      NoSeverityText(texts, lines, h, s);
    }
  }

  /** What is reported for an audit output: exactly the first severity of every block that a header
      line opens, with that header's package and path. */
  lemma AuditMeaning(texts: seq<string>, v: Vulnerability)
    requires |texts| >= 1 && forall i :: 0 <= i < |texts| ==> '\n' !in texts[i]
    ensures v in Reports(ClassifyAll(Join(texts, '\n')), 0) <==> exists h: nat, s: nat :: ReportedIn(texts, h, s, v)
  {
    SplitJoin(texts, '\n');
    var lines := ClassifyAll(Join(texts, '\n'));
    ReportsAreExact(lines, v);
    forall h: nat, s: nat
      ensures IsReportedFor(lines, h, s) && v == Report(lines, h, s) <==> ReportedIn(texts, h, s, v)
    {
      ReportFields(lines, h, s, v);
      ReportedText(texts, lines, h, s, v);
    }
  }

  // ---------- vendor and core ----------

  predicate IsVendor(v: Vulnerability) {
    || Includes(v.path, "vendor")
    || Includes(v.path, "elizaos")
    || Includes(v.path, "eliza-otc-desk")
    || Includes(v.path, "eliza-cloud-v2")
    || Includes(v.path, "babylon")
    || Includes(v.path, "hyperscape")
    || Includes(v.path, "squid")
  }

  /** Seven words mark a path as a vendor's. */
  lemma VendorMeaning(v: Vulnerability)
    ensures IsVendor(v) <==>
            || Contains(v.path, "vendor") || Contains(v.path, "elizaos") || Contains(v.path, "eliza-otc-desk")
            || Contains(v.path, "eliza-cloud-v2") || Contains(v.path, "babylon") || Contains(v.path, "hyperscape")
            || Contains(v.path, "squid")
  {
    IncludesMeaning(v.path, "vendor");
    IncludesMeaning(v.path, "elizaos");
    IncludesMeaning(v.path, "eliza-otc-desk");
    IncludesMeaning(v.path, "eliza-cloud-v2");
    IncludesMeaning(v.path, "babylon");
    IncludesMeaning(v.path, "hyperscape");
    IncludesMeaning(v.path, "squid");
  }

  function VendorOnly(vs: seq<Vulnerability>): (r: seq<Vulnerability>)
    ensures forall v :: v in r <==> v in vs && IsVendor(v)
  {
    if vs == [] then [] else (if IsVendor(vs[0]) then [vs[0]] else []) + VendorOnly(vs[1..])
  }

  /** The reports that are not in the vendor list. */
  function Without(vs: seq<Vulnerability>, vendor: seq<Vulnerability>): seq<Vulnerability> {
    if vs == [] then [] else (if vs[0] in vendor then [] else [vs[0]]) + Without(vs[1..], vendor)
  }

  lemma {:induction false} CoreIsNotVendor(vs: seq<Vulnerability>, vendor: seq<Vulnerability>)
    requires forall v :: v in vs ==> (v in vendor <==> IsVendor(v))
    ensures forall v :: v in Without(vs, vendor) ==> !IsVendor(v)
  {
    if vs != [] {
      CoreIsNotVendor(vs[1..], vendor);
    }
  }

  lemma {:induction false} PartitionCounts(vs: seq<Vulnerability>, vendor: seq<Vulnerability>)
    requires forall v :: v in vs ==> (v in vendor <==> IsVendor(v))
    ensures multiset(VendorOnly(vs)) + multiset(Without(vs, vendor)) == multiset(vs)
  {
    if vs != [] {
      PartitionCounts(vs[1..], vendor);
      assert vs == [vs[0]] + vs[1..];
    }
  }

  /** The two lists partition the reports: no report is lost, doubled or in both. */
  lemma Partition(all: seq<Vulnerability>)
    ensures var vendor, core := VendorOnly(all), Without(all, VendorOnly(all));
            && multiset(vendor) + multiset(core) == multiset(all)
            && (forall v :: v in vendor ==> IsVendor(v))
            && (forall v :: v in core ==> !IsVendor(v))
  {
    PartitionCounts(all, VendorOnly(all));
    CoreIsNotVendor(all, VendorOnly(all));
  }
}
