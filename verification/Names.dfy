/** JNS names: the validator, the ".jeju" suffix and its removal (packages/types/names.ts). */
module Names {
  import opened Wrappers
  import opened Text

  const SUFFIX := ".jeju"

  // ---------- regular expressions ----------

  /** The fragment of JavaScript regular expressions the validator uses, anchored at both ends. */
  datatype Regex = Class(chars: set<char>) | Cat(first: Regex, second: Regex) | Opt(body: Regex) | Star(body: Regex)

  predicate Matches(re: Regex, s: string)
    decreases re, |s|
  {
    match re
    case Class(chars) => |s| == 1 && s[0] in chars
    case Cat(a, b) => exists k :: 0 <= k <= |s| && Matches(a, s[..k]) && Matches(b, s[k..])
    case Opt(a) => s == "" || Matches(a, s)
    case Star(a) => s == "" || exists k :: 1 <= k <= |s| && Matches(a, s[..k]) && Matches(re, s[k..])
  }

  const LOWER: set<char> := set c: char | 'a' <= c <= 'z'
  const DIGIT: set<char> := set c: char | '0' <= c <= '9'
  const ALNUM := LOWER + DIGIT

  const INNER := Cat(Star(Class(ALNUM + {'-'})), Class(ALNUM))

  /** The validator's pattern: a letter or digit, then optionally letters, digits and hyphens up to
      another letter or digit. */
  const VALID_PATTERN := Cat(Class(ALNUM), Opt(INNER))

  // ---------- the validator ----------

  datatype NameError = TooShort | BadCharacters | ConsecutiveHyphens

  /** String.length: a character outside the basic plane counts as two code units. */
  function Utf16Length(s: string): (n: nat)
    ensures |s| <= n
  {
    if s == "" then 0 else (if s[0] as int > 0xFFFF then 2 else 1) + Utf16Length(s[1..])
  }

  function ValidateJNSName(name: string): Result<(), NameError> {
    if Utf16Length(name) < 3 then Err(TooShort)
    else if !Matches(VALID_PATTERN, name) then Err(BadCharacters)
    else if Includes(name, "--") then Err(ConsecutiveHyphens)
    else Ok(())
  }

  predicate IsSmallOrDigit(c: char) {
    'a' <= c <= 'z' || '0' <= c <= '9'
  }

  /** A non-empty run of lower-case letters and digits. */
  predicate IsToken(s: string) {
    s != "" && forall i :: 0 <= i < |s| ==> IsSmallOrDigit(s[i])
  }

  /** Tokens joined by single hyphens. */
  ghost predicate IsHyphenated(name: string) {
    exists tokens: seq<string> ::
          |tokens| >= 1 && (forall i :: 0 <= i < |tokens| ==> IsToken(tokens[i]))
          && name == Join(tokens, '-')
  }

  predicate ValidChars(s: string) {
    forall i :: 0 <= i < |s| ==> IsSmallOrDigit(s[i]) || s[i] == '-'
  }

  lemma AlnumMeaning(c: char)
    ensures c in ALNUM <==> IsSmallOrDigit(c)
  {
  }

  lemma {:induction false} StarOfClass(chars: set<char>, s: string)
    ensures Matches(Star(Class(chars)), s) <==> forall i :: 0 <= i < |s| ==> s[i] in chars
    decreases |s|
  {
    if s != "" {
      StarOfClass(chars, s[1..]);
      if Matches(Star(Class(chars)), s) {
        var k :| 1 <= k <= |s| && Matches(Class(chars), s[..k]) && Matches(Star(Class(chars)), s[k..]);
        assert k == 1;
        forall i | 0 <= i < |s| ensures s[i] in chars {
          if i > 0 { assert s[i] == s[1..][i - 1]; }
        }
      }
      if forall i :: 0 <= i < |s| ==> s[i] in chars {
        assert Matches(Class(chars), s[..1]);
        assert Matches(Star(Class(chars)), s[1..]);
      }
    }
  }

  lemma MatchedByInner(t: string)
    requires Matches(INNER, t)
    ensures t != "" && ValidChars(t[..|t| - 1]) && IsSmallOrDigit(t[|t| - 1])
  {
    var j :| 0 <= j <= |t| && Matches(INNER.first, t[..j]) && Matches(INNER.second, t[j..]);
    assert |t[j..]| == 1 && t[j..][0] == t[j];
    StarOfClass(ALNUM + {'-'}, t[..j]);
    AlnumMeaning(t[j]);
    forall i | 0 <= i < j ensures IsSmallOrDigit(t[..j][i]) || t[..j][i] == '-' {
      AlnumMeaning(t[..j][i]);
    }
  }

  lemma InnerMatches(t: string)
    requires t != "" && ValidChars(t[..|t| - 1]) && IsSmallOrDigit(t[|t| - 1])
    ensures Matches(INNER, t)
  {
    var n := |t| - 1;
    StarOfClass(ALNUM + {'-'}, t[..n]);
    assert Matches(INNER.first, t[..n]) && Matches(INNER.second, t[n..]);
  }

  /** The pattern in words: letters, digits and hyphens, with neither end a hyphen. */
  lemma PatternMeaning(s: string)
    ensures Matches(VALID_PATTERN, s)
       <==> s != "" && ValidChars(s) && IsSmallOrDigit(s[0]) && IsSmallOrDigit(s[|s| - 1])
  {
    if Matches(VALID_PATTERN, s) {
      MatchedByPattern(s);
    }
    if s != "" && ValidChars(s) && IsSmallOrDigit(s[0]) && IsSmallOrDigit(s[|s| - 1]) {
      if s[1..] != "" {
        InnerMatches(s[1..]);
      }
      assert Matches(VALID_PATTERN.first, s[..1]) && Matches(VALID_PATTERN.second, s[1..]);
    }
  }

  lemma MatchedByPattern(s: string)
    requires Matches(VALID_PATTERN, s)
    ensures s != "" && ValidChars(s) && IsSmallOrDigit(s[0]) && IsSmallOrDigit(s[|s| - 1])
  {
    var k :| 0 <= k <= |s| && Matches(VALID_PATTERN.first, s[..k]) && Matches(VALID_PATTERN.second, s[k..]);
    assert k == 1 && s[0] == s[..1][0];
    var t := s[1..];
    if t != "" {
      MatchedByInner(t);
      forall i | 0 <= i < |s| ensures IsSmallOrDigit(s[i]) || s[i] == '-' {
        if 0 < i < |s| - 1 { assert s[i] == t[..|t| - 1][i - 1]; }
      }
    }
  }

  predicate NoDouble(s: string) {
    |s| < 2 || (!(s[0] == '-' && s[1] == '-') && NoDouble(s[1..]))
  }

  lemma {:induction false} DoubleAt(s: string, i: nat)
    requires i <= |s| && "--" <= s[i..]
    ensures !NoDouble(s)
  {
    if i > 0 {
      assert s[1..][i - 1..] == s[i..];
      DoubleAt(s[1..], i - 1);
    } else {
      assert s[0] == s[0..][0] && s[1] == s[0..][1];
    }
  }

  lemma {:induction false} IncludesDouble(s: string)
    ensures Includes(s, "--") <==> !NoDouble(s)
  {
    var i := Text.IndexOf(s, "--");
    if i != -1 {
      DoubleAt(s, i);
    } else if |s| >= 2 {
      assert !("--" <= s[0..]);
      forall k | 0 <= k < |s| ensures !("--" <= s[1..][k..]) {
        assert s[1..][k..] == s[k + 1..];
      }
      IncludesDouble(s[1..]);
    }
  }

  /** No empty piece between hyphens: no hyphen at either end and no two in a row. */
  lemma {:induction false} PiecesNonEmpty(s: string)
    ensures "" !in Split(s, '-') <==> s != "" && s[0] != '-' && s[|s| - 1] != '-' && NoDouble(s)
  {
    var p := Split(s, '-');
    if s == "" || s[0] == '-' {
      assert p[0] == "";
    } else if |s| >= 2 {
      var q := Split(s[1..], '-');
      assert p == [[s[0]] + q[0]] + q[1..];
      assert q == [q[0]] + q[1..];
      if s[1] == '-' {
        PiecesNonEmpty(s[2..]);
        assert s[1..][1..] == s[2..];
        assert q[1..] == Split(s[2..], '-');
      } else {
        PiecesNonEmpty(s[1..]);
        assert q[0] != "";
      }
    }
  }

  lemma {:induction false} CharsOfPieces(s: string)
    ensures ValidChars(s) <==> forall piece :: piece in Split(s, '-') ==> ValidChars(piece)
  {
    if s != "" {
      CharsOfPieces(s[1..]);
      var q := Split(s[1..], '-');
      assert ValidChars(s) <==> (IsSmallOrDigit(s[0]) || s[0] == '-') && ValidChars(s[1..]) by {
        assert s == [s[0]] + s[1..];
      }
      if s[0] == '-' {
        assert Split(s, '-') == [""] + q;
      } else {
        assert q == [q[0]] + q[1..];
        assert ValidChars([s[0]] + q[0]) <==> (IsSmallOrDigit(s[0]) || s[0] == '-') && ValidChars(q[0]) by {
          assert ([s[0]] + q[0])[0] == s[0];
          assert forall i :: 0 <= i < |q[0]| ==> q[0][i] == ([s[0]] + q[0])[i + 1];
        }
      }
    }
  }

  lemma WellFormedIsHyphenated(name: string)
    requires name != "" && ValidChars(name) && IsSmallOrDigit(name[0]) && IsSmallOrDigit(name[|name| - 1])
    requires NoDouble(name)
    ensures IsHyphenated(name)
  {
    var p := Split(name, '-');
    PiecesNonEmpty(name);
    CharsOfPieces(name);
    SplitPieces(name, '-');
    JoinSplit(name, '-');
    forall i | 0 <= i < |p| ensures IsToken(p[i]) {
      assert p[i] in p;
      assert ValidChars(p[i]);
    }
  }

  lemma HyphenatedIsWellFormed(name: string)
    requires IsHyphenated(name)
    ensures name != ""
    ensures ValidChars(name)
    ensures IsSmallOrDigit(name[0])
    ensures IsSmallOrDigit(name[|name| - 1])
    ensures NoDouble(name)
  {
    var tokens: seq<string> :| |tokens| >= 1 && (forall i :: 0 <= i < |tokens| ==> IsToken(tokens[i]))
        && name == Join(tokens, '-');
    SplitJoin(tokens, '-');
    PiecesNonEmpty(name);
    CharsOfPieces(name);
    assert forall piece :: piece in Split(name, '-') ==> ValidChars(piece);
  }

  lemma {:induction false} PlainLength(s: string)
    ensures ValidChars(s) ==> Utf16Length(s) == |s|
  {
    if s != "" && ValidChars(s) {
      assert forall i :: 0 <= i < |s[1..]| ==> s[1..][i] == s[i + 1];
      PlainLength(s[1..]);
    }
  }

  /** A character outside the basic plane counts twice. */
  lemma {:induction false} LengthAppend(s: string, c: char)
    ensures Utf16Length("") == 0
    ensures Utf16Length(s + [c]) == Utf16Length(s) + if c as int < 0x1_0000 then 1 else 2
  {
    if s == "" {
      assert s + [c] == [c] && [c][1..] == "";
    } else {
      assert (s + [c])[1..] == s[1..] + [c];
      LengthAppend(s[1..], c);
    }
  }

  /** The validator accepts exactly the names of at least three characters that are tokens of
      lower-case letters and digits joined by single hyphens. */
  lemma ValidatorMeaning(name: string)
    ensures ValidateJNSName(name).Ok? <==> |name| >= 3 && IsHyphenated(name)
  {
    PlainLength(name);
    PatternMeaning(name);
    IncludesDouble(name);
    if ValidateJNSName(name).Ok? {
      WellFormedIsHyphenated(name);
    }
    if IsHyphenated(name) {
      HyphenatedIsWellFormed(name);
    }
  }

  /** Which error a name is rejected with: the length counts first, then the characters and ends. */
  lemma RejectedExactly(name: string)
    ensures ValidateJNSName(name) == Err(TooShort) <==> Utf16Length(name) < 3
    ensures ValidateJNSName(name) == Err(BadCharacters) <==>
            && Utf16Length(name) >= 3
            && !(name != "" && ValidChars(name) && name[0] != '-' && name[|name| - 1] != '-')
    ensures ValidateJNSName(name) == Err(ConsecutiveHyphens) ==> Contains(name, "--")
  {
    PatternMeaning(name);
    IncludesMeaning(name, "--");
  }

  // ---------- the suffix ----------

  function FormatJNSName(lbl: string): string {
    lbl + SUFFIX
  }

  /** name.replace('.jeju', ''): the first occurrence is removed. */
  function ParseJNSName(name: string): string {
    var i := Text.IndexOf(name, SUFFIX);
    if i == -1 then name else name[..i] + name[i + |SUFFIX|..]
  }

  /** A name without the suffix stays, and otherwise exactly its first occurrence goes. */
  lemma ParseRemovesFirst(name: string, before: string, after: string)
    ensures !Contains(name, ".jeju") ==> ParseJNSName(name) == name
    ensures name == before + ".jeju" + after && (forall j: nat :: j < |before| ==> !(".jeju" <= name[j..])) ==>
              ParseJNSName(name) == before + after
  {
    IncludesMeaning(name, ".jeju");
    if name == before + ".jeju" + after {
      assert name[|before|..] == ".jeju" + after;
      var i := Text.IndexOf(name, SUFFIX);
      if i == |before| {
        assert name[..i] == before && name[i + 5..] == after;
      }
    }
  }

  function Repeated(n: nat): string {
    if n == 0 then "" else SUFFIX + Repeated(n - 1)
  }

  /** The suffix has its dot only in front, so no shift by one to four places lines it up. */
  lemma NoShortCommuting(u: string)
    requires 0 < |u| < 5
    ensures u + SUFFIX != SUFFIX + u
  {
    assert (u + SUFFIX)[|u|] == '.';
    assert (SUFFIX + u)[|u|] == SUFFIX[|u|];
  }

  /** A string commutes with ".jeju" exactly when it is ".jeju" repeated. */
  lemma {:induction false} CommutesWithSuffix(u: string)
    ensures u + SUFFIX == SUFFIX + u <==> exists n: nat :: u == Repeated(n)
    decreases |u|
  {
    if u + SUFFIX == SUFFIX + u {
      if |u| >= 5 {
        var rest := u[5..];
        assert u[..5] == (u + SUFFIX)[..5] == SUFFIX;
        assert u == SUFFIX + rest;
        assert (SUFFIX + (rest + SUFFIX))[5..] == (SUFFIX + (SUFFIX + rest))[5..];
        CommutesWithSuffix(rest);
        var n: nat :| rest == Repeated(n);
        assert u == Repeated(n + 1);
      } else {
        if u != "" { NoShortCommuting(u); }
        assert u == Repeated(0);
      }
    }
    if exists n: nat :: u == Repeated(n) {
      var n: nat :| u == Repeated(n);
      RepeatedCommutes(n);
    }
  }

  lemma {:induction false} RepeatedCommutes(n: nat)
    ensures Repeated(n) + SUFFIX == SUFFIX + Repeated(n)
  {
    if n > 0 {
      RepeatedCommutes(n - 1);
      assert SUFFIX + Repeated(n - 1) + SUFFIX == SUFFIX + (Repeated(n - 1) + SUFFIX);
    }
  }

  /** Stripping the suffix undoes adding it exactly when what follows the first ".jeju" of the
      label, together with it, is ".jeju" repeated. */
  lemma ParseAfterFormat(lbl: string)
    ensures var i := Text.IndexOf(FormatJNSName(lbl), SUFFIX);
            && 0 <= i <= |lbl|
            && (ParseJNSName(FormatJNSName(lbl)) == lbl <==> exists n: nat :: lbl[i..] == Repeated(n))
  {
    var name := FormatJNSName(lbl);
    assert name[|lbl|..] == SUFFIX;
    var i := Text.IndexOf(name, SUFFIX);
    assert 0 <= i <= |lbl|;
    var u := lbl[i..];
    assert name[i..] == u + SUFFIX;
    assert name[i..] == SUFFIX + name[i + 5..];
    assert name[..i] == lbl[..i] && lbl == lbl[..i] + u;
    assert ParseJNSName(name) == lbl <==> name[i + 5..] == u by {
      assert ParseJNSName(name)[i..] == name[i + 5..];
      assert ParseJNSName(name)[..i] == lbl[..i];
    }
    assert name[i + 5..] == u <==> u + SUFFIX == SUFFIX + u by {
      assert (SUFFIX + u)[5..] == u;
    }
    CommutesWithSuffix(u);
  }

  /** In particular the round trip holds for every label the validator accepts. */
  lemma ValidLabelRoundTrip(lbl: string)
    requires ValidateJNSName(lbl).Ok?
    ensures '.' !in lbl && FormatJNSName(lbl) == lbl + ".jeju"
    ensures ParseJNSName(FormatJNSName(lbl)) == lbl
  {
    PatternMeaning(lbl);
    assert forall j :: 0 <= j < |lbl| ==> lbl[j] != '.';
    ParseAfterFormat(lbl);
    var i := Text.IndexOf(FormatJNSName(lbl), SUFFIX);
    assert FormatJNSName(lbl)[i..][0] == '.';
    assert i == |lbl|;
    assert lbl[i..] == Repeated(0);
  }

  /** A label that contains the suffix elsewhere is not restored. */
  lemma ParseLosesInnerSuffix()
    ensures ParseJNSName(FormatJNSName(".jejux")) == "x.jeju"
  {
    assert SUFFIX <= FormatJNSName(".jejux")[0..];
    assert FormatJNSName(".jejux")[5..] == "x.jeju";
  }
}
