/** The string operations of the source: splitting at a separator, joining, searching. */
module Text {

  /** String.split with a one-character separator; the empty string gives one empty piece. */
  function Split(s: string, sep: char): (pieces: seq<string>)
    ensures |pieces| >= 1
  {
    if s == "" then [""]
    else
      var rest := Split(s[1..], sep);
      if s[0] == sep then [""] + rest else [[s[0]] + rest[0]] + rest[1..]
  }

  function Join(pieces: seq<string>, sep: char): string
    requires |pieces| >= 1
  {
    if |pieces| == 1 then pieces[0] else pieces[0] + [sep] + Join(pieces[1..], sep)
  }

  /** Index of the first occurrence of pattern at or after k, or -1. */
  function IndexFrom(s: string, pattern: string, k: nat): (i: int)
    requires k <= |s|
    ensures i == -1 || (k <= i <= |s| && pattern <= s[i..])
    ensures forall j :: k <= j < (if i == -1 then |s| + 1 else i) ==> !(pattern <= s[j..])
    decreases |s| - k
  {
    if pattern <= s[k..] then k else if k == |s| then -1 else IndexFrom(s, pattern, k + 1)
  }

  function IndexOf(s: string, pattern: string): (i: int)
    ensures i == -1 || (0 <= i <= |s| && pattern <= s[i..])
    ensures forall j :: 0 <= j < (if i == -1 then |s| + 1 else i) ==> !(pattern <= s[j..])
  {
    IndexFrom(s, pattern, 0)
  }

  predicate Includes(s: string, pattern: string) {
    IndexOf(s, pattern) != -1
  }

  function Repeat(c: char, n: nat): (s: string)
    ensures |s| == n
  {
    seq(n, _ => c)
  }

  function PadStart(s: string, length: nat, fill: char): (r: string)
    ensures |r| == if |s| < length then length else |s|
  {
    if |s| < length then Repeat(fill, length - |s|) + s else s
  }

  function LowerChar(c: char): char {
    if 'A' <= c <= 'Z' then (c as int + 32) as char else c
  }

  /** toLowerCase on ASCII letters. */
  function Lower(s: string): (r: string)
    ensures |r| == |s|
  {
    seq(|s|, i requires 0 <= i < |s| => LowerChar(s[i]))
  }

  lemma {:induction false} JoinSplit(s: string, sep: char)
    ensures Join(Split(s, sep), sep) == s
  {
    if s != "" {
      JoinSplit(s[1..], sep);
      var rest := Split(s[1..], sep);
      if s[0] == sep {
        assert ([""] + rest)[1..] == rest;
        assert s == "" + [sep] + s[1..];
      } else {
        var all := [[s[0]] + rest[0]] + rest[1..];
        assert all[1..] == rest[1..];
        assert Join(all, sep) == [s[0]] + Join(rest, sep);
        assert s == [s[0]] + s[1..];
      }
    }
  }

  /** Splitting at the separator is injective. */
  lemma SplitInjective(s: string, t: string, sep: char)
    requires Split(s, sep) == Split(t, sep)
    ensures s == t
  {
    JoinSplit(s, sep);
    JoinSplit(t, sep);
  }

  lemma {:induction false} SplitConcat(s: string, t: string, sep: char)
    ensures Split(s + [sep] + t, sep) == Split(s, sep) + Split(t, sep)
  {
    if s == "" {
      assert s + [sep] + t == [sep] + t;
    } else {
      var c, rest := s[0], s[1..];
      SplitConcat(rest, t, sep);
      assert s == [c] + rest;
      assert s + [sep] + t == [c] + (rest + [sep] + t);
      PrependPieces(c, Split(rest, sep), Split(t, sep));
    }
  }

  lemma PrependPieces(c: char, r: seq<string>, u: seq<string>)
    requires |r| >= 1
    ensures [""] + (r + u) == ([""] + r) + u
    ensures [[c] + (r + u)[0]] + (r + u)[1..] == ([[c] + r[0]] + r[1..]) + u
  {
    assert (r + u)[1..] == r[1..] + u;
  }

  lemma {:induction false} SplitWithout(s: string, sep: char)
    ensures sep !in s <==> Split(s, sep) == [s]
  {
    if s != "" {
      SplitWithout(s[1..], sep);
      JoinSplit(s[1..], sep);
      assert s == [s[0]] + s[1..];
      var rest := Split(s[1..], sep);
      if s[0] != sep && |rest| == 1 {
        assert rest == [rest[0]];
      }
    }
  }

  lemma {:induction false} SplitPieces(s: string, sep: char)
    ensures forall i :: 0 <= i < |Split(s, sep)| ==> sep !in Split(s, sep)[i]
  {
    if s != "" {
      SplitPieces(s[1..], sep);
    }
  }

  /** Joined pieces without the separator are split into themselves. */
  lemma {:induction false} SplitJoin(pieces: seq<string>, sep: char)
    requires |pieces| >= 1 && forall i :: 0 <= i < |pieces| ==> sep !in pieces[i]
    ensures Split(Join(pieces, sep), sep) == pieces
  {
    SplitWithout(pieces[0], sep);
    if |pieces| > 1 {
      SplitJoin(pieces[1..], sep);
      SplitConcat(pieces[0], Join(pieces[1..], sep), sep);
    }
  }

  /** The pattern stands somewhere in the text. */
  ghost predicate Contains(s: string, pattern: string) {
    exists i: nat :: i <= |s| && pattern <= s[i..]
  }

  lemma IncludesMeaning(s: string, pattern: string)
    ensures Includes(s, pattern) <==> Contains(s, pattern)
  {
    if Includes(s, pattern) {
      var i: nat := IndexOf(s, pattern);
      assert pattern <= s[i..];
    }
  }

  /** Capitals become small letters, and other characters stay. */
  lemma LowerMeaning(s: string, i: nat)
    requires i < |s|
    ensures 'A' <= s[i] <= 'Z' ==> 'a' <= Lower(s)[i] <= 'z' && Lower(s)[i] - 'a' == s[i] - 'A'
    ensures !('A' <= s[i] <= 'Z') ==> Lower(s)[i] == s[i]
  {
  }
}
