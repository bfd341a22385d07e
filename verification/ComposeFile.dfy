/** The docker-compose rewrite of scripts/auto-update/update-manager.ts: two regular-expression
    replacements, each of the version tag in the first matching image line. */
module ComposeFile {
  const RETH_BODY := " ghcr.io/paradigmxyz/op-reth"
  const NODE_BODY := " us-docker.pkg.dev/" + "oplabs-tools-artifacts/" + "images/op-node"

  const RETH_IMAGE := "image:" + RETH_BODY + ":"
  const NODE_IMAGE := "image:" + NODE_BODY + ":"

  predicate IsTagChar(c: char) {
    '0' <= c <= '9' || c == '.'
  }

  /** A tag of the form v[0-9.]+. */
  predicate IsTag(tag: string) {
    |tag| >= 2 && tag[0] == 'v' && forall i :: 1 <= i < |tag| ==> IsTagChar(tag[i])
  }

  // ---------- the pattern <image>v[\d.]+ ----------

  predicate MatchAt(text: string, image: string, k: nat) {
    && k + |image| + 2 <= |text|
    && text[k..k + |image|] == image
    && text[k + |image|] == 'v'
    && IsTagChar(text[k + |image| + 1])
  }

  /** The leftmost match at or after k, or -1. */
  function FindFrom(text: string, image: string, k: nat): (i: int)
    requires k <= |text|
    ensures i == -1 || (k <= i < |text| && MatchAt(text, image, i))
    ensures forall j: nat :: k <= j && (i == -1 || j < i) ==> !MatchAt(text, image, j)
    decreases |text| - k
  {
    if MatchAt(text, image, k) then k else if k == |text| then -1 else FindFrom(text, image, k + 1)
  }

  /** The pattern is greedy: the end of the run of tag characters. */
  function TagEnd(text: string, k: nat): (e: nat)
    requires k <= |text|
    ensures k <= e <= |text|
    ensures forall i :: k <= i < e ==> IsTagChar(text[i])
    ensures e < |text| ==> !IsTagChar(text[e])
    decreases |text| - k
  {
    if k < |text| && IsTagChar(text[k]) then TagEnd(text, k + 1) else k
  }

  /** String.replace's replacement patterns, for a match without capture groups. */
  function Expand(replacement: string, matched: string, before: string, after: string): string {
    if |replacement| < 2 then replacement
    else if replacement[0] == '$' && replacement[1] == '$' then "$" + Expand(replacement[2..], matched, before, after)
    else if replacement[0] == '$' && replacement[1] == '&'
          then matched + Expand(replacement[2..], matched, before, after)
    else if replacement[0] == '$' && replacement[1] == '`'
          then before + Expand(replacement[2..], matched, before, after)
    else if replacement[0] == '$' && replacement[1] == '\''
          then after + Expand(replacement[2..], matched, before, after)
    else [replacement[0]] + Expand(replacement[1..], matched, before, after)
  }

  lemma {:induction false} ExpandPlain(replacement: string, matched: string, before: string, after: string)
    requires '$' !in replacement
    ensures Expand(replacement, matched, before, after) == replacement
  {
    if |replacement| >= 2 {
      ExpandPlain(replacement[1..], matched, before, after);
      assert replacement == [replacement[0]] + replacement[1..];
    }
  }

  /** What a '$' and the character behind it stand for. */
  function Special(c: char, matched: string, before: string, after: string): string
    requires c in "$&`'"
  {
    if c == '$' then "$" else if c == '&' then matched else if c == '`' then before else after
  }

  lemma ExpandDollar(c: char, rest: string, matched: string, before: string, after: string)
    requires c in "$&`'"
    ensures Expand(['$', c] + rest, matched, before, after)
         == Special(c, matched, before, after) + Expand(rest, matched, before, after)
  {
    assert (['$', c] + rest)[2..] == rest;
  }

  /** A '$' before any other character is kept. */
  lemma ExpandOther(c: char, rest: string, matched: string, before: string, after: string)
    requires c !in "$&`'"
    ensures Expand(['$', c] + rest, matched, before, after) == "$" + Expand([c] + rest, matched, before, after)
  {
    assert (['$', c] + rest)[1..] == [c] + rest;
  }

  lemma ExpandKeep(c: char, rest: string, matched: string, before: string, after: string)
    requires c != '$'
    ensures Expand([c] + rest, matched, before, after) == [c] + Expand(rest, matched, before, after)
  {
    assert ([c] + rest)[1..] == rest;
  }

  /** Text up to the first '$' is kept, and the special pair there is replaced. */
  lemma {:induction false} ExpandSpecial(plain: string, c: char, rest: string, matched: string, before: string,
                                         after: string)
    requires '$' !in plain && c in "$&`'"
    ensures Expand(plain + (['$', c] + rest), matched, before, after)
         == plain + (Special(c, matched, before, after) + Expand(rest, matched, before, after))
  {
    var tail := ['$', c] + rest;
    ExpandDollar(c, rest, matched, before, after);
    if plain == "" {
      assert plain + tail == tail;
    } else {
      var first, more := plain[0], plain[1..];
      ExpandSpecial(more, c, rest, matched, before, after);
      assert plain == [first] + more && plain + tail == [first] + (more + tail);
      ExpandKeep(first, more + tail, matched, before, after);
    }
  }

  function ReplaceTag(text: string, image: string, tag: string): string {
    var i := FindFrom(text, image, 0);
    if i == -1 then text
    else
      var e := TagEnd(text, i + |image| + 1);
      text[..i] + Expand(image + tag, text[i..e], text[..i], text[e..]) + text[e..]
  }

  datatype Tags = Tags(reth: string, opNode: string)

  function UpdateDockerCompose(text: string, tags: Tags): string {
    ReplaceTag(ReplaceTag(text, RETH_IMAGE, tags.reth), NODE_IMAGE, tags.opNode)
  }

  // ---------- one image ----------

  /** Text cut around a match: before + image + tag + after, the tag being the whole run. */
  ghost predicate Cut(text: string, image: string, before: string, tag: string, after: string) {
    && text == before + image + tag + after
    && IsTag(tag)
    && (after != "" ==> !IsTagChar(after[0]))
    && FindFrom(text, image, 0) == |before|
  }

  lemma ThreeCuts(text: string, i: nat, s: nat, e: nat)
    requires i <= s <= e <= |text|
    ensures text == text[..i] + text[i..s] + text[s..e] + text[e..]
  {
    assert text == text[..i] + text[i..];
    assert text[i..] == text[i..s] + text[s..];
    assert text[s..] == text[s..e] + text[e..];
  }

  lemma CutAtMatch(text: string, image: string) returns (before: string, tag: string, after: string)
    requires FindFrom(text, image, 0) != -1
    ensures Cut(text, image, before, tag, after)
  {
    var i := FindFrom(text, image, 0);
    var s := i + |image|;
    var e := TagEnd(text, s + 1);
    before, tag, after := text[..i], text[s..e], text[e..];
    assert text[i..s] == image;
    ThreeCuts(text, i, s, e);
    assert e > s + 1;
  }

  /** Whether some text matches before position |before| does not depend on what follows the
      image name and the 'v' of its tag. */
  lemma FirstMatchStable(image: string, before: string, tag: string, after: string, tag': string, after': string)
    requires IsTag(tag) && IsTag(tag')
    requires FindFrom(before + image + tag + after, image, 0) == |before|
    ensures FindFrom(before + image + tag' + after', image, 0) == |before|
  {
    var t, t' := before + image + tag + after, before + image + tag' + after';
    var n := |before| + |image|;
    assert t'[|before|..n] == image && t'[n] == tag'[0] && t'[n + 1] == tag'[1];
    assert MatchAt(t', image, |before|);
    forall j: nat | j < |before| ensures !MatchAt(t', image, j) {
      assert t[..n + 1] == before + image + "v" == t'[..n + 1];
      MatchInPrefix(t, t', image, j, n + 1);
    }
  }

  lemma MatchInPrefix(t: string, t': string, image: string, k: nat, m: nat)
    requires m <= |t| && m <= |t'| && t[..m] == t'[..m] && k + |image| + 2 <= m
    ensures MatchAt(t, image, k) <==> MatchAt(t', image, k)
  {
    assert t[k..k + |image|] == t[..m][k..k + |image|];
    assert t'[k..k + |image|] == t'[..m][k..k + |image|];
    assert t[k + |image|] == t[..m][k + |image|] && t'[k + |image|] == t'[..m][k + |image|];
    assert t[k + |image| + 1] == t[..m][k + |image| + 1] && t'[k + |image| + 1] == t'[..m][k + |image| + 1];
  }

  /** The replacement changes the version tag of the first match and nothing else. */
  lemma ReplaceAtCut(text: string, image: string, before: string, tag: string, after: string, tag': string)
    requires Cut(text, image, before, tag, after) && '$' !in image && '$' !in tag'
    ensures ReplaceTag(text, image, tag') == before + image + tag' + after
  {
    var i, e := |before|, |before| + |image| + |tag|;
    TagEndAtCut(text, image, before, tag, after);
    MiddleJoined(before, image, tag, after);
    MiddleJoined(before, image, tag', after);
    CutEnds(before, image + tag, after);
    ExpandPlain(image + tag', text[i..e], before, after);
  }

  lemma MiddleJoined(before: string, image: string, tag: string, after: string)
    ensures before + image + tag + after == before + (image + tag) + after
  {
  }

  lemma CutEnds(before: string, mid: string, after: string)
    ensures var text := before + mid + after; text[..|before|] == before && text[|before| + |mid|..] == after
  {
  }

  lemma TagEndAtCut(text: string, image: string, before: string, tag: string, after: string)
    requires Cut(text, image, before, tag, after)
    ensures TagEnd(text, |before| + |image| + 1) == |before| + |image| + |tag|
  {
    var s := |before| + |image|;
    assert text[s + 1..s + |tag|] == tag[1..];
    forall i | s + 1 <= i < s + |tag| ensures IsTagChar(text[i]) {
      assert text[i] == tag[i - s];
    }
  }

  /** An image stands at j with a tag: a 'v' and a digit or dot. */
  predicate TaggedAt(text: string, image: string, j: nat) {
    && j + |image| + 1 < |text| && image <= text[j..] && text[j + |image|] == 'v'
    && ('0' <= text[j + |image| + 1] <= '9' || text[j + |image| + 1] == '.')
  }

  lemma TaggedMeaning(text: string, image: string, j: nat)
    ensures TaggedAt(text, image, j) <==> MatchAt(text, image, j)
  {
    if j + |image| + 1 < |text| {
      assert text[j..][..|image|] == text[j..j + |image|];
    }
  }

  /** The first tagged image gets the new tag in place of its 'v' and the whole run of digits and dots. */
  lemma FirstTagRewritten(text: string, image: string, before: string, tag: string, after: string, tag': string)
    requires text == before + image + tag + after && '$' !in image && '$' !in tag'
    requires |tag| >= 2 && tag[0] == 'v' && forall i :: 1 <= i < |tag| ==> '0' <= tag[i] <= '9' || tag[i] == '.'
    requires after != "" ==> !('0' <= after[0] <= '9' || after[0] == '.')
    requires forall j: nat :: j < |before| ==> !TaggedAt(text, image, j)
    ensures ReplaceTag(text, image, tag') == before + image + tag' + after
  {
    var n := |before| + |image|;
    assert text[|before|..n] == image && text[n] == tag[0] && text[n + 1] == tag[1];
    assert MatchAt(text, image, |before|);
    forall j: nat | j < |before| ensures !MatchAt(text, image, j) {
      TaggedMeaning(text, image, j);
    }
    ReplaceAtCut(text, image, before, tag, after, tag');
  }

  /** Without a tagged image the text stays. */
  lemma NothingRewritten(text: string, image: string, tag: string)
    requires forall j: nat :: j < |text| ==> !TaggedAt(text, image, j)
    ensures ReplaceTag(text, image, tag) == text
  {
    var i := FindFrom(text, image, 0);
    if i != -1 {
      TaggedMeaning(text, image, i);
    }
  }

  /** For every text: without a match nothing changes, with one only the tag of the first match does. */
  lemma ReplaceChangesOnlyTheTag(text: string, image: string, tag': string)
    requires '$' !in image && '$' !in tag'
    ensures FindFrom(text, image, 0) == -1 ==> ReplaceTag(text, image, tag') == text
    ensures FindFrom(text, image, 0) != -1 ==>
              exists before, tag, after :: Cut(text, image, before, tag, after)
                                        && ReplaceTag(text, image, tag') == before + image + tag' + after
  {
    if FindFrom(text, image, 0) != -1 {
      var before, tag, after := CutAtMatch(text, image);
      ReplaceAtCut(text, image, before, tag, after, tag');
    }
  }

  /** After a replacement the same match is found again, now with the new tag. */
  lemma CutAfterReplace(text: string, image: string, before: string, tag: string, after: string, tag': string)
    requires Cut(text, image, before, tag, after) && '$' !in image && IsTag(tag')
    ensures Cut(ReplaceTag(text, image, tag'), image, before, tag', after)
  {
    TagHasNoDollar(tag');
    ReplaceAtCut(text, image, before, tag, after, tag');
    FirstMatchStable(image, before, tag, after, tag', after);
  }

  lemma TagHasNoDollar(tag: string)
    requires IsTag(tag)
    ensures '$' !in tag
  {
  }

  /** The last replacement wins over an earlier one; with equal tags: replacing is idempotent. */
  lemma LastReplaceWins(text: string, image: string, tag: string, tag': string)
    requires '$' !in image && IsTag(tag) && IsTag(tag')
    ensures ReplaceTag(ReplaceTag(text, image, tag), image, tag') == ReplaceTag(text, image, tag')
  {
    if FindFrom(text, image, 0) != -1 {
      var before, was, after := CutAtMatch(text, image);
      CutAfterReplace(text, image, before, was, after, tag);
      TagHasNoDollar(tag');
      ReplaceAtCut(ReplaceTag(text, image, tag), image, before, tag, after, tag');
      ReplaceAtCut(text, image, before, was, after, tag');
    }
  }

  // ---------- two images ----------

  /** No occurrence of q begins inside an occurrence of p. */
  predicate NoOverlap(p: string, q: string) {
    forall d :: 0 <= d < |p| ==> !(q <= p[d..]) && !(p[d..] <= q)
  }

  /** Images that never share a character in any text, neither of which starts with a tag character or a 'v'. */
  predicate Independent(p: string, q: string) {
    && p != "" && q != "" && '$' !in p && '$' !in q
    && !IsTagChar(p[0]) && p[0] != 'v' && !IsTagChar(q[0]) && q[0] != 'v'
    && NoOverlap(p, q) && NoOverlap(q, p)
  }

  /** A match of q in a text cut around an occurrence of p lies wholly before or wholly after it. */
  lemma MatchOnOneSide(p: string, q: string, before: string, tag: string, after: string, k: nat)
    requires Independent(p, q) && IsTag(tag)
    ensures var skip := |before| + |p| + |tag|;
            MatchAt(before + p + tag + after, q, k)
            <==> MatchAt(before, q, k) || (k >= skip && MatchAt(after, q, k - skip))
  {
    var t := before + p + tag + after;
    var b, n := |before|, |before| + |p|;
    var skip := n + |tag|;
    if MatchAt(before, q, k) {
      assert t[k..k + |q|] == before[k..k + |q|];
    }
    if k >= skip {
      assert t[skip..] == after;
      if k + |q| + 2 <= |t| {
        assert t[k..k + |q|] == after[k - skip..k - skip + |q|];
      }
    } else if MatchAt(t, q, k) {
      StartsBefore(p, q, before, tag, after, k);
      EndsBefore(p, q, before, tag, after, k);
      assert t[k..k + |q|] == before[k..k + |q|];
    }
  }

  /** Two overlapping occurrences: from where the second begins, one is a prefix of the other. */
  lemma OverlapAt(t: string, p: string, b: nat, q: string, k: nat)
    requires b <= k < b + |p| <= |t| && k + |q| <= |t|
    requires t[b..b + |p|] == p && t[k..k + |q|] == q
    ensures q <= p[k - b..] || p[k - b..] <= q
  {
    assert p[k - b..] == t[k..b + |p|];
    if k + |q| <= b + |p| {
      assert t[k..b + |p|][..|q|] == q;
    } else {
      assert q[..b + |p| - k] == t[k..b + |p|];
    }
  }

  lemma StartsBefore(p: string, q: string, before: string, tag: string, after: string, k: nat)
    requires Independent(p, q) && IsTag(tag)
    requires MatchAt(before + p + tag + after, q, k) && k < |before| + |p| + |tag|
    ensures k < |before|
  {
    var t := before + p + tag + after;
    assert t[k] == t[k..k + |q|][0] == q[0];
    assert t[|before| + |p|..|before| + |p| + |tag|] == tag;
    assert t[|before|..|before| + |p|] == p;
    if |before| <= k < |before| + |p| {
      OverlapAt(t, p, |before|, q, k);
    }
  }

  lemma EndsBefore(p: string, q: string, before: string, tag: string, after: string, k: nat)
    requires Independent(p, q) && IsTag(tag) && k < |before|
    requires MatchAt(before + p + tag + after, q, k)
    ensures k + |q| + 2 <= |before|
  {
    var t := before + p + tag + after;
    assert t[|before|..|before| + |p|] == p;
    assert t[|before|] == p[0];
    if |before| < k + |q| {
      OverlapAt(t, q, k, p, |before|);
    }
  }

  lemma FindBeside(p: string, q: string, before: string, tag: string, after: string)
    requires Independent(p, q) && IsTag(tag) && FindFrom(before, q, 0) == -1
    ensures var i := FindFrom(after, q, 0);
            FindFrom(before + p + tag + after, q, 0) == if i == -1 then -1 else |before| + |p| + |tag| + i
  {
    var t, skip := before + p + tag + after, |before| + |p| + |tag|;
    forall k: nat ensures MatchAt(t, q, k) <==> k >= skip && MatchAt(after, q, k - skip) {
      MatchOnOneSide(p, q, before, tag, after, k);
      assert !MatchAt(before, q, k);
    }
    var i := FindFrom(after, q, 0);
    if i != -1 {
      assert MatchAt(t, q, skip + i);
    }
  }

  /** When q does not match before an occurrence of p and its tag, its replacement happens after them. */
  lemma ReplaceBeside(p: string, q: string, before: string, tag: string, after: string, w: string)
    requires Independent(p, q) && IsTag(tag) && '$' !in w
    requires FindFrom(before, q, 0) == -1
    ensures ReplaceTag(before + p + tag + after, q, w) == before + p + tag + ReplaceTag(after, q, w)
  {
    FindBeside(p, q, before, tag, after);
    if FindFrom(after, q, 0) != -1 {
      ReplaceBehind(before + p + tag, after, q, w);
    }
  }

  lemma ReplaceBehind(head: string, text: string, q: string, w: string)
    requires '$' !in q && '$' !in w
    requires FindFrom(text, q, 0) != -1 && FindFrom(head + text, q, 0) == |head| + FindFrom(text, q, 0)
    ensures ReplaceTag(head + text, q, w) == head + ReplaceTag(text, q, w)
  {
    var before, tag, after := CutAtMatch(text, q);
    Regroup(head, before, q, tag, after);
    ReplaceAtCut(text, q, before, tag, after, w);
    ReplaceAtCut(head + text, q, head + before, tag, after, w);
    Regroup(head, before, q, w, after);
  }

  lemma Regroup(head: string, before: string, q: string, tag: string, after: string)
    ensures head + (before + q + tag + after) == (head + before) + q + tag + after
  {
  }

  /** A match of q in a piece of text in front is a match of the whole text. */
  lemma NoMatchInFront(before: string, rest: string, q: string)
    requires forall k: nat :: k < |before| ==> !MatchAt(before + rest, q, k)
    ensures FindFrom(before, q, 0) == -1
  {
    var i := FindFrom(before, q, 0);
    if i != -1 {
      MatchInPrefix(before, before + rest, q, i, |before|);
    }
  }

  /** Replacing p's tag neither makes nor destroys a match of q. */
  lemma NoMatchKept(text: string, p: string, v: string, q: string)
    requires Independent(p, q) && IsTag(v) && FindFrom(text, q, 0) == -1
    ensures FindFrom(ReplaceTag(text, p, v), q, 0) == -1
  {
    if FindFrom(text, p, 0) != -1 {
      var before, tag, after := CutAtMatch(text, p);
      NoMatchInFront(before, p + tag + after, q) by {
        assert text == before + (p + tag + after);
      }
      FindBeside(p, q, before, tag, after);
      TagHasNoDollar(v);
      ReplaceAtCut(text, p, before, tag, after, v);
      FindBeside(p, q, before, v, after);
    }
  }

  /** Replacing q after p's tag, in either order. */
  lemma FirstThenSecond(text: string, p: string, v: string, q: string, w: string, before: string, tag: string,
                        after: string)
    requires Independent(p, q) && IsTag(v) && IsTag(w)
    requires Cut(text, p, before, tag, after) && FindFrom(before, q, 0) == -1
    ensures ReplaceTag(ReplaceTag(text, p, v), q, w) == before + p + v + ReplaceTag(after, q, w)
  {
    TagHasNoDollar(v);
    TagHasNoDollar(w);
    ReplaceAtCut(text, p, before, tag, after, v);
    ReplaceBeside(p, q, before, v, after, w);
  }

  lemma SecondThenFirst(text: string, p: string, v: string, q: string, w: string, before: string, tag: string,
                        after: string)
    requires Independent(p, q) && IsTag(v) && IsTag(w)
    requires Cut(text, p, before, tag, after) && FindFrom(before, q, 0) == -1
    ensures ReplaceTag(ReplaceTag(text, q, w), p, v) == before + p + v + ReplaceTag(after, q, w)
  {
    TagHasNoDollar(v);
    TagHasNoDollar(w);
    var after' := ReplaceTag(after, q, w);
    ReplaceBeside(p, q, before, tag, after, w);
    FirstMatchStable(p, before, tag, after, tag, after');
    ReplaceAtCut(ReplaceTag(text, q, w), p, before, tag, after', v);
  }

  lemma NoMatchBefore(text: string, before: string, rest: string, q: string)
    requires text == before + rest && FindFrom(text, q, 0) > |before|
    ensures FindFrom(before, q, 0) == -1
  {
    NoMatchInFront(before, rest, q);
  }

  lemma NoEarlierMatch(text: string, p: string, before: string, tag: string, after: string, q: string)
    requires text == before + p + tag + after && FindFrom(text, q, 0) > |before|
    ensures FindFrom(before, q, 0) == -1
  {
    NoMatchBefore(text, before, text[|before|..], q);
  }

  lemma FirstOfTwoCut(text: string, p: string, v: string, q: string, w: string, before: string, tag: string,
                      after: string)
    requires Independent(p, q) && IsTag(v) && IsTag(w)
    requires Cut(text, p, before, tag, after) && FindFrom(before, q, 0) == -1
    ensures ReplaceTag(ReplaceTag(text, p, v), q, w) == ReplaceTag(ReplaceTag(text, q, w), p, v)
  {
    FirstThenSecond(text, p, v, q, w, before, tag, after);
    SecondThenFirst(text, p, v, q, w, before, tag, after);
  }

  lemma FirstOfTwo(text: string, p: string, v: string, q: string, w: string)
    requires Independent(p, q) && IsTag(v) && IsTag(w)
    requires 0 <= FindFrom(text, p, 0) < FindFrom(text, q, 0)
    ensures ReplaceTag(ReplaceTag(text, p, v), q, w) == ReplaceTag(ReplaceTag(text, q, w), p, v)
  {
    var before, tag, after := CutAtMatch(text, p);
    NoEarlierMatch(text, p, before, tag, after, q);
    FirstOfTwoCut(text, p, v, q, w, before, tag, after);
  }

  /** Replacements of independent images commute on every text. */
  lemma ReplacementsCommute(text: string, p: string, v: string, q: string, w: string)
    requires Independent(p, q) && IsTag(v) && IsTag(w)
    ensures ReplaceTag(ReplaceTag(text, p, v), q, w) == ReplaceTag(ReplaceTag(text, q, w), p, v)
  {
    var i, j := FindFrom(text, p, 0), FindFrom(text, q, 0);
    if i == -1 {
      NoMatchKept(text, q, w, p);
    } else if j == -1 {
      NoMatchKept(text, p, v, q);
    } else if i < j {
      FirstOfTwo(text, p, v, q, w);
    } else if j < i {
      FirstOfTwo(text, q, w, p, v);
    } else {
      NotSamePlace(text, p, q, i);
    }
  }

  lemma NotSamePlace(text: string, p: string, q: string, i: nat)
    requires Independent(p, q)
    ensures !(MatchAt(text, p, i) && MatchAt(text, q, i))
  {
    assert p[0..] == p;
    if MatchAt(text, p, i) && MatchAt(text, q, i) {
      OverlapAt(text, p, i, q, i);
    }
  }

  // ---------- the two images of the compose file ----------

  /** "image:" + body + ":" with no colon in the body. */
  predicate IsImage(image: string, body: string) {
    && image == "image:" + body + ":"
    && ':' !in body && '$' !in body && |body| >= 2
  }

  lemma ImageInside(p: string, bp: string, q: string, bq: string, d: nat)
    requires IsImage(p, bp) && IsImage(q, bq) && d < |p| && q <= p[d..]
    ensures p == q
  {
    assert p[d..][5] == p[d + 5] && p[d..][|q| - 1] == p[d + |q| - 1];
    assert p[0..] == p;
  }

  lemma ImageEndsInside(p: string, bp: string, q: string, bq: string, d: nat)
    requires IsImage(p, bp) && IsImage(q, bq) && d < |p| && p[d..] <= q && |p| - d != |q|
    ensures bp[|bp| - 2] == 'g'
  {
    assert p[d..][|p| - 1 - d] == p[|p| - 1];
    assert p[d..][3] == p[d + 3] == bp[|bp| - 2];
  }

  lemma ImagesDoNotOverlap(p: string, bp: string, q: string, bq: string)
    requires IsImage(p, bp) && IsImage(q, bq) && p != q && bp[|bp| - 2] != 'g'
    ensures NoOverlap(p, q)
  {
    forall d | 0 <= d < |p| ensures !(q <= p[d..]) && !(p[d..] <= q) {
      if q <= p[d..] {
        ImageInside(p, bp, q, bq, d);
      } else if p[d..] <= q {
        ImageEndsInside(p, bp, q, bq, d);
      }
    }
  }

  lemma NodeIsImage()
    ensures IsImage(NODE_IMAGE, NODE_BODY) && NODE_BODY[|NODE_BODY| - 2] == 'd'
  {
  }

  lemma ComposeImagesIndependent()
    ensures Independent(RETH_IMAGE, NODE_IMAGE)
  {
    NodeIsImage();
    assert |RETH_IMAGE| != |NODE_IMAGE|;
    ImagesDoNotOverlap(RETH_IMAGE, RETH_BODY, NODE_IMAGE, NODE_BODY);
    ImagesDoNotOverlap(NODE_IMAGE, NODE_BODY, RETH_IMAGE, RETH_BODY);
  }

  predicate ValidTags(tags: Tags) {
    IsTag(tags.reth) && IsTag(tags.opNode)
  }

  /** The order of the two replacements does not matter. */
  lemma ComposeReplacementsCommute(text: string, tags: Tags)
    requires ValidTags(tags)
    ensures UpdateDockerCompose(text, tags)
         == var node := "image:" + (" us-docker.pkg.dev/" + "oplabs-tools-artifacts/" + "images/op-node") + ":";
            var reth := "image:" + " ghcr.io/paradigmxyz/op-reth" + ":";
            ReplaceTag(ReplaceTag(text, node, tags.opNode), reth, tags.reth)
  {
    ComposeImagesIndependent();
    ReplacementsCommute(text, RETH_IMAGE, tags.reth, NODE_IMAGE, tags.opNode);
  }

  /** The last update of a compose file wins; with equal tags: updating is idempotent. */
  lemma LastUpdateWins(text: string, tags: Tags, tags': Tags)
    requires ValidTags(tags) && ValidTags(tags')
    ensures UpdateDockerCompose(UpdateDockerCompose(text, tags), tags') == UpdateDockerCompose(text, tags')
  {
    ComposeImagesIndependent();
    var t := ReplaceTag(text, RETH_IMAGE, tags.reth);
    ReplacementsCommute(t, NODE_IMAGE, tags.opNode, RETH_IMAGE, tags'.reth);
    LastReplaceWins(text, RETH_IMAGE, tags.reth, tags'.reth);
    LastReplaceWins(ReplaceTag(text, RETH_IMAGE, tags'.reth), NODE_IMAGE, tags.opNode, tags'.opNode);
  }
}
