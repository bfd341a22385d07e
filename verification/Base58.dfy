/** The Base58 decoder of scripts/deploy-app.ts and, as its specification, the Base58 codec of
    draft-msporny-base58 (sections 3 and 4). */
module Base58 {
  import opened Wrappers
  import opened Digits

  const NUMERALS := "123456789"
  const CAPITALS := "ABCDEFGHJKLMNPQRSTUVWXYZ"
  const SMALL := "abcdefghijkmnopqrstuvwxyz"
  const ALPHABET := NUMERALS + CAPITALS + SMALL

  datatype DecodeError = InvalidCharacter(c: char)

  // ---------- the alphabet ----------

  /** Position of the first c in s at or after k, or -1. */
  function IndexFrom(s: string, c: char, k: nat): (i: int)
    requires k <= |s|
    ensures i == -1 || (k <= i < |s| && s[i] == c)
    ensures i == -1 ==> forall j :: k <= j < |s| ==> s[j] != c
    decreases |s| - k
  {
    if k == |s| then -1 else if s[k] == c then k else IndexFrom(s, c, k + 1)
  }

  function IndexOf(c: char): int {
    IndexFrom(ALPHABET, c, 0)
  }

  /** The character code at a position, run by run. */
  function CodeAt(i: nat): int {
    if i < 9 then '1' as int + i
    else if i < 17 then 'A' as int + i - 9
    else if i < 22 then 'J' as int + i - 17
    else if i < 33 then 'P' as int + i - 22
    else if i < 44 then 'a' as int + i - 33
    else 'm' as int + i - 44
  }

  lemma SmallAt(i: nat)
    requires i < |SMALL|
    ensures SMALL[i] as int == CodeAt(i + 33)
  {
  }

  lemma AlphabetAt(i: nat)
    requires i < |ALPHABET|
    ensures ALPHABET[i] as int == CodeAt(i)
  {
    if i >= 33 {
      SmallAt(i - 33);
    }
  }

  lemma AlphabetDistinct(i: nat, j: nat)
    requires i < |ALPHABET| && j < |ALPHABET| && ALPHABET[i] == ALPHABET[j]
    ensures i == j
  {
    AlphabetAt(i);
    AlphabetAt(j);
  }

  /** The alphabet is in strictly increasing order. */
  lemma AlphabetIncreases(i: nat, j: nat)
    requires i < j < 58
    ensures |ALPHABET| == 58 && ALPHABET[i] < ALPHABET[j]
  {
    AlphabetAt(i);
    AlphabetAt(j);
  }

  /** Where a numeral or letter stands in the alphabet, none of 0, O, I and l being asked for. */
  function Place(c: char): int {
    if c <= '9' then c as int - '1' as int
    else if c <= 'H' then c as int - 'A' as int + 9
    else if c <= 'N' then c as int - 'J' as int + 17
    else if c <= 'Z' then c as int - 'P' as int + 22
    else if c <= 'k' then c as int - 'a' as int + 33
    else c as int - 'm' as int + 44
  }

  /** It holds exactly the numerals, capitals and small letters without 0, O, I and l. */
  lemma AlphabetExactly(c: char)
    ensures IndexOf(c) >= 0 <==>
            || '1' <= c <= '9'
            || ('A' <= c <= 'Z' && c != 'I' && c != 'O')
            || ('a' <= c <= 'z' && c != 'l')
  {
    if IndexOf(c) >= 0 {
      AlphabetAt(IndexOf(c));
    }
    if '1' <= c <= '9' || ('A' <= c <= 'Z' && c != 'I' && c != 'O') || ('a' <= c <= 'z' && c != 'l') {
      AlphabetAt(Place(c));
      assert ALPHABET[Place(c)] == c;
    }
  }

  // ---------- the draft's codec, on digits ----------

  predicate InAlphabet(s: string) {
    forall i :: 0 <= i < |s| ==> IndexOf(s[i]) >= 0
  }

  function DigitsOf(s: string): (d: seq<nat>)
    requires InAlphabet(s)
    ensures Below(d, 58)
  {
    seq(|s|, i requires 0 <= i < |s| => IndexOf(s[i]))
  }

  function CharsOf(d: seq<nat>): string
    requires Below(d, 58)
  {
    seq(|d|, i requires 0 <= i < |d| => ALPHABET[d[i]])
  }

  lemma CharsDigits(d: seq<nat>)
    requires Below(d, 58)
    ensures InAlphabet(CharsOf(d)) && DigitsOf(CharsOf(d)) == d
  {
    forall i | 0 <= i < |d| ensures IndexOf(CharsOf(d)[i]) == d[i] {
      var k := IndexOf(ALPHABET[d[i]]);
      AlphabetDistinct(k, d[i]);
    }
  }

  /** Draft section 3: one '1' for each leading zero byte, then the value in base 58. */
  function Encode(bytes: seq<nat>): (s: string)
    requires Below(bytes, 256)
  {
    TranscodeInverse(bytes, 256, 58);
    CharsOf(Transcode(bytes, 256, 58))
  }

  /** Draft section 4: one zero byte for each leading '1', then the value in base 256. */
  function DraftDecode(s: string): (bytes: seq<nat>)
    requires InAlphabet(s)
    ensures Below(bytes, 256)
  {
    TranscodeInverse(DigitsOf(s), 58, 256);
    Transcode(DigitsOf(s), 58, 256)
  }

  // ---------- what the source's decoder returns ----------

  /** The in-place buffer's content for value v: zero keeps its one initial cell. */
  function Cells(v: nat): seq<nat> {
    if v == 0 then [0] else Numeral(v, 256)
  }

  function FirstInvalid(s: string): (r: Option<char>)
    ensures r.None? <==> InAlphabet(s)
  {
    if s == [] then None
    else if IndexOf(s[0]) == -1 then
      assert !InAlphabet(s);
      Some(s[0])
    else
      var r := FirstInvalid(s[1..]);
      assert r.None? ==> forall i :: 1 <= i < |s| ==> IndexOf(s[i]) == IndexOf(s[1..][i - 1]);
      assert InAlphabet(s) ==> forall i :: 0 <= i < |s[1..]| ==> s[1..][i] == s[i + 1];
      r
  }

  function Decoded(s: string): Result<seq<nat>, DecodeError> {
    match FirstInvalid(s)
    case Some(c) => Err(InvalidCharacter(c))
    case None => Ok(Zeros(Leading(DigitsOf(s))) + Cells(Value(DigitsOf(s), 58)))
  }

  /** The inner loop: multiply every cell by 58 from the last to the first. The carry never reaches 58. */
  method MultiplyCells(cells: seq<nat>, value: nat) returns (bytes: seq<nat>, carry: nat)
    requires cells != [] && Below(cells, 256) && value < 58
    ensures |bytes| == |cells| && Below(bytes, 256) && carry < 58
    ensures carry * Pow(256, |bytes|) + Value(bytes, 256) == Value(cells, 256) * 58 + value
    ensures cells[0] != 0 ==> carry > 0 || bytes[0] != 0
  {
    bytes := cells;
    carry := value;
    var i := |bytes| - 1;
    while i >= 0
      invariant -1 <= i < |cells| == |bytes|
      invariant Below(bytes, 256) && carry < 58
      invariant bytes[..i + 1] == cells[..i + 1]
      invariant Value(cells[i + 1..], 256) * 58 + value
                   == carry * Pow(256, |cells| - 1 - i) + Value(bytes[i + 1..], 256)
      invariant i == -1 && cells[0] != 0 ==> carry > 0 || bytes[0] != 0
      decreases i
    {
      var n := bytes[i] * 58 + carry;
      CarryStep(cells, bytes, i, carry, value);
      assert |cells| - 1 - (i - 1) == |cells| - i;
      bytes := bytes[i := n % 256];
      carry := n / 256;
      i := i - 1;
    }
    assert cells[0..] == cells && bytes[0..] == bytes;
  }

  /** One character of the outer loop: bytes becomes the buffer for old * 58 + value. The carry out
      of the inner loop fits one cell, so at most one cell is put in front. */
  method MultiplyAdd(cells: seq<nat>, value: nat) returns (bytes: seq<nat>)
    requires cells != [] && Below(cells, 256) && value < 58
    requires cells[0] != 0 || cells == [0]
    ensures bytes != [] && Below(bytes, 256)
    ensures bytes[0] != 0 || bytes == [0]
    ensures Value(bytes, 256) == Value(cells, 256) * 58 + value
    ensures |cells| <= |bytes| <= |cells| + 1
  {
    var carry: nat;
    bytes, carry := MultiplyCells(cells, value);
    ghost var inner := bytes;
    while carry > 0
      invariant carry < 58 && Below(bytes, 256) && bytes != []
      invariant carry > 0 ==> bytes == inner
      invariant carry == 0 ==> bytes[0] != 0 || bytes == [0]
      invariant |cells| <= |bytes| <= |cells| + 1
      invariant Value(cells, 256) * 58 + value == carry * Pow(256, |bytes|) + Value(bytes, 256)
    {
      ValueFirst([carry % 256] + bytes, 256);
      assert ([carry % 256] + bytes)[1..] == bytes;
      bytes := [carry % 256] + bytes;
      carry := carry / 256;
    }
  }

  lemma CarryStep(cells: seq<nat>, bytes: seq<nat>, i: nat, carry: nat, value: nat)
    requires i < |cells| == |bytes| && bytes[i] == cells[i]
    requires Value(cells[i + 1..], 256) * 58 + value == carry * Pow(256, |cells| - 1 - i) + Value(bytes[i + 1..], 256)
    ensures var n := bytes[i] * 58 + carry;
            Value(cells[i..], 256) * 58 + value
            == n / 256 * Pow(256, |cells| - i) + Value(bytes[i := n % 256][i..], 256)
  {
    var after := bytes[i := (bytes[i] * 58 + carry) % 256];
    ValueFirst(cells[i..], 256);
    ValueFirst(after[i..], 256);
    assert cells[i..][1..] == cells[i + 1..];
    assert after[i..][1..] == bytes[i + 1..];
    CarryArithmetic(cells[i], Pow(256, |cells| - 1 - i), Value(cells[i + 1..], 256),
                    Value(bytes[i + 1..], 256), value, carry);
  }

  lemma CarryArithmetic(cell: nat, p: nat, before: nat, after: nat, value: nat, carry: nat)
    requires before * 58 + value == carry * p + after
    ensures var n := cell * 58 + carry;
            (cell * p + before) * 58 + value == n / 256 * (256 * p) + (n % 256 * p + after)
  {
    var n := cell * 58 + carry;
    var q, r := n / 256, n % 256;
    assert n * p == (cell * 58) * p + carry * p;
    assert (cell * 58) * p == (cell * p) * 58;
    assert (q * 256 + r) * p == (q * 256) * p + r * p;
    assert (q * 256) * p == q * (256 * p);
  }

  /** A buffer without a superfluous first zero is the one determined by its value. */
  lemma CellsUnique(bytes: seq<nat>)
    requires bytes != [] && Below(bytes, 256) && (bytes[0] != 0 || bytes == [0])
    ensures bytes == Cells(Value(bytes, 256))
  {
    if bytes == [0] {
      assert bytes[..0] == [];
    } else {
      ValuePositive(bytes, 256);
      NumeralUnique(bytes, 256);
    }
  }

  /** base58Decode: in-place multiplication by 58, then one zero byte per leading '1'. */
  method Decode(str: string) returns (r: Result<seq<nat>, DecodeError>)
    ensures r == Decoded(str)
  {
    var bytes: seq<nat> := [0];
    var k := 0;
    while k < |str|
      invariant k <= |str| && InAlphabet(str[..k])
      invariant bytes != [] && Below(bytes, 256) && (bytes[0] != 0 || bytes == [0])
      invariant Value(bytes, 256) == Value(DigitsOf(str[..k]), 58)
    {
      var value := IndexOf(str[k]);
      if value == -1 {
        FirstInvalidAt(str, k);
        return Err(InvalidCharacter(str[k]));
      }
      bytes := MultiplyAdd(bytes, value);
      AppendDigit(str, k);
      k := k + 1;
    }
    assert str[..|str|] == str;
    CellsUnique(bytes);

    r := PadLeadingOnes(str, bytes);
  }

  /** The second half of base58Decode: count the leading '1's and copy the cells behind as many zeros. */
  method PadLeadingOnes(str: string, bytes: seq<nat>) returns (r: Result<seq<nat>, DecodeError>)
    requires InAlphabet(str)
    ensures r == Ok(Zeros(Leading(DigitsOf(str))) + bytes)
  {
    var leadingZeros := 0;
    while leadingZeros < |str| && str[leadingZeros] == '1'
      invariant leadingZeros <= |str|
      invariant forall j :: 0 <= j < leadingZeros ==> str[j] == '1'
    {
      leadingZeros := leadingZeros + 1;
    }
    LeadingOnes(str, leadingZeros);

    var result := new nat[leadingZeros + |bytes|](_ => 0);
    forall j | 0 <= j < |bytes| {
      result[leadingZeros + j] := bytes[j];
    }
    assert result[..] == Zeros(leadingZeros) + bytes;
    r := Ok(result[..]);
  }

  lemma AppendDigit(s: string, k: nat)
    requires k < |s| && InAlphabet(s[..k]) && IndexOf(s[k]) >= 0
    ensures InAlphabet(s[..k + 1])
    ensures Value(DigitsOf(s[..k + 1]), 58) == Value(DigitsOf(s[..k]), 58) * 58 + IndexOf(s[k])
  {
    var t := s[..k + 1];
    forall i | 0 <= i < |t| ensures IndexOf(t[i]) >= 0 {
      if i < k { assert t[i] == s[..k][i]; }
    }
    assert DigitsOf(t)[..k] == DigitsOf(s[..k]);
  }

  lemma {:induction false} FirstInvalidAt(s: string, k: nat)
    requires k < |s| && InAlphabet(s[..k]) && IndexOf(s[k]) == -1
    ensures FirstInvalid(s) == Some(s[k])
  {
    if k > 0 {
      assert s[..k][0] == s[0];
      var t := s[1..][..k - 1];
      forall i | 0 <= i < |t| ensures IndexOf(t[i]) >= 0 {
        assert t[i] == s[..k][i + 1];
      }
      FirstInvalidAt(s[1..], k - 1);
    }
  }

  lemma {:induction false} InvalidPlace(s: string) returns (k: nat)
    requires FirstInvalid(s).Some?
    ensures k < |s| && FirstInvalid(s) == Some(s[k]) && IndexOf(s[k]) == -1 && InAlphabet(s[..k])
  {
    if IndexOf(s[0]) == -1 {
      k := 0;
    } else {
      var j := InvalidPlace(s[1..]);
      k := j + 1;
      forall i | 0 <= i < k ensures IndexOf(s[..k][i]) >= 0 {
        if i > 0 { assert s[..k][i] == s[1..][..j][i - 1]; }
      }
    }
  }

  /** The character complained about is the first one outside the alphabet. */
  lemma FirstInvalidExactly(s: string, c: char)
    ensures FirstInvalid(s) == Some(c)
       <==> exists k: nat :: k < |s| && s[k] == c && IndexOf(c) == -1 && InAlphabet(s[..k])
  {
    if FirstInvalid(s) == Some(c) {
      var k := InvalidPlace(s);
      assert s[k] == c;
    }
    if k: nat :| k < |s| && s[k] == c && IndexOf(c) == -1 && InAlphabet(s[..k]) {
      FirstInvalidAt(s, k);
    }
  }

  lemma OneIsZero(c: char)
    ensures IndexOf(c) == 0 <==> c == '1'
  {
    assert ALPHABET[0] == NUMERALS[0];
  }

  lemma {:induction false} LeadingOnes(s: string, n: nat)
    requires InAlphabet(s) && n <= |s|
    requires forall j :: 0 <= j < n ==> s[j] == '1'
    requires n < |s| ==> s[n] != '1'
    ensures Leading(DigitsOf(s)) == n
  {
    var d := DigitsOf(s);
    forall j | 0 <= j < |s| ensures d[j] == 0 <==> s[j] == '1' { OneIsZero(s[j]); }
    assert d == Zeros(n) + d[n..];
    LeadingAfterZeros(n, d[n..]);
  }

  // ---------- round trips ----------

  /** The draft's codec is a bijection between byte strings and alphabet strings. */
  lemma DraftEncodeThenDecode(bytes: seq<nat>)
    requires Below(bytes, 256)
    ensures InAlphabet(Encode(bytes)) && DraftDecode(Encode(bytes)) == bytes
  {
    TranscodeInverse(bytes, 256, 58);
    CharsDigits(Transcode(bytes, 256, 58));
  }

  lemma DraftDecodeThenEncode(s: string)
    requires InAlphabet(s)
    ensures Encode(DraftDecode(s)) == s
  {
    TranscodeInverse(DigitsOf(s), 58, 256);
  }

  predicate AllOnes(s: string) {
    forall i :: 0 <= i < |s| ==> s[i] == '1'
  }

  predicate AllZero(bytes: seq<nat>) {
    forall i :: 0 <= i < |bytes| ==> bytes[i] == 0
  }

  lemma {:induction false} ValueZeroIff(d: seq<nat>, base: nat)
    requires base >= 2
    ensures Value(d, base) == 0 <==> AllZero(d)
  {
    var z := Leading(d);
    assert d == Zeros(z) + d[z..];
    ValueAfterZeros(z, d[z..], base);
    if z < |d| {
      ValuePositive(d[z..], base);
    }
  }

  lemma OnesAreZeros(s: string)
    requires InAlphabet(s)
    ensures AllOnes(s) <==> AllZero(DigitsOf(s))
  {
    forall j | 0 <= j < |s| ensures DigitsOf(s)[j] == 0 <==> s[j] == '1' { OneIsZero(s[j]); }
  }

  /** On alphabet strings the decoder agrees with the draft exactly when some character is not '1';
      on the others it returns one zero byte more. */
  lemma DecoderMeetsDraft(s: string)
    requires InAlphabet(s)
    ensures Decoded(s).Ok? && Below(Decoded(s).value, 256)
    ensures Decoded(s).value == DraftDecode(s) <==> !AllOnes(s)
    ensures AllOnes(s) ==> Decoded(s).value == Zeros(|s| + 1) && DraftDecode(s) == Zeros(|s|)
  {
    var d := DigitsOf(s);
    TranscodeInverse(d, 58, 256);
    ValueZeroIff(d, 58);
    OnesAreZeros(s);
    if AllOnes(s) {
      LeadingOnes(s, |s|);
      assert Zeros(|s|) + [0] == Zeros(|s| + 1);
    }
  }

  /** Encoding what was decoded gives the string back exactly when it has a character other than '1'. */
  lemma DecodeThenEncode(s: string)
    requires InAlphabet(s)
    ensures Decoded(s).Ok? && Below(Decoded(s).value, 256)
    ensures Encode(Decoded(s).value) == s <==> !AllOnes(s)
  {
    DecoderMeetsDraft(s);
    DraftDecodeThenEncode(s);
    if AllOnes(s) {
      EncodeZeros(|s| + 1);
    }
  }

  lemma EncodeZeros(n: nat)
    ensures |Encode(Zeros(n))| == n && AllOnes(Encode(Zeros(n)))
  {
    LeadingAfterZeros(n, []);
    assert Zeros(n) + [] == Zeros(n);
    ValueZeros(n, 256);
    assert Transcode(Zeros(n), 256, 58) == Zeros(n);
  }

  /** Decoding what was encoded gives the bytes back exactly when one of them is not zero. */
  lemma EncodeThenDecode(bytes: seq<nat>)
    requires Below(bytes, 256)
    ensures Decoded(Encode(bytes)) == Ok(bytes) <==> !AllZero(bytes)
  {
    var s := Encode(bytes);
    DraftEncodeThenDecode(bytes);
    DecoderMeetsDraft(s);
    TranscodeInverse(bytes, 256, 58);
    CharsDigits(Transcode(bytes, 256, 58));
    ValueZeroIff(bytes, 256);
    ValueZeroIff(DigitsOf(s), 58);
    OnesAreZeros(s);
  }

  /** No two alphabet strings decode to the same bytes. */
  lemma DecoderInjective(s: string, t: string)
    requires InAlphabet(s) && InAlphabet(t) && Decoded(s) == Decoded(t)
    ensures s == t
  {
    OnesByDecoding(s);
    OnesByDecoding(t);
    DecodeThenEncode(s);
    DecodeThenEncode(t);
  }

  /** The decoded bytes tell whether the string was all '1's, and then how long it was. */
  lemma OnesByDecoding(s: string)
    requires InAlphabet(s)
    ensures Decoded(s).Ok?
    ensures AllOnes(s) <==> AllZero(Decoded(s).value)
    ensures AllOnes(s) ==> |Decoded(s).value| == |s| + 1
  {
    DecoderMeetsDraft(s);
    TranscodeInverse(DigitsOf(s), 58, 256);
    OnesAreZeros(s);
    ValueZeroIff(DigitsOf(s), 58);
    if !AllOnes(s) {
      ValueZeroIff(DraftDecode(s), 256);
    }
  }
}
