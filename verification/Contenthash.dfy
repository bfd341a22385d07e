/** encodeIPFSContenthash of scripts/deploy-app.ts: CIDv0 check, contenthash layout and hex output. */
module Contenthash {
  import opened Wrappers
  import opened Digits
  import opened Base58
  import opened Text

  datatype EncodeError =
    | UnsupportedFormat
    | InvalidBase58(e: DecodeError)
    | InvalidMultihash
    | CidV1NotSupported

  // ---------- hex output ----------

  const HEX_DIGITS := "0123456789abcdef"

  /** Number.toString(16) on a byte. */
  function ToString16(b: nat): (s: string)
    requires b < 256
  {
    if b < 16 then [HEX_DIGITS[b]] else [HEX_DIGITS[b / 16], HEX_DIGITS[b % 16]]
  }

  /** The two digits of a byte. */
  function HexOf(b: nat): string
    requires b < 256
  {
    PadStart(ToString16(b), 2, '0')
  }

  function Hex(bytes: seq<nat>): (s: string)
    requires Below(bytes, 256)
    ensures |s| == 2 * |bytes|
  {
    if bytes == [] then "" else HexOf(bytes[0]) + Hex(bytes[1..])
  }

  predicate IsHexDigit(c: char) {
    '0' <= c <= '9' || 'a' <= c <= 'f'
  }

  function HexValue(c: char): (n: nat)
    ensures n < 16
  {
    if '0' <= c <= '9' then c as int - '0' as int else if 'a' <= c <= 'f' then c as int - 'a' as int + 10 else 0
  }

  function Unhex(s: string): (bytes: seq<nat>)
    ensures |bytes| == |s| / 2 && Below(bytes, 256)
  {
    if |s| < 2 then [] else [16 * HexValue(s[0]) + HexValue(s[1])] + Unhex(s[2..])
  }

  lemma HexDigitValue(n: nat)
    requires n < 16
    ensures HexValue(HEX_DIGITS[n]) == n && IsHexDigit(HEX_DIGITS[n])
  {
  }

  lemma HexByte(b: nat)
    requires b < 256
    ensures HexOf(b) == [HEX_DIGITS[b / 16], HEX_DIGITS[b % 16]]
  {
    if b < 16 {
      HexSmallByte(b);
    }
  }

  lemma HexSmallByte(b: nat)
    requires b < 16
    ensures HexOf(b) == [HEX_DIGITS[0], HEX_DIGITS[b]]
  {
    assert Repeat('0', 1) == ['0'];
  }

  /** Two lower-case digits for each byte, from which the bytes can be read back. */
  lemma UnhexHex(bytes: seq<nat>)
    requires Below(bytes, 256)
    ensures Unhex(Hex(bytes)) == bytes
    ensures forall i :: 0 <= i < |Hex(bytes)| ==> IsHexDigit(Hex(bytes)[i])
  {
    HexReadsBack(bytes);
    HexIsDigits(bytes);
  }

  lemma HexCons(bytes: seq<nat>) returns (c: char, d: char)
    requires Below(bytes, 256) && bytes != []
    ensures Hex(bytes) == [c, d] + Hex(bytes[1..])
    ensures IsHexDigit(c) && IsHexDigit(d)
    ensures 16 * HexValue(c) + HexValue(d) == bytes[0]
  {
    var b := bytes[0];
    HexByte(b);
    HexDigitValue(b / 16);
    HexDigitValue(b % 16);
    c, d := HEX_DIGITS[b / 16], HEX_DIGITS[b % 16];
  }

  lemma {:induction false} HexReadsBack(bytes: seq<nat>)
    requires Below(bytes, 256)
    ensures Unhex(Hex(bytes)) == bytes
  {
    if bytes != [] {
      var c, d := HexCons(bytes);
      HexReadsBack(bytes[1..]);
      UnhexTwo(c, d, Hex(bytes[1..]));
    }
  }

  lemma {:induction false} HexIsDigits(bytes: seq<nat>)
    requires Below(bytes, 256)
    ensures forall i :: 0 <= i < |Hex(bytes)| ==> IsHexDigit(Hex(bytes)[i])
  {
    if bytes != [] {
      var c, d := HexCons(bytes);
      HexIsDigits(bytes[1..]);
    }
  }

  lemma UnhexTwo(c: char, d: char, rest: string)
    ensures Unhex([c, d] + rest) == [16 * HexValue(c) + HexValue(d)] + Unhex(rest)
  {
    assert ([c, d] + rest)[2..] == rest;
  }

  // ---------- the size of a CIDv0 ----------

  /** A sha2-256 multihash: code 0x12, length 0x20, 32 digest bytes. */
  predicate IsSha256Multihash(m: seq<nat>) {
    |m| == 34 && Below(m, 256) && m[0] == 0x12 && m[1] == 0x20
  }

  const POW_58_11 := 24986644000165537792
  const POW_58_44 := POW_58_11 * POW_58_11 * (POW_58_11 * POW_58_11)
  const TWO_256 := 0x1_0000_0000_0000_0000_0000_0000_0000_0000_0000_0000_0000_0000_0000_0000_0000_0000

  lemma PowersOf58()
    ensures Pow(58, 44) == POW_58_44
  {
    assert Pow(58, 5) == 656356768;
    PowAdd(58, 5, 5);
    assert Pow(58, 11) == 58 * Pow(58, 10);
    PowAdd(58, 11, 11);
    PowAdd(58, 22, 22);
  }

  lemma PowersOf256()
    ensures Pow(256, 32) == TWO_256
  {
    assert Pow(256, 4) == 0x1_0000_0000;
    PowAdd(256, 4, 4);
    PowAdd(256, 8, 8);
    PowAdd(256, 16, 16);
  }

  lemma TwoDigits(x: nat, y: nat, base: nat)
    ensures Value([x, y], base) == x * base + y
  {
    assert [x, y][..1] == [x];
    assert Value([x], base) == Value([], base) * base + x by { assert [x][..0] == []; }
  }

  lemma MultihashValue(m: seq<nat>)
    requires IsSha256Multihash(m)
    ensures 0x1220 * TWO_256 <= Value(m, 256) < 0x1221 * TWO_256
  {
    var head, digest := m[..2], m[2..];
    assert m == head + digest;
    assert head == [0x12, 0x20];
    ValueConcat(head, digest, 256);
    TwoDigits(0x12, 0x20, 256);
    ValueBound(digest, 256);
    PowersOf256();
    assert Pow(256, |digest|) == TWO_256;
  }

  /** Every sha2-256 multihash lies between the first and the last 46-digit numeral that starts
      with the digits of 'Q' and 'm'. */
  lemma MultihashRange(m: seq<nat>)
    requires IsSha256Multihash(m)
    ensures 1378 * POW_58_44 <= Value(m, 256) < 1379 * POW_58_44
  {
    MultihashValue(m);
  }

  /** The numeral of r on exactly n digits. */
  function Padded(r: nat, n: nat): (d: seq<nat>)
    requires r < Pow(58, n)
    ensures |d| == n && Below(d, 58) && Value(d, 58) == r
  {
    if n == 0 then [] else
      assert Pow(58, n) == 58 * Pow(58, n - 1);
      var d := Padded(r / 58, n - 1) + [r % 58];
      assert d[..n - 1] == Padded(r / 58, n - 1);
      d
  }

  lemma LeadsWith1378(rest: seq<nat>, power: nat)
    requires Pow(58, |rest|) == power
    ensures Value([23, 44] + rest, 58) == 1378 * power + Value(rest, 58)
  {
    ValueConcat([23, 44], rest, 58);
    TwoDigits(23, 44, 58);
  }

  lemma MultihashNumeral(m: seq<nat>) returns (rest: seq<nat>)
    requires IsSha256Multihash(m)
    ensures |rest| == 44
    ensures Below(rest, 58)
    ensures Numeral(Value(m, 256), 58) == [23, 44] + rest
  {
    var offset := Offset(m);
    rest := Padded(offset, 44);
    NumeralFrom(rest, Pow(58, 44), Value(m, 256));
  }

  lemma NumeralFrom(rest: seq<nat>, power: nat, v: nat)
    requires Below(rest, 58) && Pow(58, |rest|) == power && v == 1378 * power + Value(rest, 58)
    ensures Numeral(v, 58) == [23, 44] + rest
  {
    LeadsWith1378(rest, power);
    var d := [23, 44] + rest;
    assert d[0] == 23 && Below(d, 58);
    NumeralUnique(d, 58);
  }

  lemma Offset(m: seq<nat>) returns (r: nat)
    requires IsSha256Multihash(m)
    ensures r < Pow(58, 44) && Value(m, 256) == 1378 * Pow(58, 44) + r
  {
    MultihashRange(m);
    PowersOf58();
    r := Value(m, 256) - 1378 * POW_58_44;
  }

  /** A sha2-256 multihash has a Base58 form of exactly 46 characters starting "Qm". */
  lemma MultihashBase58(m: seq<nat>)
    requires IsSha256Multihash(m)
    ensures |Encode(m)| == 46 && Encode(m)[..2] == "Qm"
  {
    var rest := MultihashNumeral(m);
    assert Leading(m) == 0;
    assert Transcode(m, 256, 58) == [23, 44] + rest;
    FirstTwoChars(rest);
  }

  lemma FirstTwoChars(rest: seq<nat>)
    requires Below(rest, 58)
    ensures Below([23, 44] + rest, 58) && CharsOf([23, 44] + rest)[..2] == "Qm"
  {
    assert ALPHABET[23] == CAPITALS[14] == 'Q';
    assert ALPHABET[44] == SMALL[11] == 'm';
    assert CharsOf([23, 44] + rest)[..2] == [ALPHABET[23], ALPHABET[44]];
  }

  // ---------- the encoder ----------

  const PREFIX: seq<nat> := [0xe3, 0x01, 0x70]

  /** What is accepted, independently of the decoder: the Base58 forms of sha2-256 multihashes. */
  ghost predicate IsCidV0(cid: string) {
    exists m :: IsSha256Multihash(m) && cid == Encode(m)
  }

  function ContenthashOf(m: seq<nat>): string
    requires Below(m, 256)
  {
    "0x" + Hex(PREFIX + m)
  }

  ghost function Outcome(cid: string): Result<string, EncodeError> {
    if !("Qm" <= cid) && !("bafy" <= cid) then Err(UnsupportedFormat)
    else if !("Qm" <= cid) then Err(CidV1NotSupported)
    else match FirstInvalid(cid)
    case Some(c) => Err(InvalidBase58(InvalidCharacter(c)))
    case None => if IsCidV0(cid) then Ok(ContenthashOf(DraftDecode(cid))) else Err(InvalidMultihash)
  }

  method EncodeIPFSContenthash(cid: string) returns (r: Result<string, EncodeError>)
    ensures r == Outcome(cid)
  {
    if !("Qm" <= cid) && !("bafy" <= cid) {
      return Err(UnsupportedFormat);
    }
    if "Qm" <= cid {
      var decoded := Decode(cid);
      CidV0Checks(cid);
      if decoded.Err? {
        return Err(InvalidBase58(decoded.error));
      }
      DecodedIsDraft(cid);
      r := FromMultihash(decoded.value);
      return;
    }
    return Err(CidV1NotSupported);
  }

  /** The multihash check and the filling of the output buffer. */
  method FromMultihash(multihash: seq<nat>) returns (r: Result<string, EncodeError>)
    requires Below(multihash, 256)
    ensures r == if IsSha256Multihash(multihash) then Ok(ContenthashOf(multihash)) else Err(InvalidMultihash)
  {
    if !(|multihash| == 34 && multihash[0] == 0x12 && multihash[1] == 0x20) {
      return Err(InvalidMultihash);
    }
    var contenthash := new nat[3 + |multihash|](_ => 0);
    contenthash[0] := 0xe3;
    contenthash[1] := 0x01;
    contenthash[2] := 0x70;
    forall j | 0 <= j < |multihash| {
      contenthash[3 + j] := multihash[j];
    }
    assert contenthash[..] == PREFIX + multihash;
    return Ok("0x" + Hex(contenthash[..]));
  }

  lemma DecodedIsDraft(cid: string)
    requires "Qm" <= cid && InAlphabet(cid)
    ensures Decoded(cid) == Ok(DraftDecode(cid))
  {
    assert cid[0] == 'Q';
    DecoderMeetsDraft(cid);
  }

  /** A CID is accepted exactly when it is the Base58 form of a sha2-256 multihash. */
  lemma AcceptsExactlyCidV0(cid: string)
    ensures Outcome(cid).Ok? <==> IsCidV0(cid)
    ensures forall m :: IsSha256Multihash(m) && cid == Encode(m) ==> Outcome(cid) == Ok(ContenthashOf(m))
  {
    CidV0Checks(cid);
    if IsCidV0(cid) {
      DecodedIsDraft(cid);
    }
  }

  /** Which error a string is rejected with. */
  lemma RejectedExactly(cid: string)
    ensures Outcome(cid) == Err(UnsupportedFormat) <==> !("Qm" <= cid) && !("bafy" <= cid)
    ensures Outcome(cid) == Err(CidV1NotSupported) <==> "bafy" <= cid
    ensures Outcome(cid) == Err(InvalidMultihash) <==> "Qm" <= cid && InAlphabet(cid) && !IsCidV0(cid)
  {
    if "bafy" <= cid {
      assert cid[0] == 'b';
    }
  }

  /** The character complained about is the first one outside the alphabet. */
  lemma RejectedCharacter(cid: string, c: char)
    ensures Outcome(cid) == Err(InvalidBase58(InvalidCharacter(c))) <==>
            && "Qm" <= cid
            && exists k: nat :: k < |cid| && cid[k] == c && Base58.IndexOf(c) == -1 && InAlphabet(cid[..k])
  {
    FirstInvalidExactly(cid, c);
  }

  /** The prefix test and the multihash test together accept exactly the CIDv0 strings. */
  lemma CidV0Checks(cid: string)
    ensures IsCidV0(cid) <==> "Qm" <= cid && Decoded(cid).Ok? && IsSha256Multihash(Decoded(cid).value)
    ensures forall m :: IsSha256Multihash(m) && cid == Encode(m) ==> Decoded(cid) == Ok(m)
    ensures Decoded(cid).Ok? <==> InAlphabet(cid)
  {
    forall m | IsSha256Multihash(m) && cid == Encode(m)
      ensures "Qm" <= cid && Decoded(cid) == Ok(m)
    {
      MultihashBase58(m);
      EncodeThenDecode(m);
    }
    if "Qm" <= cid && Decoded(cid).Ok? && IsSha256Multihash(Decoded(cid).value) {
      assert !AllOnes(cid) by { assert cid[0] == 'Q'; }
      DecodeThenEncode(cid);
    }
  }

  /** An accepted CID has 46 characters, and its contenthash is "0x" and 74 lower-case hex digits
      from which the CID can be recovered. */
  lemma ContenthashInvertible(cid: string)
    requires Outcome(cid).Ok?
    ensures |cid| == 46
    ensures var text := Outcome(cid).value;
            && |text| == 76 && text[..2] == "0x"
            && (forall i :: 2 <= i < 76 ==> IsHexDigit(text[i]))
            && Unhex(text[2..])[..3] == [0xe3, 0x01, 0x70]
            && Encode(Unhex(text[2..])[3..]) == cid
  {
    AcceptsExactlyCidV0(cid);
    var m :| IsSha256Multihash(m) && cid == Encode(m);
    MultihashBase58(m);
    UnhexHex(PREFIX + m);
    var text := ContenthashOf(m);
    assert text[2..] == Hex(PREFIX + m);
    forall i | 2 <= i < 76 ensures IsHexDigit(text[i]) {
      assert text[i] == Hex(PREFIX + m)[i - 2];
    }
    assert (PREFIX + m)[3..] == m;
  }

  /** A contenthash is the text of three fixed bytes and then that of the multihash. */
  lemma ContenthashText(m: seq<nat>)
    requires Below(m, 256)
    ensures ContenthashOf(m) == "0xe30170" + Hex(m)
  {
    HexThree(0xe3, 0x01, 0x70, m);
    PrefixBytes();
    Regroup("0x", "e3", "01", "70", Hex(m));
    PrefixText();
  }

  lemma Regroup(a: string, b: string, c: string, d: string, rest: string)
    ensures a + (b + (c + (d + rest))) == a + b + c + d + rest
  {
  }

  lemma PrefixText()
    ensures "0x" + "e3" + "01" + "70" == "0xe30170"
  {
  }

  lemma PrefixBytes()
    ensures HexOf(0xe3) == "e3" && HexOf(0x01) == "01" && HexOf(0x70) == "70"
  {
    HexByte(0xe3);
    HexByte(0x01);
    HexByte(0x70);
  }

  lemma HexThree(a: nat, b: nat, c: nat, m: seq<nat>)
    requires a < 256 && b < 256 && c < 256 && Below(m, 256)
    ensures Below([a, b, c] + m, 256)
    ensures Hex([a, b, c] + m) == HexOf(a) + (HexOf(b) + (HexOf(c) + Hex(m)))
  {
    assert [a, b, c] + m == [a] + ([b] + ([c] + m));
    HexFirst(c, m);
    HexFirst(b, [c] + m);
    HexFirst(a, [b] + ([c] + m));
  }

  lemma HexFirst(b: nat, rest: seq<nat>)
    requires b < 256 && Below(rest, 256)
    ensures Below([b] + rest, 256) && Hex([b] + rest) == HexOf(b) + Hex(rest)
  {
    assert ([b] + rest)[1..] == rest;
  }

  /** Distinct CIDs never share a contenthash. */
  lemma ContenthashInjective(cid: string, cid': string)
    requires Outcome(cid).Ok? && Outcome(cid) == Outcome(cid')
    ensures cid == cid'
  {
    ContenthashInvertible(cid);
    ContenthashInvertible(cid');
  }
}
