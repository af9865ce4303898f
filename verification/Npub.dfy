/**
 Public keys in hex and as npub strings: the encoder over the padded base conversion and the
 checksum, and the separate decoder that must undo it.
 */
module Npub {
  import opened Bits
  import opened Wrappers
  import opened BaseConversion
  import Bech32Checksum
  import Enrolment

  const CHARSET: string := "qpzry9x8gf2tvdw0s3jn54khce6mua7l"

  // ---------------------------------------------------------------------------------------
  // Hex
  // ---------------------------------------------------------------------------------------

  function DigitValue(c: char): (v: nat)
    requires Enrolment.IsHexDigit(c)
    ensures v < 16
  {
    if c <= '9' then c as int - '0' as int
    else if c <= 'F' then c as int - 'A' as int + 10
    else c as int - 'a' as int + 10
  }

  function HexDigit(v: nat): (c: char)
    requires v < 16
    ensures Enrolment.IsHexDigit(c) && DigitValue(c) == v && !('A' <= c <= 'Z')
  {
    (if v < 10 then '0' as int + v else 'a' as int + v - 10) as char
  }

  /** `bytes.fromhex`: two digits a byte, white space allowed between bytes. */
  function FromHex(s: string): Option<seq<nat>>
    decreases |s|
  {
    if s == "" then Some([])
    else if Enrolment.IsSpace(s[0]) then FromHex(s[1..])
    else if |s| >= 2 && Enrolment.IsHexDigit(s[0]) && Enrolment.IsHexDigit(s[1]) then
      match FromHex(s[2..])
      case None => None
      case Some(rest) => Some([16 * DigitValue(s[0]) + DigitValue(s[1])] + rest)
    else None
  }

  predicate Bytes(data: seq<nat>)
  {
    forall k {:trigger data[k]} :: 0 <= k < |data| ==> data[k] < 256
  }

  /** `bytes.hex` */
  function ToHex(bytes: seq<nat>): string
    requires Bytes(bytes)
    decreases |bytes|
  {
    if bytes == [] then ""
    else [HexDigit(bytes[0] / 16), HexDigit(bytes[0] % 16)] + ToHex(bytes[1..])
  }

  /** The hex text without blanks, in lower case. */
  function Canonical(s: string): string
  {
    if s == "" then ""
    else if Enrolment.IsSpace(s[0]) then Canonical(s[1..])
    else [if 'A' <= s[0] <= 'Z' then s[0] + 32 as char else s[0]] + Canonical(s[1..])
  }

  lemma {:induction false} HexCanonical(s: string)
    requires FromHex(s).Some?
    ensures Bytes(FromHex(s).value) && ToHex(FromHex(s).value) == Canonical(s)
    decreases |s|
  {
    hide Canonical, ToHex;
    if s == "" {
      EmptyText();
    } else if Enrolment.IsSpace(s[0]) {
      HexCanonical(s[1..]);
      CanonicalStep(s);
    } else {
      HexCanonical(s[2..]);
      PairCanonical(s, FromHex(s[2..]).value);
    }
  }

  lemma PairCanonical(s: string, rest: seq<nat>)
    requires |s| >= 2 && Enrolment.IsHexDigit(s[0]) && Enrolment.IsHexDigit(s[1])
    requires Bytes(rest) && ToHex(rest) == Canonical(s[2..])
    ensures var v := 16 * DigitValue(s[0]) + DigitValue(s[1]); Bytes([v] + rest) && ToHex([v] + rest) == Canonical(s)
  {
    hide Canonical, ToHex, DigitValue, Small;
    var v := 16 * DigitValue(s[0]) + DigitValue(s[1]);
    ToHexStep(v, rest);
    DigitKept(s[0]);
    DigitKept(s[1]);
    CanonicalStep(s);
    CanonicalStep(s[1..]);
    assert s[1..][1..] == s[2..] && v / 16 == DigitValue(s[0]) && v % 16 == DigitValue(s[1]);
    assert [Small(s[0]), Small(s[1])] + Canonical(s[2..]) == [Small(s[0])] + ([Small(s[1])] + Canonical(s[2..]));
  }

  function Small(c: char): char { if 'A' <= c <= 'Z' then c + 32 as char else c }

  lemma EmptyText()
    ensures Canonical("") == "" && ToHex([]) == ""
  {
  }

  lemma CanonicalStep(s: string)
    requires s != ""
    ensures Canonical(s) == (if Enrolment.IsSpace(s[0]) then "" else [Small(s[0])]) + Canonical(s[1..])
  {
  }

  lemma ToHexStep(v: nat, rest: seq<nat>)
    requires v < 256 && Bytes(rest)
    ensures Bytes([v] + rest) && ToHex([v] + rest) == [HexDigit(v / 16), HexDigit(v % 16)] + ToHex(rest)
  {
    assert ([v] + rest)[1..] == rest;
  }

  lemma DigitKept(c: char)
    requires Enrolment.IsHexDigit(c)
    ensures HexDigit(DigitValue(c)) == Small(c) && !Enrolment.IsSpace(c)
  {
  }

  /** The commitment check of the enrolment routes counts the same bytes. */
  lemma {:induction false} HexBytesCounts(s: string)
    ensures Enrolment.HexBytes(s) == if FromHex(s).None? then -1 else |FromHex(s).value|
    decreases |s|
  {
    hide DigitValue;
    if s == "" {
    } else {
      if Enrolment.IsSpace(s[0]) {
        HexBytesCounts(s[1..]);
      } else if |s| >= 2 {
        HexBytesCounts(s[2..]);
      }
    }
  }

  // ---------------------------------------------------------------------------------------
  // The character set
  // ---------------------------------------------------------------------------------------

  /** `CHARSET.index(c)`, counting from position k. */
  function IndexFrom(s: string, c: char, k: nat): (r: Option<nat>)
    requires k <= |s|
    ensures r.Some? ==> k <= r.value < |s| && s[r.value] == c
    ensures r.None? ==> c !in s[k..]
    decreases |s| - k
  {
    if k == |s| then None
    else if s[k] == c then Some(k)
    else IndexFrom(s, c, k + 1)
  }

  function Index(c: char): Option<nat> { IndexFrom(CHARSET, c, 0) }

  lemma CharsetDistinct(i: nat, j: nat)
    requires i < j < 32
    ensures CHARSET[i] != CHARSET[j]
  {
  }

  lemma IndexOfChar(v: nat)
    requires v < 32
    ensures Index(CHARSET[v]) == Some(v)
  {
    hide IndexFrom;
    assert CHARSET[0..] == CHARSET && CHARSET[v] in CHARSET[0..];
    var r := IndexFrom(CHARSET, CHARSET[v], 0);
    if r.value < v {
      CharsetDistinct(r.value, v);
    } else if r.value > v {
      CharsetDistinct(v, r.value);
    }
  }

  predicate Symbols(values: seq<nat>)
  {
    forall k {:trigger values[k]} :: 0 <= k < |values| ==> values[k] < 32
  }

  function Chars(values: seq<nat>): (s: string)
    requires Symbols(values)
    ensures |s| == |values|
  {
    if values == [] then "" else [CHARSET[values[0]]] + Chars(values[1..])
  }

  /** `[CHARSET.index(c) for c in s]`; a character outside the set raises. */
  function Indices(s: string): (r: Option<seq<nat>>)
    ensures r.Some? ==> |r.value| == |s| && Symbols(r.value)
  {
    if s == "" then Some([])
    else match (Index(s[0]), Indices(s[1..]))
      case (Some(v), Some(rest)) => Some([v] + rest)
      case _ => None
  }

  lemma {:induction false} IndicesOfChars(values: seq<nat>)
    requires Symbols(values)
    ensures Indices(Chars(values)) == Some(values)
  {
    hide Index, Indices, Chars;
    if values == [] {
      NoSymbols();
    } else {
      IndexOfChar(values[0]);
      IndicesOfChars(values[1..]);
      SymbolStep(values, values[0], values[1..]);
    }
  }

  lemma NoSymbols()
    ensures Indices(Chars([])) == Some([])
  {
  }

  lemma SymbolStep(values: seq<nat>, v: nat, rest: seq<nat>)
    requires v < 32 && Symbols(rest) && Symbols(values) && values == [v] + rest
    requires Index(CHARSET[v]) == Some(v) && Indices(Chars(rest)) == Some(rest)
    ensures Indices(Chars(values)) == Some(values)
  {
    hide Index;
    assert values[1..] == rest;
    var text := Chars(values);
    assert text[0] == CHARSET[v] && text[1..] == Chars(rest);
  }

  // ---------------------------------------------------------------------------------------
  // Encoder and decoder
  // ---------------------------------------------------------------------------------------

  /** A symbol as the register takes it. */
  function Symbol(v: nat): bv30
    requires v < 32
  {
    v as bv30
  }

  function ToRegister(values: seq<nat>): (r: seq<bv30>)
    requires Symbols(values)
    ensures |r| == |values|
  {
    if values == [] then [] else [Symbol(values[0])] + ToRegister(values[1..])
  }

  function FromRegister(d: seq<bv30>): (values: seq<nat>)
    requires Bech32Checksum.FiveBit(d)
    ensures |values| == |d| && Symbols(values)
  {
    if d == [] then [] else [d[0] as nat] + FromRegister(d[1..])
  }

  /** The five-bit symbols of the data, without the checksum. */
  function Payload(data: seq<nat>): (values: seq<nat>)
    requires Bytes(data)
    ensures Symbols(values)
  {
    PayloadSymbols(data);
    PaddedGroups(BitString(data, 8), 5)
  }

  lemma PayloadSymbols(data: seq<nat>)
    ensures Symbols(PaddedGroups(BitString(data, 8), 5))
  {
    var fill := PaddingAddsZeros(BitString(data, 8), 5);
    PowersUsed();
  }

  lemma PowersUsed()
    ensures Pow2(5) == 32 && Pow2(8) == 256
  {
    assert Pow2(3) == 8 && Pow2(5) == 4 * Pow2(3) && Pow2(8) == 4 * Pow2(6) && Pow2(6) == 8 * Pow2(3);
  }

  function ChecksumSymbols(hrp: string, values: seq<nat>): (c: seq<nat>)
    requires Symbols(values)
    ensures |c| == 6 && Symbols(c)
  {
    FromRegister(Bech32Checksum.Checksum(hrp, ToRegister(values)))
  }

  /** `bech32_encode` */
  function Encode(hrp: string, data: seq<nat>): string
    requires Bytes(data)
  {
    var converted := Payload(data);
    hrp + "1" + Chars(converted + ChecksumSymbols(hrp, converted))
  }

  /** `pubkey_to_npub`; a text that is not hex raises. */
  function PubkeyToNpub(hex: string): Option<string>
  {
    match FromHex(hex)
    case None => None
    case Some(bytes) =>
      HexCanonical(hex);
      Some(Encode("npub", bytes))
  }

  /** `values[:-6]` */
  function DropSix(values: seq<nat>): seq<nat>
  {
    if |values| < 6 then [] else values[..|values| - 6]
  }

  function Decoded(npub: string): Option<string>
  {
    if !(|npub| >= 5 && npub[..5] == "npub1") then None
    else
      match Indices(npub[5..])
      case None => None
      case Some(values) =>
        BytesDecoded(DropSix(values));
        Some(ToHex(Groups(BitString(DropSix(values), 5), 8)))
  }

  lemma BytesDecoded(values: seq<nat>)
    ensures Bytes(Groups(BitString(values, 5), 8))
  {
    PowersUsed();
    GroupsLose(BitString(values, 5), 8);
  }

  method NpubToPubkey(npub: string) returns (r: Option<string>)
    ensures r == Decoded(npub)
  {
    if !(|npub| >= 5 && npub[..5] == "npub1") {
      return None;
    }
    var found := Indices(npub[5..]);
    if found.None? {
      return None;
    }
    var values := DropSix(found.value);
    PowersUsed();
    BytesDecoded(values);
    var bytes := ToBytes(values);
    return Some(ToHex(bytes));
  }

  // ---------------------------------------------------------------------------------------
  // Round trip
  // ---------------------------------------------------------------------------------------

  /** The decoder undoes the encoder on every byte string, with any six symbols for the checksum. */
  lemma DecodeEncode(data: seq<nat>, checksum: seq<nat>)
    requires Bytes(data) && |checksum| == 6 && Symbols(checksum)
    ensures Decoded("npub" + "1" + Chars(Payload(data) + checksum)) == Some(ToHex(data))
  {
    hide Chars, Indices, ToHex, Groups, PaddedGroups, BitString;
    var p := Payload(data);
    var text := Chars(p + checksum);
    var npub := "npub" + "1" + text;
    assert npub[..5] == "npub1" && npub[5..] == text;
    IndicesOfChars(p + checksum);
    assert DropSix(p + checksum) == p;
    PowersUsed();
    RegroupTwice(data, 8, 5);
  }

  /** What decoding the npub of x gives: x without blanks, in lower case. */
  lemma NpubRoundTrip(x: string)
    ensures PubkeyToNpub(x).None? <==> FromHex(x).None?
    ensures PubkeyToNpub(x).Some? ==> Decoded(PubkeyToNpub(x).value) == Some(Canonical(x))
  {
    hide Decoded, FromHex, ToHex, Canonical, Payload, ChecksumSymbols, Chars;
    if FromHex(x).Some? {
      var data := FromHex(x).value;
      HexCanonical(x);
      DecodeEncode(data, ChecksumSymbols("npub", Payload(data)));
    }
  }

  predicate LowerHex(s: string)
  {
    forall k {:trigger s[k]} :: 0 <= k < |s| ==> Enrolment.IsHexDigit(s[k]) && !('A' <= s[k] <= 'Z')
  }

  /** Decoding returns x itself exactly when x is already lower-case hex without blanks. */
  lemma NpubReturnsSame(x: string)
    requires PubkeyToNpub(x).Some?
    ensures Decoded(PubkeyToNpub(x).value) == Some(x) <==> LowerHex(x)
  {
    NpubRoundTrip(x);
    CanonicalFixed(x);
  }

  lemma CanonicalFixed(x: string)
    requires FromHex(x).Some?
    ensures Canonical(x) == x <==> LowerHex(x)
  {
    HexChars(x);
    FixedChars(x);
    forall k | 0 <= k < |x| ensures (!Enrolment.IsSpace(x[k]) ==> Enrolment.IsHexDigit(x[k])) {
    }
  }

  /** Text that reads as hex has only digits and blanks. */
  lemma {:induction false} HexChars(x: string)
    requires FromHex(x).Some?
    ensures forall k {:trigger x[k]} :: 0 <= k < |x| ==> Enrolment.IsSpace(x[k]) || Enrolment.IsHexDigit(x[k])
    decreases |x|
  {
    if x == "" {
    } else {
      if Enrolment.IsSpace(x[0]) {
        HexChars(x[1..]);
        assert x == [x[0]] + x[1..];
      } else {
        HexChars(x[2..]);
        assert x == [x[0], x[1]] + x[2..];
      }
    }
  }

  predicate Kept(c: char) { !Enrolment.IsSpace(c) && !('A' <= c <= 'Z') }

  lemma {:induction false} FixedChars(x: string)
    ensures |Canonical(x)| <= |x|
    ensures Canonical(x) == x <==> forall k {:trigger x[k]} :: 0 <= k < |x| ==> Kept(x[k])
  {
    if x == "" {
    } else {
      FixedChars(x[1..]);
      assert x == [x[0]] + x[1..];
      assert Canonical(x) == x ==> Kept(x[0]) && Canonical(x)[1..] == x[1..];
      if Canonical(x) == x {
        forall k | 0 <= k < |x| ensures Kept(x[k]) {
          if k > 0 {
            assert x[k] == x[1..][k - 1];
          }
        }
      }
    }
  }

  /** Lower-case hex of even length always converts, and comes back as it was. */
  lemma LowerHexConverts(x: string)
    requires LowerHex(x) && |x| % 2 == 0
    ensures PubkeyToNpub(x).Some? && Decoded(PubkeyToNpub(x).value) == Some(x)
  {
    LowerHexReads(x);
    hide Decoded, FromHex, LowerHex;
    NpubRoundTrip(x);
    NpubReturnsSame(x);
  }

  lemma {:induction false} LowerHexReads(x: string)
    requires LowerHex(x) && |x| % 2 == 0
    ensures FromHex(x).Some?
    decreases |x|
  {
    hide DigitValue;
    if x == "" {
    } else {
      assert x[0] in x && !Enrolment.IsSpace(x[0]) && !Enrolment.IsSpace(x[1]);
      LowerHexReads(x[2..]);
    }
  }

  // ---------------------------------------------------------------------------------------
  // The checksum that nobody reads
  // ---------------------------------------------------------------------------------------

  lemma SymbolRoundTrip(d: bv30)
    requires d < 32
    ensures d as nat < 32 && Symbol(d as nat) == d
  {
  }

  lemma {:induction false} RegisterRoundTrip(d: seq<bv30>)
    requires Bech32Checksum.FiveBit(d)
    ensures ToRegister(FromRegister(d)) == d
  {
    hide Symbol;
    if d == [] {
    } else {
      SymbolRoundTrip(d[0]);
      RegisterRoundTrip(d[1..]);
      assert FromRegister(d)[1..] == FromRegister(d[1..]);
    }
  }

  lemma SymbolBits(v: nat)
    requires v < 32
    ensures Symbol(v) < 32 && Symbol(v) as nat == v
  {
  }

  lemma {:induction false} RegisterInjective(s: seq<nat>, t: seq<nat>)
    requires |s| == |t| && Symbols(s) && Symbols(t) && ToRegister(s) == ToRegister(t)
    ensures s == t
  {
    hide Symbol;
    if s == [] {
    } else {
      SymbolBits(s[0]);
      SymbolBits(t[0]);
      assert ToRegister(s)[1..] == ToRegister(s[1..]) && ToRegister(t)[1..] == ToRegister(t[1..]);
      RegisterInjective(s[1..], t[1..]);
      assert s == [s[0]] + s[1..] && t == [t[0]] + t[1..];
    }
  }

  lemma {:induction false} RegisterFiveBit(s: seq<nat>)
    requires Symbols(s)
    ensures Bech32Checksum.FiveBit(ToRegister(s))
  {
    hide Symbol;
    if s == [] {
    } else {
      SymbolBits(s[0]);
      RegisterFiveBit(s[1..]);
    }
  }

  /** What a verifier of the checksum would accept after the payload of `data`. */
  ghost predicate ChecksumHolds(data: seq<nat>, checksum: seq<nat>)
    requires Bytes(data) && |checksum| == 6 && Symbols(checksum)
  {
    var sent := Bech32Checksum.HrpExpand("npub") + ToRegister(Payload(data)) + ToRegister(checksum);
    Bech32Checksum.PolymodFrom(1, sent) == 1
  }

  /**
   The decoder drops the last six symbols unread: whatever six characters of the set stand there, it
   returns the same key, although exactly one choice of them satisfies the checksum rule.
   */
  lemma ChecksumIgnored(data: seq<nat>, checksum: seq<nat>)
    requires Bytes(data) && |checksum| == 6 && Symbols(checksum)
    ensures Decoded("npub" + "1" + Chars(Payload(data) + checksum)) == Decoded(Encode("npub", data))
    ensures ChecksumHolds(data, checksum) <==> checksum == ChecksumSymbols("npub", Payload(data))
  {
    hide Decoded, ToHex, Payload, Chars, ToRegister, FromRegister, Bech32Checksum.PolymodFrom, Bech32Checksum.Checksum;
    var p := Payload(data);
    DecodeEncode(data, checksum);
    DecodeEncode(data, ChecksumSymbols("npub", p));
    RegisterFiveBit(checksum);
    Bech32Checksum.ChecksumValid("npub", ToRegister(p), ToRegister(checksum));
    RegisterRoundTrip(Bech32Checksum.Checksum("npub", ToRegister(p)));
    if ToRegister(checksum) == Bech32Checksum.Checksum("npub", ToRegister(p)) {
      RegisterInjective(checksum, ChecksumSymbols("npub", p));
    }
  }

  // ---------------------------------------------------------------------------------------
  // What the encoder writes
  // ---------------------------------------------------------------------------------------

  /** The text is the prefix, a 1, and symbols that satisfy the checksum rule. */
  ghost predicate ChecksumOk(hrp: string, text: string)
  {
    && |text| >= |hrp| + 7 && text[..|hrp| + 1] == hrp + "1"
    && match Indices(text[|hrp| + 1..])
       case None => false
       case Some(symbols) =>
         Bech32Checksum.PolymodFrom(1, Bech32Checksum.HrpExpand(hrp) + ToRegister(symbols)) == 1
  }

  /** The symbols between the 1 and the checksum. */
  function SymbolsOf(hrp: string, text: string): seq<nat>
  {
    if |text| < |hrp| + 7 then []
    else
      match Indices(text[|hrp| + 1..])
      case None => []
      case Some(symbols) => symbols[..|symbols| - 6]
  }

  lemma {:induction false} RegisterConcat(s: seq<nat>, t: seq<nat>)
    requires Symbols(s) && Symbols(t)
    ensures Symbols(s + t) && ToRegister(s + t) == ToRegister(s) + ToRegister(t)
  {
    hide ToRegister, Symbol;
    if s == [] {
      assert s + t == t;
      RegisterStep(s);
    } else {
      var u := s + t;
      assert u[1..] == s[1..] + t && u[0] == s[0];
      RegisterConcat(s[1..], t);
      RegisterStep(s);
      RegisterStep(u);
      var first, rest := [Symbol(s[0])], ToRegister(s[1..]);
      assert first + rest + ToRegister(t) == first + (rest + ToRegister(t));
    }
  }

  lemma RegisterStep(s: seq<nat>)
    requires Symbols(s)
    ensures ToRegister(s) == if s == [] then [] else [Symbol(s[0])] + ToRegister(s[1..])
  {
    hide Symbol;
  }

  lemma {:induction false} CharsOfIndices(s: string)
    requires Indices(s).Some?
    ensures Chars(Indices(s).value) == s
  {
    hide IndexFrom;
    if s == "" {
    } else {
      CharsOfIndices(s[1..]);
      assert Indices(s).value == [Index(s[0]).value] + Indices(s[1..]).value;
      assert s == [s[0]] + s[1..];
    }
  }

  /** Symbols satisfy the checksum rule exactly when the last six are the checksum of the others. */
  lemma RuleMeansChecksum(hrp: string, values: seq<nat>, checksum: seq<nat>)
    requires Symbols(values) && Symbols(checksum) && |checksum| == 6
    ensures Symbols(values + checksum)
    ensures Bech32Checksum.PolymodFrom(1, Bech32Checksum.HrpExpand(hrp) + ToRegister(values + checksum)) == 1
       <==> checksum == ChecksumSymbols(hrp, values)
  {
    RegisterConcat(values, checksum);
    hide ToRegister, FromRegister, Bech32Checksum.PolymodFrom, Bech32Checksum.Checksum, Bech32Checksum.HrpExpand;
    var r, c := ToRegister(values), ToRegister(checksum);
    assert Bech32Checksum.HrpExpand(hrp) + (r + c) == Bech32Checksum.HrpExpand(hrp) + r + c;
    RegisterFiveBit(checksum);
    Bech32Checksum.ChecksumValid(hrp, r, c);
    RegisterRoundTrip(Bech32Checksum.Checksum(hrp, r));
    if c == Bech32Checksum.Checksum(hrp, r) {
      RegisterInjective(checksum, ChecksumSymbols(hrp, values));
    }
  }

  /**
   The encoder's output is the one text with its prefix whose symbols satisfy the checksum rule and, without
   the last six, are the bytes regrouped by five bits.
   */
  lemma EncodeExactly(hrp: string, data: seq<nat>, text: string)
    requires Bytes(data)
    ensures text == Encode(hrp, data) <==>
      ChecksumOk(hrp, text) && SymbolsOf(hrp, text) == PaddedGroups(BitString(data, 8), 5)
  {
    hide ChecksumOk, SymbolsOf, Indices, Chars, BitString, PaddedGroups, Encode;
    EncodeIsOk(hrp, data);
    if ChecksumOk(hrp, text) && SymbolsOf(hrp, text) == Payload(data) {
      OkIsEncode(hrp, data, text);
    }
  }

  lemma EncodeIsOk(hrp: string, data: seq<nat>)
    requires Bytes(data)
    ensures ChecksumOk(hrp, Encode(hrp, data)) && SymbolsOf(hrp, Encode(hrp, data)) == Payload(data)
  {
    hide Payload, ChecksumSymbols, Indices, Chars, ToRegister, Bech32Checksum.PolymodFrom, Bech32Checksum.HrpExpand;
    var p, text := Payload(data), Encode(hrp, data);
    var c := ChecksumSymbols(hrp, p);
    RuleMeansChecksum(hrp, p, c);
    IndicesOfChars(p + c);
    assert text[|hrp| + 1..] == Chars(p + c) && text[..|hrp| + 1] == hrp + "1";
    assert (p + c)[..|p + c| - 6] == p;
  }

  lemma OkIsEncode(hrp: string, data: seq<nat>, text: string)
    requires Bytes(data) && ChecksumOk(hrp, text) && SymbolsOf(hrp, text) == Payload(data)
    ensures text == Encode(hrp, data)
  {
    hide Payload, ChecksumSymbols, Indices, Chars, ToRegister, Bech32Checksum.PolymodFrom, Bech32Checksum.HrpExpand;
    var p, symbols := Payload(data), Indices(text[|hrp| + 1..]).value;
    var last := symbols[|symbols| - 6..];
    assert symbols == p + last;
    RuleMeansChecksum(hrp, p, last);
    CharsOfIndices(text[|hrp| + 1..]);
    assert text == text[..|hrp| + 1] + text[|hrp| + 1..];
  }

  /** The npub of a hex text is the one valid npub whose symbols are the key's bytes. */
  lemma NpubExactly(x: string, npub: string)
    requires FromHex(x).Some?
    ensures PubkeyToNpub(x) == Some(npub) <==>
      ChecksumOk("npub", npub) && SymbolsOf("npub", npub) == PaddedGroups(BitString(FromHex(x).value, 8), 5)
  {
    HexCanonical(x);
    hide FromHex, Encode, ChecksumOk, SymbolsOf, Canonical, ToHex;
    EncodeExactly("npub", FromHex(x).value, npub);
  }

  /** `bech32_encode`: regrouping, checksum and text, with the loops of both helpers. */
  method Bech32Encode(hrp: string, data: seq<nat>) returns (text: string)
    requires Bytes(data)
    ensures text == Encode(hrp, data)
  {
    PowersUsed();
    PayloadSymbols(data);
    var converted := ConvertBits(data, 8, 5, true);
    var checksum := Bech32Checksum.CreateChecksum(hrp, ToRegister(converted.value));
    text := hrp + "1" + Chars(converted.value + FromRegister(checksum));
  }

  /** `pubkey_to_npub` as the routes call it. */
  method ConvertPubkey(hex: string) returns (r: Option<string>)
    ensures r == PubkeyToNpub(hex)
    ensures r.Some? <==> FromHex(hex).Some?
    ensures r.Some? ==> ChecksumOk("npub", r.value)
    ensures r.Some? ==> SymbolsOf("npub", r.value) == PaddedGroups(BitString(FromHex(hex).value, 8), 5)
  {
    hide Encode, ChecksumOk, SymbolsOf, Canonical, ToHex;
    var bytes := FromHex(hex);
    if bytes.None? {
      return None;
    }
    HexCanonical(hex);
    var text := Bech32Encode("npub", bytes.value);
    NpubExactly(hex, text);
    return Some(text);
  }

  const LOWER_DIGITS: string := "0123456789abcdef"

  lemma DigitPlace(c: char)
    requires Enrolment.IsHexDigit(c)
    ensures LOWER_DIGITS[DigitValue(c)] == Small(c)
  {
  }

  lemma FromHexStep(x: string)
    requires x != "" && !Enrolment.IsSpace(x[0]) && FromHex(x).Some?
    ensures |x| >= 2 && Enrolment.IsHexDigit(x[0]) && Enrolment.IsHexDigit(x[1]) && FromHex(x[2..]).Some?
    ensures FromHex(x).value == [16 * DigitValue(x[0]) + DigitValue(x[1])] + FromHex(x[2..]).value
  {
  }

  /** Two characters spell a byte: the high digit first. */
  ghost predicate Spells(v: nat, high: char, low: char)
  {
    v < 256 && LOWER_DIGITS[v / 16] == Small(high) && LOWER_DIGITS[v % 16] == Small(low)
  }

  lemma PairSpells(high: char, low: char)
    requires Enrolment.IsHexDigit(high) && Enrolment.IsHexDigit(low)
    ensures Spells(16 * DigitValue(high) + DigitValue(low), high, low)
  {
    hide DigitValue, Small;
    DigitPlace(high);
    DigitPlace(low);
    var d, e := DigitValue(high), DigitValue(low);
    assert (16 * d + e) / 16 == d && (16 * d + e) % 16 == e;
  }

  /** Byte i of text without blanks is spelt by its characters 2i and 2i + 1. */
  lemma {:induction false} FromHexAt(x: string, i: nat)
    requires FromHex(x).Some? && (forall k {:trigger x[k]} :: 0 <= k < |x| ==> !Enrolment.IsSpace(x[k]))
    ensures |x| == 2 * |FromHex(x).value|
    ensures i < |FromHex(x).value| ==> Spells(FromHex(x).value[i], x[2 * i], x[2 * i + 1])
    decreases |x|
  {
    hide FromHex, DigitValue, Small, Spells, Enrolment.IsSpace, Enrolment.IsHexDigit;
    if x == "" {
      NoBytes();
    } else {
      FromHexStep(x);
      FromHexAt(x[2..], if i > 0 then i - 1 else 0);
      PairSpells(x[0], x[1]);
    }
  }

  lemma NoBytes()
    ensures FromHex("") == Some([])
  {
  }

  /** Text without blanks reads exactly if it is hex digits, an even number of them. */
  lemma {:induction false} FromHexPlain(x: string)
    requires forall k {:trigger x[k]} :: 0 <= k < |x| ==> !Enrolment.IsSpace(x[k])
    ensures FromHex(x).Some? <==>
      |x| % 2 == 0 && forall k {:trigger x[k]} :: 0 <= k < |x| ==> Enrolment.IsHexDigit(x[k])
    decreases |x|
  {
    hide DigitValue, Enrolment.IsSpace, Enrolment.IsHexDigit;
    if |x| < 2 {
      assert |x| == 1 ==> !Enrolment.IsSpace(x[0]);
    } else {
      assert !Enrolment.IsSpace(x[0]) && !Enrolment.IsSpace(x[1]);
      FromHexPlain(x[2..]);
      if forall k {:trigger x[2..][k]} :: 0 <= k < |x[2..]| ==> Enrolment.IsHexDigit(x[2..][k]) {
        forall k | 2 <= k < |x| ensures Enrolment.IsHexDigit(x[k]) {
          assert x[k] == x[2..][k - 2];
        }
      }
    }
  }

  function Joined(x: Option<seq<nat>>, y: Option<seq<nat>>): Option<seq<nat>>
  {
    if x.Some? && y.Some? then Some(x.value + y.value) else None
  }

  /** A blank stands between bytes: the parts around it are read by themselves. */
  lemma {:induction false} FromHexAtBlank(a: string, blank: char, b: string)
    requires Enrolment.IsSpace(blank)
    ensures FromHex(a + [blank] + b) == Joined(FromHex(a), FromHex(b))
    decreases |a|
  {
    hide FromHex, DigitValue;
    var s := a + [blank] + b;
    ReadStep(s);
    ReadStep(a);
    if a == "" {
      assert s[1..] == b;
      assert FromHex(b).Some? ==> [] + FromHex(b).value == FromHex(b).value;
    } else if Enrolment.IsSpace(a[0]) {
      assert s[1..] == a[1..] + [blank] + b;
      FromHexAtBlank(a[1..], blank, b);
    } else if |a| == 1 {
      assert s[1] == blank && !Enrolment.IsHexDigit(blank);
    } else {
      assert s[2..] == a[2..] + [blank] + b && s[0] == a[0] && s[1] == a[1];
      FromHexAtBlank(a[2..], blank, b);
      if FromHex(a[2..]).Some? && FromHex(b).Some? {
        var x, y := FromHex(a[2..]).value, FromHex(b).value;
        assert forall v: nat {:trigger [v] + (x + y)} :: [v] + (x + y) == [v] + x + y;
      }
    }
  }

  lemma ReadStep(s: string)
    ensures s == "" ==> FromHex(s) == Some([])
    ensures s != "" && Enrolment.IsSpace(s[0]) ==> FromHex(s) == FromHex(s[1..])
    ensures s != "" && !Enrolment.IsSpace(s[0]) ==>
      FromHex(s) == if |s| >= 2 && Enrolment.IsHexDigit(s[0]) && Enrolment.IsHexDigit(s[1])
                    then Joined(Some([16 * DigitValue(s[0]) + DigitValue(s[1])]), FromHex(s[2..])) else None
  {
    hide DigitValue;
  }

  /** Up to six symbols after npub1 decode to nothing at all. */
  lemma ShortNpub(text: string)
    requires |text| <= 6 && Indices(text).Some?
    ensures Decoded("npub1" + text) == Some("")
  {
    hide Indices;
    var npub := "npub1" + text;
    assert npub[..5] == "npub1" && npub[5..] == text;
    BitStringNone(5);
  }

  /** The four rows of the character table in section "Bech32" of BIP 173. */
  lemma CharsetRows()
    ensures CHARSET == "qpzry9x8" + "gf2tvdw0" + "s3jn54kh" + "ce6mua7l"
  {
  }
}
