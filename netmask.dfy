/** `RouterSpyApp.convert_netmask`: the hexadecimal netmask BSD `ifconfig`
    prints ("0xffffff00") turned into dotted-decimal text ("255.255.255.0"). */
module Netmask {
  import opened Outcomes
  import opened PyStr
  import opened PyInt

  /** The text returned for a mask whose digits are not eight characters long. */
  const InvalidNetmask: string := "Invalid netmask"

  /** `s[2:]`: everything after the first two characters ("" when there are fewer). */
  function DropTwo(s: string): (r: string)
    ensures |s| >= 2 ==> r == s[2..]
    ensures |s| < 2 ==> r == ""
  {
    if |s| >= 2 then s[2..] else ""
  }

  /** `int(c, 16)` for a one-character string. */
  function ParseHex1(c: char): (r: Option<int>)
    ensures r.Some? <==> IsHexDigit(c)
  {
    if IsHexDigit(c) then Some(HexValue(c)) else None
  }

  /** The padding `int()` strips around its digits. Whitespace from U+007F
      up is first turned into a blank, then the ASCII blanks `\t \n \v \f \r`
      and space are stripped. The separators U+001C..U+001F count as
      whitespace for `str.isspace` but are neither, so `int()` rejects them. */
  predicate IntSpace(c: char)
  {
    IsSpace(c) && !('\U{1c}' <= c <= '\U{1f}')
  }

  /** `int(chunk, 16)` on the two-character slices `convert_netmask` takes.
      Python first strips surrounding padding (a blank on one side leaves a
      one-digit number), accepts a sign before a single digit, and raises on
      anything else that is not two hex digits (so "0x" alone, "_f" and "  "
      raise). */
  function ParseHex2(chunk: string): (r: Option<int>)
    requires |chunk| == 2
    ensures r.Some? <==>
              (IsHexDigit(chunk[0]) && IsHexDigit(chunk[1]))
              || (IntSpace(chunk[0]) && IsHexDigit(chunk[1]))
              || (IsHexDigit(chunk[0]) && IntSpace(chunk[1]))
              || ((chunk[0] == '+' || chunk[0] == '-') && IsHexDigit(chunk[1]))
    ensures r.Some? ==> -15 <= r.value <= 255
    ensures IsHexDigit(chunk[0]) && IsHexDigit(chunk[1]) ==>
              r == Some(16 * HexValue(chunk[0]) + HexValue(chunk[1]))
  {
    var a, b := chunk[0], chunk[1];
    if IsHexDigit(a) && IsHexDigit(b) then Some(16 * HexValue(a) + HexValue(b))
    else if IntSpace(a) && IntSpace(b) then None
    else if IntSpace(a) then ParseHex1(b)
    else if IntSpace(b) then ParseHex1(a)
    else if a == '+' && IsHexDigit(b) then Some(HexValue(b))
    else if a == '-' && IsHexDigit(b) then Some(-(HexValue(b) as int))
    else None
  }

  /** A file separator before a digit is not padding to `int()`: the slice is
      rejected and the conversion raises, while a tab in its place is
      stripped. */
  lemma SeparatorIsNotPadding()
    ensures ParseHex2("\U{1c}f") == None
    ensures ParseHex2("\tf") == Some(15)
    ensures NetmaskText("0x\U{1c}f000000") == Raised
  {
    var rem := DropTwo("0x\U{1c}f000000");
    assert rem == "\U{1c}f000000";
    assert Octet(rem, 0) == "\U{1c}f";
  }

  /** A word character in the ASCII reading of `\w`. */
  predicate IsWordChar(c: char)
  {
    ('a' <= c <= 'z') || ('A' <= c <= 'Z') || ('0' <= c <= '9') || c == '_'
  }

  /** On word characters, the only text `int(_, 16)` accepts is two hex digits. */
  lemma ParseHex2OfWord(chunk: string)
    requires |chunk| == 2 && IsWordChar(chunk[0]) && IsWordChar(chunk[1])
    ensures ParseHex2(chunk).Some? <==> IsHexDigit(chunk[0]) && IsHexDigit(chunk[1])
  {
  }

  /** The k-th two-character slice `hex_mask[i:i+2]`, i = 2k. */
  function Octet(rem: string, k: nat): string
    requires |rem| == 8 && k < 4
  {
    rem[2 * k..2 * k + 2]
  }

  /** Each of the four slices is text `int(_, 16)` accepts. */
  predicate OctetsParse(rem: string)
    requires |rem| == 8
  {
    forall k :: 0 <= k < 4 ==> ParseHex2(Octet(rem, k)).Some?
  }

  /** `str(int(hex_mask[2k:2k+2], 16))`. */
  function OctetText(rem: string, k: nat): string
    requires |rem| == 8 && k < 4 && ParseHex2(Octet(rem, k)).Some?
  {
    IntToDecimal(ParseHex2(Octet(rem, k)).value)
  }

  /** The four decimal groups, in the order of the slices. */
  function Octets(rem: string): (groups: seq<string>)
    requires |rem| == 8 && OctetsParse(rem)
    ensures |groups| == 4 && forall k :: 0 <= k < 4 ==> groups[k] == OctetText(rem, k)
  {
    [OctetText(rem, 0), OctetText(rem, 1), OctetText(rem, 2), OctetText(rem, 3)]
  }

  /** What `convert_netmask(hex_mask)` returns, or `Raised` for the ValueError
      `int` raises on a slice that is not hexadecimal. */
  function NetmaskText(hexMask: string): Result<string>
  {
    var rem := DropTwo(hexMask);
    if |rem| != 8 then Ok(InvalidNetmask)
    else if !OctetsParse(rem) then Raised
    else Ok(Join(Octets(rem), "."))
  }

  /** The groups `convert_netmask` has appended so far are those of the first
      slices, the last one appended last. */
  predicate GroupsSoFar(rem: string, mask: seq<string>)
    requires |rem| == 8
    decreases |mask|
  {
    |mask| <= 4
    && (mask == []
        || (GroupsSoFar(rem, mask[..|mask| - 1])
            && ParseHex2(Octet(rem, |mask| - 1)).Some?
            && mask[|mask| - 1] == OctetText(rem, |mask| - 1)))
  }

  /** The invariant, group by group. */
  lemma {:induction false} GroupsSoFarElements(rem: string, mask: seq<string>)
    requires |rem| == 8 && GroupsSoFar(rem, mask)
    ensures forall k :: 0 <= k < |mask| ==>
              ParseHex2(Octet(rem, k)).Some? && mask[k] == OctetText(rem, k)
    decreases |mask|
  {
    if mask != [] {
      var init := mask[..|mask| - 1];
      GroupsSoFarElements(rem, init);
      assert forall k :: 0 <= k < |init| ==> mask[k] == init[k];
    }
  }

  /** `convert_netmask`: drop the "0x", check the length, then append
      `str(int(slice, 16))` for each two-character slice in a loop and join the
      list with dots. */
  method ConvertNetmask(hexMask: string) returns (r: Result<string>)
    ensures r == NetmaskText(hexMask)
  {
    var rem := DropTwo(hexMask);
    if |rem| != 8 {
      return Ok(InvalidNetmask);
    }
    var mask: seq<string> := [];
    var i := 0;
    while i < 8
      invariant 0 <= i <= 8 && i == 2 * |mask|
      invariant GroupsSoFar(rem, mask)
    {
      assert rem[i..i + 2] == Octet(rem, |mask|);
      var v := ParseHex2(rem[i..i + 2]);
      if v.None? {
        RaisesOnBadOctet(hexMask, |mask|);
        return Raised;
      }
      var group := IntToDecimal(v.value);
      assert group == OctetText(rem, |mask|);
      GroupsExtend(rem, mask, group);
      mask := mask + [group];
      i := i + 2;
    }
    AllGroups(hexMask, mask);
    return Ok(Join(mask, "."));
  }

  /** Appending the group of the next slice keeps the invariant. */
  lemma GroupsExtend(rem: string, mask: seq<string>, group: string)
    requires |rem| == 8 && GroupsSoFar(rem, mask) && |mask| < 4
    requires ParseHex2(Octet(rem, |mask|)).Some?
    requires group == OctetText(rem, |mask|)
    ensures GroupsSoFar(rem, mask + [group])
  {
    assert (mask + [group])[..|mask|] == mask;
  }

  lemma RaisesOnBadOctet(hexMask: string, k: nat)
    requires |DropTwo(hexMask)| == 8 && k < 4
    requires ParseHex2(Octet(DropTwo(hexMask), k)).None?
    ensures NetmaskText(hexMask) == Raised
  {
  }

  /** Once all four slices are read, the dotted text is the mask's. */
  lemma AllGroups(hexMask: string, mask: seq<string>)
    requires |DropTwo(hexMask)| == 8
    requires GroupsSoFar(DropTwo(hexMask), mask) && |mask| == 4
    ensures NetmaskText(hexMask) == Ok(Join(mask, "."))
  {
    GroupsSoFarElements(DropTwo(hexMask), mask);
    assert mask == Octets(DropTwo(hexMask));
  }

  // ---------------------------------------------------------------------------
  // Properties of convert_netmask

  /** Exactly the masks whose text after the first two characters is not eight
      characters long give "Invalid netmask". */
  lemma InvalidNetmaskIffLength(hexMask: string)
    ensures NetmaskText(hexMask) == Ok(InvalidNetmask) <==> |DropTwo(hexMask)| != 8
  {
    var rem := DropTwo(hexMask);
    if |rem| == 8 && OctetsParse(rem) {
      var gs := Octets(rem);
      var v := ParseHex2(Octet(rem, 0)).value;
      IntToDecimalFacts(v);
      assert gs[0] == IntToDecimal(v);
      assert gs[0][0] == '-' || IsDigit(gs[0][0]);
      assert Join(gs, ".") == gs[0] + "." + Join(gs[1..], ".");
      assert Join(gs, ".")[0] == gs[0][0];
      assert InvalidNetmask[0] == 'I';
    }
  }

  /** One slice of two hex digits: its group is the canonical decimal of a
      byte, and writing that byte back as two hex digits gives the slice in
      lower case. */
  lemma OctetOfHexDigits(rem: string, k: nat)
    requires |rem| == 8 && k < 4
    requires forall i :: 0 <= i < 8 ==> IsHexDigit(rem[i])
    ensures ParseHex2(Octet(rem, k)).Some?
    ensures var g := OctetText(rem, k);
              IsCanonicalDecimal(g) && DecimalValue(g) <= 255
              && HexPair(DecimalValue(g)) == LowerAll(Octet(rem, k))
  {
    var chunk := Octet(rem, k);
    assert chunk[0] == rem[2 * k] && chunk[1] == rem[2 * k + 1];
    var a, b := HexValue(chunk[0]), HexValue(chunk[1]);
    var v := 16 * a + b;
    assert ParseHex2(chunk) == Some(v);
    IntToDecimalFacts(v);
    assert v / 16 == a && v % 16 == b;
    HexDigitRoundTrip(chunk[0]);
    HexDigitRoundTrip(chunk[1]);
    assert HexPair(v) == LowerAll(chunk);
  }

  /** All four slices of eight hex digits parse, to canonical decimals of bytes. */
  lemma OctetsOfHexDigits(rem: string)
    requires |rem| == 8
    requires forall i :: 0 <= i < 8 ==> IsHexDigit(rem[i])
    ensures OctetsParse(rem)
    ensures forall k :: 0 <= k < 4 ==>
              IsCanonicalDecimal(Octets(rem)[k]) && DecimalValue(Octets(rem)[k]) <= 255
              && HexPair(DecimalValue(Octets(rem)[k])) == LowerAll(Octet(rem, k))
  {
    forall k | 0 <= k < 4
      ensures ParseHex2(Octet(rem, k)).Some?
      ensures var g := OctetText(rem, k);
                IsCanonicalDecimal(g) && DecimalValue(g) <= 255
                && HexPair(DecimalValue(g)) == LowerAll(Octet(rem, k))
    {
      OctetOfHexDigits(rem, k);
    }
  }

  /** Dots separate the groups and nothing else: splitting the result at "."
      gives back the four groups. */
  lemma SplitOctets(rem: string)
    requires |rem| == 8 && OctetsParse(rem)
    requires forall k :: 0 <= k < 4 ==> IsCanonicalDecimal(Octets(rem)[k])
    ensures Split(Join(Octets(rem), "."), ".") == Octets(rem)
  {
    var gs := Octets(rem);
    assert forall k, j :: 0 <= k < 4 && 0 <= j < |gs[k]| ==> gs[k][j] != '.' by {
      assert forall k :: 0 <= k < 4 ==> AllDigits(gs[k]);
    }
    SplitJoin(gs, ".");
  }

  /** For eight hex digits, the result splits at its dots into exactly four
      groups; each is a decimal number 0..255 without leading zeros, and
      re-encoding the groups as hex pairs gives the digits back up to case. */
  lemma NetmaskOfHexDigits(hexMask: string)
    requires |DropTwo(hexMask)| == 8
    requires forall i :: 0 <= i < 8 ==> IsHexDigit(DropTwo(hexMask)[i])
    ensures NetmaskText(hexMask).Ok?
    ensures var groups := Split(NetmaskText(hexMask).value, ".");
              |groups| == 4
              && (forall k :: 0 <= k < 4 ==>
                    IsCanonicalDecimal(groups[k]) && DecimalValue(groups[k]) <= 255)
              && HexPair(DecimalValue(groups[0])) + HexPair(DecimalValue(groups[1]))
                 + HexPair(DecimalValue(groups[2])) + HexPair(DecimalValue(groups[3]))
                 == LowerAll(DropTwo(hexMask))
  {
    var rem := DropTwo(hexMask);
    OctetsOfHexDigits(rem);
    SplitOctets(rem);
    LowerAllOctets(rem);
  }

  lemma LowerAllOctets(rem: string)
    requires |rem| == 8
    ensures LowerAll(rem) == LowerAll(Octet(rem, 0)) + LowerAll(Octet(rem, 1))
                            + LowerAll(Octet(rem, 2)) + LowerAll(Octet(rem, 3))
  {
  }

  /** For a mask read by `netmask (\w+)`, a non-hex character among the eight
      makes `int` raise, which `get_subnet_mask` turns into an error value. */
  lemma NonHexWordMaskRaises(hexMask: string, i: nat)
    requires |DropTwo(hexMask)| == 8
    requires forall j :: 0 <= j < 8 ==> IsWordChar(DropTwo(hexMask)[j])
    requires i < 8 && !IsHexDigit(DropTwo(hexMask)[i])
    ensures NetmaskText(hexMask) == Raised
  {
    var rem := DropTwo(hexMask);
    var chunk := Octet(rem, i / 2);
    assert chunk[0] == rem[2 * (i / 2)] && chunk[1] == rem[2 * (i / 2) + 1];
    assert rem[i] == chunk[0] || rem[i] == chunk[1];
    ParseHex2OfWord(chunk);
  }

  /** The mask BSD `ifconfig` prints for a /24 network. */
  lemma SlashTwentyFourExample()
    ensures NetmaskText("0xffffff00") == Ok("255.255.255.0")
  {
    var rem := DropTwo("0xffffff00");
    assert rem == "ffffff00";
    SlashTwentyFourOctets();
    SlashTwentyFourJoined();
  }

  lemma SlashTwentyFourJoined()
    ensures Join(["255", "255", "255", "0"], ".") == "255.255.255.0"
  {
    assert Join(["255", "0"], ".") == "255.0";
    assert Join(["255", "255", "0"], ".") == "255.255.0";
  }

  lemma SlashTwentyFourOctets()
    ensures OctetsParse("ffffff00") && Octets("ffffff00") == ["255", "255", "255", "0"]
  {
    var rem := "ffffff00";
    FullAndEmptyBytes();
    forall k | 0 <= k < 4
      ensures Octet(rem, k) == if k < 3 then "ff" else "00"
    {
      if k == 0 {
        assert rem[0..2] == "ff";
      } else if k == 1 {
        assert rem[2..4] == "ff";
      } else if k == 2 {
        assert rem[4..6] == "ff";
      } else {
        assert rem[6..8] == "00";
      }
    }
  }

  /** "ff" reads as 255 and "00" as 0, written back as "255" and "0". */
  lemma FullAndEmptyBytes()
    ensures ParseHex2("ff") == Some(255) && ParseHex2("00") == Some(0)
    ensures IntToDecimal(255) == "255" && IntToDecimal(0) == "0"
  {
    assert NatToDecimal(25) == "25" by {
      assert NatToDecimal(2) == "2";
    }
  }

  /** Too few digits after the prefix. */
  lemma ShortMaskExample()
    ensures NetmaskText("0xfff") == Ok(InvalidNetmask)
  {
    assert |DropTwo("0xfff")| == 3;
  }

  /** `int` accepts a sign before one digit, so signed slices pass through. */
  lemma SignedSlicesExample()
    ensures NetmaskText("0x-f+f+f+f") == Ok("-15.15.15.15")
  {
    var rem := DropTwo("0x-f+f+f+f");
    assert rem == "-f+f+f+f";
    SignedSlicesOctets();
    SignedSlicesJoined();
  }

  lemma SignedSlicesJoined()
    ensures Join(["-15", "15", "15", "15"], ".") == "-15.15.15.15"
  {
    assert Join(["15", "15"], ".") == "15.15";
    assert Join(["15", "15", "15"], ".") == "15.15.15";
  }

  lemma SignedSlicesOctets()
    ensures OctetsParse("-f+f+f+f") && Octets("-f+f+f+f") == ["-15", "15", "15", "15"]
  {
    var rem := "-f+f+f+f";
    SignedDigits();
    forall k | 0 <= k < 4
      ensures Octet(rem, k) == if k == 0 then "-f" else "+f"
    {
      if k == 0 {
        assert rem[0..2] == "-f";
      } else if k == 1 {
        assert rem[2..4] == "+f";
      } else if k == 2 {
        assert rem[4..6] == "+f";
      } else {
        assert rem[6..8] == "+f";
      }
    }
  }

  /** "-f" reads as -15 and "+f" as 15, written back as "-15" and "15". */
  lemma SignedDigits()
    ensures ParseHex2("-f") == Some(-15) && ParseHex2("+f") == Some(15)
    ensures IntToDecimal(-15) == "-15" && IntToDecimal(15) == "15"
  {
    assert NatToDecimal(1) == "1";
  }
}
