/**
 Reading and printing of universally unique identifiers. Octets are numbers below 256, and the shifts and
 masks that split an octet into two hex digits are written as division by 16.
 */
module Uuid {
  import opened Bytes
  import opened Options

  type Uuid = u: seq<Octet> | |u| == 16 witness [0, 0, 0, 0, 0, 0, 0, 0, 0, 0, 0, 0, 0, 0, 0, 0]

  const GUID_ENCODER := "0123456789abcdef"
  const EMPTY_GUID := "00000000-0000-0000-0000-000000000000"

  function Hex2Char(ch: char): (n: nat)
    ensures n < 16
  {
    if '0' <= ch <= '9' then ch as nat - '0' as nat
    else if 'a' <= ch <= 'f' then 10 + (ch as nat - 'a' as nat)
    else if 'A' <= ch <= 'F' then 10 + (ch as nat - 'A' as nat)
    else 0
  }

  predicate IsHex(ch: char)
  {
    '0' <= ch <= '9' || 'a' <= ch <= 'f' || 'A' <= ch <= 'F'
  }

  // The sixteen digits in either case, and nothing else, count from 0 to 15 in the order of the characters.
  lemma DigitValues(ch: char)
    ensures IsHex(ch) <==> ch in "0123456789abcdefABCDEF"
    ensures ch in "0123456789abcdef" ==> "0123456789abcdef"[Hex2Char(ch)] == ch
    ensures ch in "ABCDEF" ==> "0123456789ABCDEF"[Hex2Char(ch)] == ch
  {
  }

  // ---- what a text denotes ----

  // The text without its outer braces; None when it is empty or opens a brace that it does not close at the end.
  function Body(s: string): (b: Option<string>)
  {
    if s == "" then None
    else if s[0] != '{' then Some(s)
    else if s[|s| - 1] != '}' then None
    else Some(s[1..|s| - 1])
  }

  // The text without hyphens.
  function Digits(s: string): (d: string)
    ensures |d| <= |s|
  {
    if s == "" then "" else Digits(s[..|s| - 1]) + if s[|s| - 1] == '-' then "" else [s[|s| - 1]]
  }

  predicate AllHex(d: string)
  {
    forall i :: 0 <= i < |d| ==> IsHex(d[i])
  }

  function OctetAt(d: string, k: nat): (o: Octet)
    requires 2 * k + 1 < |d|
  {
    16 * Hex2Char(d[2 * k]) + Hex2Char(d[2 * k + 1])
  }

  predicate Wellformed(s: string)
  {
    var b := Body(s);
    b.Some? && |Digits(b.value)| == 32 && AllHex(Digits(b.value))
  }

  function OctetsOf(d: string): (u: Uuid)
    requires |d| == 32
  {
    seq(16, k requires 0 <= k < 16 => OctetAt(d, k))
  }

  function Parse(s: string): (r: Option<Uuid>)
  {
    if Wellformed(s) then Some(OctetsOf(Digits(Body(s).value))) else None
  }

  // The number that digits to base 16 and octets to base 256 denote, the first place counting most.
  function HexNumber(d: string): (n: nat)
  {
    if d == "" then 0 else 16 * HexNumber(d[..|d| - 1]) + Hex2Char(d[|d| - 1])
  }

  function OctetNumber(u: seq<Octet>): (n: nat)
  {
    if u == [] then 0 else 256 * OctetNumber(u[..|u| - 1]) + u[|u| - 1]
  }

  // The octets read are those of the 128-bit number that the digits denote.
  lemma ParsedNumber(s: string)
    requires Wellformed(s)
    ensures OctetNumber(Parse(s).value) == HexNumber(Digits(Body(s).value))
  {
    var d := Digits(Body(s).value);
    SameNumber(OctetsOf(d), d, 16);
    assert d[..32] == d && OctetsOf(d)[..16] == OctetsOf(d);
  }

  lemma {:induction false} SameNumber(u: Uuid, d: string, n: nat)
    requires |d| == 32 && u == OctetsOf(d) && n <= 16
    ensures OctetNumber(u[..n]) == HexNumber(d[..2 * n])
  {
    if n > 0 {
      SameNumber(u, d, n - 1);
      assert u[..n][..n - 1] == u[..n - 1];
      assert d[..2 * n][..2 * n - 1] == d[..2 * n - 1] && d[..2 * n - 1][..2 * n - 2] == d[..2 * n - 2];
    }
  }

  // ---- how an identifier is written ----

  function HexOf(u: seq<Octet>): (d: string)
    ensures |d| == 2 * |u|
  {
    seq(2 * |u|, j requires 0 <= j < 2 * |u| => GUID_ENCODER[if j % 2 == 0 then u[j / 2] / 16 else u[j / 2] % 16])
  }

  // The groups of 8, 4, 4, 4 and 12 digits of section 3 of RFC 4122.
  function Grouped(d: string): (r: string)
    requires |d| == 32
    ensures |r| == 36
  {
    d[..8] + "-" + d[8..12] + "-" + d[12..16] + "-" + d[16..20] + "-" + d[20..]
  }

  function Lower(ch: char): (r: char)
  {
    if 'A' <= ch <= 'F' then (ch as nat - 'A' as nat + 'a' as nat) as char else ch
  }

  // ---- round trips ----

  lemma DigitsLast(s: string, ch: char)
    ensures Digits(s + [ch]) == Digits(s) + if ch == '-' then "" else [ch]
  {
    assert (s + [ch])[..|s|] == s;
  }

  lemma {:induction false} DigitsConcat(a: string, b: string)
    ensures Digits(a + b) == Digits(a) + Digits(b)
  {
    hide Digits;
    if b == "" {
      NoDigits(b);
      assert a + b == a;
    } else {
      var n := |b| - 1;
      DigitsConcat(a, b[..n]);
      DigitsLast(b[..n], b[n]);
      DigitsLast(a + b[..n], b[n]);
      assert b[..n] + [b[n]] == b && (a + b[..n]) + [b[n]] == a + b;
    }
  }

  lemma {:induction false} DigitsWithoutHyphens(s: string)
    requires '-' !in s
    ensures Digits(s) == s
  {
    if s != "" {
      DigitsWithoutHyphens(s[..|s| - 1]);
    }
  }

  lemma EncoderDigits(n: nat)
    requires n < 16
    ensures var c := GUID_ENCODER[n]; IsHex(c) && Hex2Char(c) == n && c != '-' && c != '{'
  {
  }

  lemma HexOfIsHex(u: seq<Octet>)
    ensures AllHex(HexOf(u)) && '-' !in HexOf(u) && '{' !in HexOf(u)
    ensures forall k :: 0 <= k < |u| ==> OctetAt(HexOf(u), k) == u[k]
  {
    var d := HexOf(u);
    forall j | 0 <= j < |d|
      ensures IsHex(d[j]) && d[j] != '-' && d[j] != '{'
      ensures Hex2Char(d[j]) == if j % 2 == 0 then u[j / 2] / 16 else u[j / 2] % 16
    {
      EncoderDigits(if j % 2 == 0 then u[j / 2] / 16 else u[j / 2] % 16);
    }
  }

  lemma GroupedDigits(d: string)
    requires |d| == 32 && '-' !in d
    ensures Digits(Grouped(d)) == d
  {
    hide Digits;
    var p, q, r, s, t := d[..8], d[8..12], d[12..16], d[16..20], d[20..];
    DigitsWithoutHyphens(p);
    DigitsWithoutHyphens(q);
    DigitsWithoutHyphens(r);
    DigitsWithoutHyphens(s);
    DigitsWithoutHyphens(t);
    HyphenVanishes();
    DigitsConcat(p, "-");
    DigitsConcat(p + "-", q);
    DigitsConcat(p + "-" + q, "-");
    DigitsConcat(p + "-" + q + "-", r);
    DigitsConcat(p + "-" + q + "-" + r, "-");
    DigitsConcat(p + "-" + q + "-" + r + "-", s);
    DigitsConcat(p + "-" + q + "-" + r + "-" + s, "-");
    DigitsConcat(p + "-" + q + "-" + r + "-" + s + "-", t);
    assert d == p + q + r + s + t;
  }

  lemma HyphenVanishes()
    ensures Digits("-") == ""
  {
  }

  // Reading what was printed gives the identifier back.
  lemma ParsePrinted(u: Uuid)
    ensures Parse(Grouped(HexOf(u))) == Some(u)
  {
    hide Grouped, Digits, HexOf;
    var d := HexOf(u);
    HexOfIsHex(u);
    GroupedDigits(d);
    GroupedStart(d);
    assert OctetsOf(d) == u;
  }

  lemma GroupedStart(d: string)
    requires |d| == 32
    ensures Grouped(d) != "" && Grouped(d)[0] == d[0]
  {
  }

  lemma LowerDigit(ch: char)
    requires IsHex(ch)
    ensures GUID_ENCODER[Hex2Char(ch)] == Lower(ch)
  {
  }

  // Printing what was read gives the text's digits in lower case, regrouped.
  lemma PrintParsed(s: string)
    requires Wellformed(s)
    ensures var d := Digits(Body(s).value);
            Grouped(HexOf(Parse(s).value)) == Grouped(seq(32, j requires 0 <= j < 32 => Lower(d[j])))
  {
    var d := Digits(Body(s).value);
    var low := seq(32, j requires 0 <= j < 32 => Lower(d[j]));
    var h := HexOf(OctetsOf(d));
    forall j | 0 <= j < 32
      ensures h[j] == low[j]
    {
      LowerDigit(d[j]);
      assert OctetAt(d, j / 2) / 16 == Hex2Char(d[2 * (j / 2)]);
      assert OctetAt(d, j / 2) % 16 == Hex2Char(d[2 * (j / 2) + 1]);
    }
    assert h == low;
  }

  // ---- the loops ----

  lemma NextDigit(b: string, i: nat)
    requires i < |b|
    ensures Digits(b[..i + 1]) == Digits(b[..i]) + if b[i] == '-' then "" else [b[i]]
    ensures b[i] == '-' ==> Digits(b[..i + 1]) == Digits(b[..i])
    ensures |Digits(b)| >= |Digits(b[..i + 1])|
    ensures !AllHex(Digits(b[..i + 1])) ==> !AllHex(Digits(b))
  {
    assert b[..i + 1][..i] == b[..i];
    DigitsConcat(b[..i + 1], b[i + 1..]);
    assert b == b[..i + 1] + b[i + 1..];
    var p, d := Digits(b[..i + 1]), Digits(b);
    assert forall j :: 0 <= j < |p| ==> d[j] == p[j];
  }

  method IsValidUuid(s: string) returns (valid: bool)
    ensures valid <==> Parse(s).Some?
  {
    hide Digits;
    if s == "" {
      return false;
    }
    var hasBraces := if s[0] == '{' then 1 else 0;
    if hasBraces == 1 && s[|s| - 1] != '}' {
      return false;
    }
    ghost var b := Body(s).value;
    var firstDigit, index := true, 0;
    var i := hasBraces;
    NoDigits(b);
    while i < |s| - hasBraces
      invariant hasBraces <= i <= |b| + hasBraces && |b| == |s| - 2 * hasBraces
      invariant AllHex(Digits(b[..i - hasBraces])) && index <= 16
      invariant |Digits(b[..i - hasBraces])| == 2 * index + if firstDigit then 0 else 1
      invariant index == 16 ==> firstDigit
    {
      NextDigit(b, i - hasBraces);
      assert s[i] == b[i - hasBraces];
      if s[i] == '-' {
        i := i + 1;
        continue;
      }
      ghost var d := Digits(b[..i - hasBraces + 1]);
      assert d[|d| - 1] == s[i];
      if index >= 16 || !IsHex(s[i]) {
        return false;
      }
      if firstDigit {
        firstDigit := false;
      } else {
        index := index + 1;
        firstDigit := true;
      }
      i := i + 1;
    }
    assert b[..|b|] == b;
    valid := index >= 16;
  }

  lemma NoDigits(b: string)
    ensures b[..0] == "" && Digits(b[..0]) == ""
  {
  }

  method FromString(s: string) returns (r: Option<Uuid>)
    ensures r == Parse(s)
  {
    hide Digits, OctetAt;
    if s == "" {
      return None;
    }
    var hasBraces := if s[0] == '{' then 1 else 0;
    if hasBraces == 1 && s[|s| - 1] != '}' {
      return None;
    }
    ghost var b := Body(s).value;
    var data := new Octet[16](_ => 0);
    var firstDigit, index := true, 0;
    var i := hasBraces;
    NoDigits(b);
    while i < |s| - hasBraces
      invariant hasBraces <= i <= |b| + hasBraces && |b| == |s| - 2 * hasBraces
      invariant AllHex(Digits(b[..i - hasBraces])) && index <= 16
      invariant |Digits(b[..i - hasBraces])| == 2 * index + if firstDigit then 0 else 1
      invariant index == 16 ==> firstDigit
      invariant Filled(data[..], Digits(b[..i - hasBraces]), index)
    {
      NextDigit(b, i - hasBraces);
      assert s[i] == b[i - hasBraces];
      if s[i] == '-' {
        i := i + 1;
        continue;
      }
      ghost var before, d := Digits(b[..i - hasBraces]), Digits(b[..i - hasBraces + 1]);
      assert d == before + [s[i]];
      if index >= 16 || !IsHex(s[i]) {
        assert d[|d| - 1] == s[i];
        return None;
      }
      ghost var oldData := data[..];
      if firstDigit {
        data[index] := 16 * Hex2Char(s[i]);
        firstDigit := false;
        FilledHigh(oldData, before, index, s[i]);
        assert data[..] == oldData[index := 16 * Hex2Char(s[i])];
      } else {
        FilledLow(oldData, before, index, s[i]);
        data[index] := data[index] + Hex2Char(s[i]);
        assert data[..] == oldData[index := oldData[index] + Hex2Char(s[i])];
        index := index + 1;
        firstDigit := true;
      }
      i := i + 1;
    }
    assert b[..|b|] == b;
    if index < 16 {
      return None;
    }
    FilledAll(data[..], Digits(b));
    r := Some(data[..]);
  }

  // The octets before `index` are complete; the one at `index` holds the high digit when there is one.
  ghost predicate Filled(data: seq<Octet>, d: string, index: nat)
    requires |data| == 16
  {
    && 2 * index <= |d| <= 2 * index + 1
    && (forall k :: 0 <= k < index && k < 16 ==> data[k] == OctetAt(d, k))
    && (|d| == 2 * index + 1 && index < 16 ==> data[index] == 16 * Hex2Char(d[2 * index]))
  }

  lemma FilledHigh(data: seq<Octet>, d: string, index: nat, ch: char)
    requires |data| == 16 && index < 16 && |d| == 2 * index && Filled(data, d, index)
    ensures Filled(data[index := 16 * Hex2Char(ch)], d + [ch], index)
  {
  }

  lemma FilledLow(data: seq<Octet>, d: string, index: nat, ch: char)
    requires |data| == 16 && index < 16 && |d| == 2 * index + 1 && Filled(data, d, index)
    ensures data[index] + Hex2Char(ch) < 256
    ensures Filled(data[index := data[index] + Hex2Char(ch)], d + [ch], index + 1)
  {
  }

  lemma FilledAll(data: seq<Octet>, d: string)
    requires |data| == 16 && |d| == 32 && Filled(data, d, 16)
    ensures data == OctetsOf(d)
  {
  }

  // Where the digits of octet k start in the printed form.
  function Column(k: nat): (i: nat)
  {
    2 * k + (if k >= 4 then 1 else 0) + (if k >= 6 then 1 else 0) + (if k >= 8 then 1 else 0) + if k >= 10 then 1 else 0
  }

  predicate IsHyphenColumn(i: nat)
  {
    i == 8 || i == 13 || i == 18 || i == 23
  }

  lemma GroupedChar(d: string, i: nat)
    requires |d| == 32 && i < 36
    ensures Grouped(d)[i] == if IsHyphenColumn(i) then '-'
                             else d[i - (if i > 8 then 1 else 0) - (if i > 13 then 1 else 0)
                                      - (if i > 18 then 1 else 0) - (if i > 23 then 1 else 0)]
  {
    var a := d[..8] + "-" + d[8..12] + "-";
    var b := d[12..16] + "-" + d[16..20] + "-" + d[20..];
    assert Grouped(d) == a + b;
  }

  lemma GroupedAt(d: string)
    requires |d| == 32
    ensures forall k :: 0 <= k < 16 ==> Grouped(d)[Column(k)] == d[2 * k] && Grouped(d)[Column(k) + 1] == d[2 * k + 1]
    ensures forall i :: 0 <= i < 36 && IsHyphenColumn(i) ==> Grouped(d)[i] == '-'
  {
    hide Grouped;
    forall k | 0 <= k < 16
      ensures Grouped(d)[Column(k)] == d[2 * k] && Grouped(d)[Column(k) + 1] == d[2 * k + 1]
    {
      GroupedChar(d, Column(k));
      GroupedChar(d, Column(k) + 1);
    }
    forall i | 0 <= i < 36 && IsHyphenColumn(i)
      ensures Grouped(d)[i] == '-'
    {
      GroupedChar(d, i);
    }
  }

  // Every column is a hyphen or one of the two digits of an octet.
  lemma ColumnsCover(i: nat)
    requires i < 36
    ensures IsHyphenColumn(i) || exists k: nat :: k < 16 && (i == Column(k) || i == Column(k) + 1)
  {
    var k := if i < 8 then i / 2 else if i < 13 then (i - 1) / 2 else if i < 18 then (i - 2) / 2
             else if i < 23 then (i - 3) / 2 else (i - 4) / 2;
    if !IsHyphenColumn(i) {
      assert i == Column(k) || i == Column(k) + 1;
    }
  }

  lemma ColumnNext(index: nat)
    requires index < 16
    ensures forall k: nat :: k < index ==> Column(k) + 1 < Column(index)
    ensures Column(index) + 1 < 36 && !IsHyphenColumn(Column(index)) && !IsHyphenColumn(Column(index) + 1)
    ensures Column(index + 1) == Column(index) + 2 ||
            (IsHyphenColumn(Column(index) + 2) && Column(index + 1) == Column(index) + 3)
    ensures Column(0) == 0 && Column(16) == 36
  {
  }

  // The hyphens stand, and the digits of the first `index` octets are written.
  ghost predicate Printed(text: string, d: string, index: nat)
  {
    && |text| == 36 && |d| == 32 && index <= 16
    && (forall j :: 0 <= j < 36 && IsHyphenColumn(j) ==> text[j] == '-')
    && (forall k: nat :: k < index ==> text[Column(k)] == d[2 * k] && text[Column(k) + 1] == d[2 * k + 1])
  }

  lemma PrintOctet(text: string, d: string, index: nat)
    requires Printed(text, d, index) && index < 16
    ensures Column(index) + 1 < 36
    ensures Printed(text[Column(index) := d[2 * index]][Column(index) + 1 := d[2 * index + 1]], d, index + 1)
  {
  }

  lemma NothingPrinted(d: string)
    requires |d| == 32
    ensures |EMPTY_GUID| == 36 && Printed(EMPTY_GUID, d, 0)
  {
  }

  method ToString(u: Uuid) returns (r: string)
    ensures r == Grouped(HexOf(u))
  {
    hide Grouped, HexOf, Column, Printed;
    ghost var d := HexOf(u);
    ColumnNext(0);
    NothingPrinted(d);
    var text := new char[36](i requires 0 <= i < 36 => EMPTY_GUID[i]);
    assert text[..] == EMPTY_GUID;
    var i, index := 0, 0;
    while i < 36
      invariant 0 <= index <= 16 && Printed(text[..], d, index)
      invariant i == Column(index) || (IsHyphenColumn(i) && i + 1 == Column(index))
      invariant index < 16 <==> i < 36
    {
      ColumnNext(index);
      if IsHyphenColumn(i) {
        i := i + 1;
        continue;
      }
      HexDigits(u, index);
      ColumnNext(if index < 15 then index + 1 else 0);
      ghost var before := text[..];
      PrintOctet(before, d, index);
      text[i] := GUID_ENCODER[u[index] / 16];
      i := i + 1;
      text[i] := GUID_ENCODER[u[index] % 16];
      assert text[..] == before[i - 1 := d[2 * index]][i := d[2 * index + 1]];
      index := index + 1;
      i := i + 1;
    }
    r := text[..];
    FilledText(r, d);
  }

  lemma FilledText(text: string, d: string)
    requires Printed(text, d, 16)
    ensures text == Grouped(d)
  {
    hide Grouped;
    GroupedAt(d);
    forall j: nat | j < 36
      ensures text[j] == Grouped(d)[j]
    {
      ColumnsCover(j);
    }
  }

  lemma HexDigits(u: Uuid, k: nat)
    requires k < 16
    ensures HexOf(u)[2 * k] == GUID_ENCODER[u[k] / 16] && HexOf(u)[2 * k + 1] == GUID_ENCODER[u[k] % 16]
  {
  }

  // ---- version and variant ----

  datatype Variant = Ncs | Rfc | Microsoft | Reserved

  function VariantOf(octet8: bv8): (v: Variant)
  {
    if octet8 & 0x80 == 0x00 then Ncs
    else if octet8 & 0xC0 == 0x80 then Rfc
    else if octet8 & 0xE0 == 0xC0 then Microsoft
    else Reserved
  }

  // The version digit; 0 stands for none.
  function VersionOf(octet6: bv8): (v: nat)
  {
    if octet6 & 0xF0 == 0x10 then 1
    else if octet6 & 0xF0 == 0x20 then 2
    else if octet6 & 0xF0 == 0x30 then 3
    else if octet6 & 0xF0 == 0x40 then 4
    else if octet6 & 0xF0 == 0x50 then 5
    else 0
  }

  // The version is the high digit of its octet, and the variant is told by the range the octet is in.
  lemma VersionIsHighDigit(octet6: bv8)
    ensures (octet6 >> 4) as nat == VersionOf(octet6) || VersionOf(octet6) == 0
    ensures VersionOf(octet6) == 0 <==> octet6 < 0x10 || octet6 >= 0x60
  {
  }

  lemma VariantIsRange(octet8: bv8)
    ensures VariantOf(octet8) == Ncs <==> octet8 < 0x80
    ensures VariantOf(octet8) == Rfc <==> 0x80 <= octet8 < 0xC0
    ensures VariantOf(octet8) == Microsoft <==> 0xC0 <= octet8 < 0xE0
  {
  }

  function StampVariant(octet8: bv8): (r: bv8) { (octet8 & 0xBF) | 0x80 }

  function StampVersion5(octet6: bv8): (r: bv8) { (octet6 & 0x5F) | 0x50 }

  function StampVersion4(octet6: bv8): (r: bv8) { (octet6 & 0x4F) | 0x40 }

  // Generated identifiers carry the standard's variant and the generator's version, and keep all other bits.
  lemma StampsRead(x: bv8)
    ensures VariantOf(StampVariant(x)) == Rfc && StampVariant(x) & 0x3F == x & 0x3F
    ensures VersionOf(StampVersion5(x)) == 5 && StampVersion5(x) & 0x0F == x & 0x0F
    ensures VersionOf(StampVersion4(x)) == 4 && StampVersion4(x) & 0x0F == x & 0x0F
  {
  }
}
