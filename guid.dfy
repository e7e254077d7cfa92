/**
 * include/slimio.h, Slimio::guidToString: a GUID written in registry form,
 * `{xxxxxxxx-xxxx-xxxx-xxxx-xxxxxxxxxxxx}`, with lowercase hexadecimal digits
 * (the `%x` conversions of snprintf). The model adds the decoder the format
 * implies and proves the two inverse to each other.
 */
module GuidText {
  import opened Wrappers
  import opened WinTypes

  /** A GUID as Windows declares it: Data1, Data2, Data3 and the eight bytes of Data4. */
  datatype Guid = Guid(data1: Dword, data2: Word, data3: Word, data4: seq<Byte>)

  /** `BYTE Data4[8]`: the array always has eight elements. */
  predicate WellFormed(g: Guid) {
    |g.data4| == 8
  }

  /** `char guid_cstr[39]`: the text and its terminating NUL. */
  const GUID_BUFFER_LENGTH: nat := 39

  /** The offsets of the four dashes of the registry form. */
  predicate IsDashPosition(i: int) {
    i == 9 || i == 14 || i == 19 || i == 24
  }

  predicate IsHexDigit(c: char) {
    '0' <= c <= '9' || 'a' <= c <= 'f'
  }

  predicate AllHexDigits(s: string) {
    forall i | 0 <= i < |s| :: IsHexDigit(s[i])
  }

  /** The lowercase digit `%x` prints for a value below 16. */
  function HexDigit(d: nat): (c: char)
    requires d < 16
    ensures IsHexDigit(c)
  {
    if d < 10 then ('0' as int + d) as char else ('a' as int + d - 10) as char
  }

  /** The value of a lowercase hexadecimal digit. */
  function DigitValue(c: char): (d: nat)
    requires IsHexDigit(c)
    ensures d < 16 && HexDigit(d) == c
  {
    if c <= '9' then c as int - '0' as int else c as int - 'a' as int + 10
  }

  /** Distinct values below 16 print as distinct digits. */
  lemma HexDigitInjective(a: nat, b: nat)
    requires a < 16 && b < 16 && HexDigit(a) == HexDigit(b)
    ensures a == b
  {
  }

  function Pow16(width: nat): (p: nat)
    ensures p > 0
  {
    if width == 0 then 1 else 16 * Pow16(width - 1)
  }

  /** The widths the format uses: two digits hold a byte, four a WORD, eight a DWORD. */
  lemma Pow16Widths()
    ensures Pow16(2) == 0x100 && Pow16(4) == 0x1_0000 && Pow16(8) == DWORD_LIMIT
  {
    assert Pow16(1) == 16;
    assert Pow16(3) == 0x1000;
    assert Pow16(5) == 0x10_0000;
    assert Pow16(6) == 0x100_0000;
    assert Pow16(7) == 0x1000_0000;
  }

  /**
   * `%0<width>x` for a value that fits in `width` digits: exactly `width`
   * lowercase digits, zero-padded, most significant first.
   */
  function Hex(n: nat, width: nat): (s: string)
    requires n < Pow16(width)
    ensures |s| == width
    decreases width
  {
    if width == 0 then "" else Hex(n / 16, width - 1) + [HexDigit(n % 16)]
  }

  /** The value of a string of lowercase hexadecimal digits, most significant first. */
  function HexValue(s: string): nat
    requires AllHexDigits(s)
  {
    if s == [] then 0 else 16 * HexValue(s[..|s| - 1]) + DigitValue(s[|s| - 1])
  }

  /** Every character `Hex` prints is a lowercase hexadecimal digit. */
  lemma {:induction false} HexDigitsOnly(n: nat, width: nat)
    requires n < Pow16(width)
    ensures AllHexDigits(Hex(n, width))
    decreases width
  {
    if width > 0 {
      HexDigitsOnly(n / 16, width - 1);
    }
  }

  /** Reading back what `Hex` printed gives the value printed. */
  lemma {:induction false} HexValueOfHex(n: nat, width: nat)
    requires n < Pow16(width)
    ensures AllHexDigits(Hex(n, width)) && HexValue(Hex(n, width)) == n
    decreases width
  {
    HexDigitsOnly(n, width);
    if width > 0 {
      var s := Hex(n, width);
      assert s[..|s| - 1] == Hex(n / 16, width - 1);
      HexValueOfHex(n / 16, width - 1);
    }
  }

  /** A string of `k` hexadecimal digits holds a value below 16^k. */
  lemma {:induction false} HexValueBound(s: string)
    requires AllHexDigits(s)
    ensures HexValue(s) < Pow16(|s|)
    decreases |s|
  {
    if s != [] {
      HexValueBound(s[..|s| - 1]);
    }
  }

  /** Printing the value of a string of lowercase digits at its own width gives the string back. */
  lemma {:induction false} HexOfHexValue(s: string)
    requires AllHexDigits(s)
    ensures HexValue(s) < Pow16(|s|) && Hex(HexValue(s), |s|) == s
    decreases |s|
  {
    HexValueBound(s);
    if s != [] {
      var init, d := s[..|s| - 1], DigitValue(s[|s| - 1]);
      HexValueBound(init);
      HexOfHexValue(init);
      var n := HexValue(s);
      assert n == 16 * HexValue(init) + d;
      assert n / 16 == HexValue(init) && n % 16 == d;
      assert s == init + [s[|s| - 1]];
    }
  }

  /** The two hexadecimal digits of one byte of Data4 (`%02x`). */
  function ByteHex(b: Byte): (s: string)
    ensures |s| == 2
  {
    Pow16Widths();
    Hex(b, 2)
  }

  /**
   * guidToString: `{%08x-%04x-%04x-%02x%02x-%02x%02x%02x%02x%02x%02x}` applied to
   * Data1, Data2, Data3 and Data4[0..7], in that order.
   */
  function GuidToString(g: Guid): (s: string)
    requires WellFormed(g)
    ensures |s| == 38 && s[0] == '{' && s[37] == '}'
  {
    Pow16Widths();
    "{" + Hex(g.data1, 8) + "-" + Hex(g.data2, 4) + "-" + Hex(g.data3, 4) + "-"
    + ByteHex(g.data4[0]) + ByteHex(g.data4[1]) + "-"
    + ByteHex(g.data4[2]) + ByteHex(g.data4[3]) + ByteHex(g.data4[4])
    + ByteHex(g.data4[5]) + ByteHex(g.data4[6]) + ByteHex(g.data4[7]) + "}"
  }

  /** A piece that follows `before` at the start of `s` is the slice of `s` after `before`. */
  lemma PieceAt(s: string, before: string, piece: string)
    requires before + piece <= s
    ensures s[|before| .. |before| + |piece|] == piece
  {
    assert s[|before| .. |before| + |piece|] == (before + piece)[|before|..];
  }

  /** The layout of the text of a GUID, stated over its eleven printed fields. */
  lemma LayoutOfFields(s: string, h1: string, h2: string, h3: string, b: seq<string>)
    requires |h1| == 8 && |h2| == 4 && |h3| == 4 && |b| == 8
    requires forall k | 0 <= k < 8 :: |b[k]| == 2
    requires s == "{" + h1 + "-" + h2 + "-" + h3 + "-" + b[0] + b[1] + "-"
                  + b[2] + b[3] + b[4] + b[5] + b[6] + b[7] + "}"
    ensures |s| == 38
    ensures s[0] == '{' && s[37] == '}'
    ensures s[9] == '-' && s[14] == '-' && s[19] == '-' && s[24] == '-'
    ensures s[1..9] == h1 && s[10..14] == h2 && s[15..19] == h3
    ensures s[20..22] == b[0] && s[22..24] == b[1]
    ensures s[25..27] == b[2] && s[27..29] == b[3] && s[29..31] == b[4]
    ensures s[31..33] == b[5] && s[33..35] == b[6] && s[35..37] == b[7]
  {
    var p1 := "{" + h1 + "-";
    var p2 := p1 + h2 + "-";
    var p3 := p2 + h3 + "-";
    var p4 := p3 + b[0];
    var p5 := p4 + b[1] + "-";
    var p6 := p5 + b[2];
    var p7 := p6 + b[3];
    var p8 := p7 + b[4];
    var p9 := p8 + b[5];
    var p10 := p9 + b[6];
    assert s == p10 + b[7] + "}";
    PieceAt(s, "{", h1);
    PieceAt(s, p1, h2);
    PieceAt(s, p2, h3);
    PieceAt(s, p3, b[0]);
    PieceAt(s, p4, b[1]);
    PieceAt(s, p5, b[2]);
    PieceAt(s, p6, b[3]);
    PieceAt(s, p7, b[4]);
    PieceAt(s, p8, b[5]);
    PieceAt(s, p9, b[6]);
    PieceAt(s, p10, b[7]);
  }

  /** Where the two digits of byte `k` of Data4 start: after the fourth dash from byte 2 on. */
  function ByteStart(k: nat): (i: nat)
    requires k < 8
    ensures 20 <= i && i + 2 <= 37 && !IsDashPosition(i) && !IsDashPosition(i + 1)
  {
    if k < 2 then 20 + 2 * k else 21 + 2 * k
  }

  /** The eight two-digit fields of Data4 in the text. */
  function ByteFields(s: string): (fields: seq<string>)
    requires |s| == 38
    ensures |fields| == 8
  {
    seq(8, k requires 0 <= k < 8 => s[ByteStart(k) .. ByteStart(k) + 2])
  }

  /** Whether the fields of the 38-character text `s` print Data1, Data2, Data3 and Data4 of `g`. */
  predicate PrintsFields(s: string, g: Guid)
    requires WellFormed(g)
  {
    Pow16Widths();
    && |s| == 38
    && s[1..9] == Hex(g.data1, 8) && s[10..14] == Hex(g.data2, 4) && s[15..19] == Hex(g.data3, 4)
    && forall k | 0 <= k < 8 :: ByteFields(s)[k] == ByteHex(g.data4[k])
  }

  /** Where each field of the GUID's text sits: fixed offsets, whatever the GUID. */
  lemma GuidToStringFields(g: Guid)
    requires WellFormed(g)
    ensures var s := GuidToString(g);
      && |s| == 38
      && s[0] == '{' && s[37] == '}'
      && s[9] == '-' && s[14] == '-' && s[19] == '-' && s[24] == '-'
      && PrintsFields(s, g)
  {
    Pow16Widths();
    var b := seq(8, k requires 0 <= k < 8 => ByteHex(g.data4[k]));
    LayoutOfFields(GuidToString(g), Hex(g.data1, 8), Hex(g.data2, 4), Hex(g.data3, 4), b);
    ByteFieldsOf(GuidToString(g), b);
  }

  /** The Data4 fields of a text laid out with the pieces `b` are those pieces. */
  lemma ByteFieldsOf(s: string, b: seq<string>)
    requires |s| == 38 && |b| == 8
    requires s[20..22] == b[0] && s[22..24] == b[1]
    requires s[25..27] == b[2] && s[27..29] == b[3] && s[29..31] == b[4]
    requires s[31..33] == b[5] && s[33..35] == b[6] && s[35..37] == b[7]
    ensures ByteFields(s) == b
  {
    forall k | 0 <= k < 8 ensures ByteFields(s)[k] == b[k] {
      if k == 0 {} else if k == 1 {} else if k == 2 {} else if k == 3 {}
      else if k == 4 {} else if k == 5 {} else if k == 6 {} else {}
    }
  }

  /**
   * The text is exactly 38 characters (39 with the NUL, so snprintf never
   * truncates it), braces at both ends, dashes at 9, 14, 19 and 24, and a
   * lowercase hexadecimal digit everywhere else.
   */
  lemma GuidToStringShape(g: Guid)
    requires WellFormed(g)
    ensures |GuidToString(g)| + 1 == GUID_BUFFER_LENGTH
    ensures IsGuidText(GuidToString(g))
  {
    Pow16Widths();
    var s := GuidToString(g);
    GuidToStringFields(g);
    HexDigitsOnly(g.data1, 8);
    HexDigitsOnly(g.data2, 4);
    HexDigitsOnly(g.data3, 4);
    forall k | 0 <= k < 8 ensures AllHexDigits(ByteFields(s)[k]) {
      HexDigitsOnly(g.data4[k], 2);
    }
    forall i | 0 < i < 37 && !IsDashPosition(i) ensures IsHexDigit(s[i]) {
      HexAt(s, i);
    }
  }

  /** A position inside a field is a digit of that field. */
  lemma HexAt(s: string, i: nat)
    requires |s| == 38 && 0 < i < 37 && !IsDashPosition(i)
    requires AllHexDigits(s[1..9]) && AllHexDigits(s[10..14]) && AllHexDigits(s[15..19])
    requires forall k | 0 <= k < 8 :: AllHexDigits(ByteFields(s)[k])
    ensures IsHexDigit(s[i])
  {
    var b := ByteFields(s);
    if i < 9 { assert s[i] == s[1..9][i - 1]; }
    else if i < 14 { assert s[i] == s[10..14][i - 10]; }
    else if i < 19 { assert s[i] == s[15..19][i - 15]; }
    else if i < 22 { assert s[i] == b[0][i - 20]; }
    else if i < 24 { assert s[i] == b[1][i - 22]; }
    else if i < 27 { assert s[i] == b[2][i - 25]; }
    else if i < 29 { assert s[i] == b[3][i - 27]; }
    else if i < 31 { assert s[i] == b[4][i - 29]; }
    else if i < 33 { assert s[i] == b[5][i - 31]; }
    else if i < 35 { assert s[i] == b[6][i - 33]; }
    else { assert s[i] == b[7][i - 35]; }
  }

  /** Whether `s` has the shape GuidToString produces: braces, four dashes, lowercase digits elsewhere. */
  predicate IsGuidText(s: string) {
    && |s| == 38
    && s[0] == '{' && s[37] == '}'
    && (forall i | 0 <= i < 38 && IsDashPosition(i) :: s[i] == '-')
    && (forall i | 0 < i < 37 && !IsDashPosition(i) :: IsHexDigit(s[i]))
  }

  /** Every field of a registry-form text is a run of hexadecimal digits. */
  lemma FieldsAreHex(s: string)
    requires IsGuidText(s)
    ensures AllHexDigits(s[1..9]) && AllHexDigits(s[10..14]) && AllHexDigits(s[15..19])
    ensures forall k | 0 <= k < 8 :: AllHexDigits(ByteFields(s)[k])
  {
    forall j | 0 <= j < 8 ensures IsHexDigit(s[1..9][j]) { assert s[1..9][j] == s[1 + j]; }
    forall j | 0 <= j < 4 ensures IsHexDigit(s[10..14][j]) && IsHexDigit(s[15..19][j]) {
      assert s[10..14][j] == s[10 + j];
      assert s[15..19][j] == s[15 + j];
    }
    forall k | 0 <= k < 8 ensures AllHexDigits(ByteFields(s)[k]) {
      var start := ByteStart(k);
      assert s[start .. start + 2][0] == s[start] && s[start .. start + 2][1] == s[start + 1];
    }
  }

  /** The byte two hexadecimal digits denote. */
  function ByteValue(digits: string): (b: Byte)
    requires |digits| == 2 && AllHexDigits(digits)
  {
    HexValueBound(digits);
    Pow16Widths();
    HexValue(digits)
  }

  /** The eight bytes of Data4 a registry-form text denotes. */
  function ByteValues(s: string): (bytes: seq<Byte>)
    requires IsGuidText(s)
    ensures |bytes| == 8
  {
    FieldsAreHex(s);
    var b := ByteFields(s);
    seq(8, k requires 0 <= k < 8 => ByteValue(b[k]))
  }

  /** The GUID a text in registry form denotes: each field read back from its fixed offsets. */
  function ParseGuid(s: string): (r: Option<Guid>)
    ensures r.Some? <==> IsGuidText(s)
    ensures r.Some? ==> WellFormed(r.value)
  {
    if !IsGuidText(s) then None
    else
      FieldsAreHex(s);
      HexValueBound(s[1..9]);
      HexValueBound(s[10..14]);
      HexValueBound(s[15..19]);
      Pow16Widths();
      Some(Guid(HexValue(s[1..9]), HexValue(s[10..14]), HexValue(s[15..19]), ByteValues(s)))
  }

  /** A registry-form text whose fields print the members of `g` denotes `g`. */
  lemma ParseOfFields(s: string, g: Guid)
    requires WellFormed(g) && IsGuidText(s) && PrintsFields(s, g)
    ensures ParseGuid(s) == Some(g)
  {
    Pow16Widths();
    HexValueOfHex(g.data1, 8);
    HexValueOfHex(g.data2, 4);
    HexValueOfHex(g.data3, 4);
    forall k | 0 <= k < 8 ensures ByteValues(s)[k] == g.data4[k] {
      HexValueOfHex(g.data4[k], 2);
    }
    assert ByteValues(s) == g.data4;
  }

  /** Round trip: reading back the text of a GUID recovers Data1, Data2, Data3 and Data4 exactly. */
  lemma ParseGuidToString(g: Guid)
    requires WellFormed(g)
    ensures ParseGuid(GuidToString(g)) == Some(g)
  {
    GuidToStringShape(g);
    GuidToStringFields(g);
    ParseOfFields(GuidToString(g), g);
  }

  /** The fields of a registry-form text are the printed members of the GUID it denotes. */
  lemma FieldsOfParse(s: string)
    requires IsGuidText(s)
    ensures ParseGuid(s).Some?
    ensures PrintsFields(s, ParseGuid(s).value)
  {
    Pow16Widths();
    var g := ParseGuid(s).value;
    FieldsAreHex(s);
    HexOfHexValue(s[1..9]);
    HexOfHexValue(s[10..14]);
    HexOfHexValue(s[15..19]);
    forall k | 0 <= k < 8 ensures ByteFields(s)[k] == ByteHex(g.data4[k]) {
      var f := ByteFields(s)[k];
      HexOfHexValue(f);
      assert g.data4[k] == ByteValues(s)[k] == ByteValue(f) == HexValue(f);
    }
  }

  /** The converse: every text in registry form is the text of the GUID it denotes. */
  lemma GuidToStringOfParse(s: string)
    requires IsGuidText(s)
    ensures ParseGuid(s).Some? && GuidToString(ParseGuid(s).value) == s
  {
    FieldsOfParse(s);
    var g := ParseGuid(s).value;
    GuidToStringShape(g);
    GuidToStringFields(g);
    SameFieldsSameText(s, GuidToString(g), g);
  }

  /** Two registry-form texts whose fields print the same GUID are the same text. */
  lemma SameFieldsSameText(s: string, t: string, g: Guid)
    requires WellFormed(g) && IsGuidText(s) && IsGuidText(t)
    requires PrintsFields(s, g) && PrintsFields(t, g)
    ensures s == t
  {
    assert ByteFields(s) == ByteFields(t);
    forall i | 0 <= i < 38 ensures s[i] == t[i] {
      if 0 < i < 37 && !IsDashPosition(i) {
        var b, c := ByteFields(s), ByteFields(t);
        if i < 9 { assert s[i] == s[1..9][i - 1] && t[i] == t[1..9][i - 1]; }
        else if i < 14 { assert s[i] == s[10..14][i - 10] && t[i] == t[10..14][i - 10]; }
        else if i < 19 { assert s[i] == s[15..19][i - 15] && t[i] == t[15..19][i - 15]; }
        else if i < 22 { assert s[i] == b[0][i - 20] && t[i] == c[0][i - 20]; }
        else if i < 24 { assert s[i] == b[1][i - 22] && t[i] == c[1][i - 22]; }
        else if i < 27 { assert s[i] == b[2][i - 25] && t[i] == c[2][i - 25]; }
        else if i < 29 { assert s[i] == b[3][i - 27] && t[i] == c[3][i - 27]; }
        else if i < 31 { assert s[i] == b[4][i - 29] && t[i] == c[4][i - 29]; }
        else if i < 33 { assert s[i] == b[5][i - 31] && t[i] == c[5][i - 31]; }
        else if i < 35 { assert s[i] == b[6][i - 33] && t[i] == c[6][i - 33]; }
        else { assert s[i] == b[7][i - 35] && t[i] == c[7][i - 35]; }
      }
    }
  }

  /** Distinct GUIDs have distinct texts. */
  lemma GuidToStringInjective(a: Guid, b: Guid)
    requires WellFormed(a) && WellFormed(b) && GuidToString(a) == GuidToString(b)
    ensures a == b
  {
    ParseGuidToString(a);
    ParseGuidToString(b);
  }
}
