/** The shared data types of the tmemes service: templates, macros, text
    lines and their areas, context links and colours, with the colour text
    codec, the object-or-array JSON shape of `Areas` and the checks a new
    macro must pass. */
module Tmemes {
  import opened Wrappers
  import opened GoStrings
  import Colors

  /** tailcfg.UserID; a macro's creator is -1 when it is anonymous. */
  type UserID = int

  /** time.Time, as nanoseconds since the Unix epoch. */
  type Time = int

  /** A colour at byte level: the bytes `byte(c*255)` of Go's `[3]float64`. */
  datatype Color = Color(r: byte, g: byte, b: byte)

  const White: Color := Color(255, 255, 255)

  /** Where text is placed: an anchor and a width, as fractions of the image. */
  datatype Area = Area(x: real, y: real, width: real, tween: bool)

  datatype TextLine = TextLine(
    text: string,
    color: Color,
    strokeColor: Color,
    field: seq<Area>,
    start: real,
    end: real)

  datatype ContextLink = ContextLink(url: string, text: string)

  datatype Template = Template(
    id: int,
    path: string,
    width: int,
    height: int,
    name: string,
    creator: UserID,
    createdAt: Time,
    areas: seq<Area>,
    hidden: bool)

  datatype Macro = Macro(
    id: int,
    templateID: int,
    creator: UserID,
    createdAt: Time,
    textOverlay: seq<TextLine>,
    contextLink: seq<ContextLink>,
    upvotes: int,
    downvotes: int)

  // ---------------------------------------------------------------------
  // Colour text codec

  /** "#rrggbb" in lower-case hex. */
  function HexCode(c: Color): (s: string)
    ensures |s| == 7 && s[0] == '#' && AllLowerHex(s[1..])
    ensures s[1..3] == LowerHex2(c.r) && s[3..5] == LowerHex2(c.g) && s[5..] == LowerHex2(c.b)
  {
    "#" + LowerHex2(c.r) + LowerHex2(c.g) + LowerHex2(c.b)
  }

  /** Color.MarshalText: the colour's name when the reverse table has one,
      its lower-case "#rrggbb" code otherwise. */
  function MarshalText(c: Color): (s: string)
    ensures HexCode(c) in Colors.C2N ==> s in Colors.N2C && Colors.N2C[s] == HexCode(c)
    ensures HexCode(c) !in Colors.C2N ==> s == HexCode(c)
  {
    var h := HexCode(c);
    if h in Colors.C2N then Colors.C2N[h] else h
  }

  /** `n | n<<4` for a 4-bit `n`: the digit repeated, i.e. 17 * n. */
  function Widen(n: nat): (b: byte)
    requires n < 16
    ensures b == 17 * n
  {
    n * 16 + n
  }

  /** The byte two hexadecimal digits spell. */
  function HexByte(s: string): (b: byte)
    requires |s| == 2 && AllHex(s)
    ensures b == HexValue(s)
  {
    HexValueBound(s);
    HexValue(s)
  }

  /** The text left to decode once a name is mapped to its code and one
      leading '#' is dropped. */
  function HexPart(data: string): string {
    var p := if data in Colors.N2C then Colors.N2C[data] else data;
    TrimPrefix(p, "#")
  }

  /** What the fmt.Sscanf calls of Color.UnmarshalText make of the hex
      part. The code switches on the length in bytes of its UTF-8 encoding:
      "%1x" verbs for three bytes, "%2x" verbs for six. A verb first skips
      white space and then reads at most its width in runes, and whatever
      follows the third verb is ignored. */
  function ScanHexPart(p: string): (r: Result<Color, string>)
    ensures Utf8Len(p) != 3 && Utf8Len(p) != 6 ==> r == Err("invalid hex color")
  {
    if Utf8Len(p) == 3 then
      match Scan3Hex(p, 1)
      case Err(e) => Err(e)
      case Ok((r, g, b)) => Ok(Color(Widen(r), Widen(g), Widen(b)))
    else if Utf8Len(p) == 6 then
      match Scan3Hex(p, 2)
      case Err(e) => Err(e)
      case Ok((r, g, b)) => Ok(Color(r, g, b))
    else Err("invalid hex color")
  }

  /** Color.UnmarshalText as the code reads it. */
  function UnmarshalTextAsWritten(data: string): (r: Result<Color, string>)
    ensures |data| == 0 ==> r == Ok(White)
  {
    if |data| == 0 then Ok(White) else ScanHexPart(HexPart(data))
  }

  /** The hex part as the documentation of Color.UnmarshalText describes
      it: exactly 3 or 6 hexadecimal digits, a short code widening each
      digit to a byte. */
  function ParseHexPart(p: string): (r: Result<Color, string>)
    ensures r.Ok? <==> (|p| == 3 || |p| == 6) && AllHex(p)
    ensures |p| == 3 && AllHex(p) ==>
              r == Ok(Color(17 * HexDigitValue(p[0]).value, 17 * HexDigitValue(p[1]).value,
                            17 * HexDigitValue(p[2]).value))
    ensures |p| == 6 && AllHex(p) ==> r == Ok(Color(HexByte(p[..2]), HexByte(p[2..4]), HexByte(p[4..])))
    ensures |p| != 3 && |p| != 6 ==> r == Err("invalid hex color")
  {
    if |p| == 3 && AllHex(p) then
      Ok(Color(Widen(HexDigitValue(p[0]).value), Widen(HexDigitValue(p[1]).value),
               Widen(HexDigitValue(p[2]).value)))
    else if |p| == 6 && AllHex(p) then
      AllHexSlice(p, 0, 2);
      AllHexSlice(p, 2, 4);
      AllHexSlice(p, 4, 6);
      assert p[4..6] == p[4..];
      Ok(Color(HexByte(p[..2]), HexByte(p[2..4]), HexByte(p[4..])))
    else if |p| == 3 || |p| == 6 then Err("invalid hex digit")
    else Err("invalid hex color")
  }

  /** Color.UnmarshalText as its documentation describes it: empty text is
      white; otherwise a colour name is replaced by its code, one leading
      '#' is dropped and the rest must be a short or long code. */
  function UnmarshalText(data: string): (r: Result<Color, string>)
    ensures |data| == 0 ==> r == Ok(White)
  {
    if |data| == 0 then Ok(White) else ParseHexPart(HexPart(data))
  }

  /** Wherever the strict parse of a hex part succeeds, fmt.Sscanf gives
      the same colour. */
  lemma ScanAgrees(p: string)
    ensures ParseHexPart(p).Ok? ==> ScanHexPart(p) == ParseHexPart(p)
  {
    if ParseHexPart(p).Ok? {
      if |p| == 3 {
        ScanAgreesShort(p);
      } else {
        ScanAgreesLong(p);
      }
    }
  }

  lemma ScanAgreesShort(p: string)
    requires |p| == 3 && AllHex(p)
    ensures ScanHexPart(p) == ParseHexPart(p)
  {
    AllHexAscii(p);
    Scan3HexOnDigits(p, 1);
    assert p[..1][..0] == [] && p[1..2][..0] == [] && p[2..][..0] == [];
    assert p[..1][0] == p[0] && p[1..2][0] == p[1] && p[2..][0] == p[2];
  }

  lemma ScanAgreesLong(p: string)
    requires |p| == 6 && AllHex(p)
    ensures ScanHexPart(p) == ParseHexPart(p)
  {
    AllHexAscii(p);
    Scan3HexOnDigits(p, 2);
    assert p[2 * 2..] == p[4..];
  }

  /** The strict parse rejects a hex part with a rune that is not a
      hexadecimal digit. */
  lemma ParseRejects(p: string, k: nat)
    requires k < |p| && HexDigitValue(p[k]).None?
    ensures ParseHexPart(p).Err?
  {
  }

  /** Wherever the strict decoder succeeds, the code as written gives the
      same colour. */
  lemma AsWrittenAgrees(data: string)
    ensures UnmarshalText(data).Ok? ==> UnmarshalTextAsWritten(data) == UnmarshalText(data)
  {
    if |data| > 0 {
      ScanAgrees(HexPart(data));
    }
  }

  /** A "%2x" verb that skips the spaces from `pos` and reads the one
      digit at `start`, stopped by the end of the text or a rune outside the
      token. */
  lemma ScanOneDigit(p: string, pos: nat, start: nat)
    requires pos <= start < |p|
    requires forall k :: pos <= k < start ==> IsSpace(p[k]) && p[k] != '\n'
    requires HexDigitValue(p[start]).Some?
    requires start + 1 == |p| || !IsHexTokenChar(p[start + 1])
    ensures ScanHex(p, pos, 2) == Ok((HexDigitValue(p[start]).value, start + 1))
  {
    ScanHexRun(p, pos, 2, start, start + 1);
    HexValue1(p[start..start + 1]);
  }

  /** The same, with white space after the digit. */
  lemma ScanDigitBeforeSpace(p: string, pos: nat, start: nat)
    requires pos <= start && start + 1 < |p|
    requires forall k :: pos <= k < start ==> IsSpace(p[k]) && p[k] != '\n'
    requires HexDigitValue(p[start]).Some? && IsSpace(p[start + 1])
    ensures ScanHex(p, pos, 2) == Ok((HexDigitValue(p[start]).value, start + 1))
  {
    SpaceEndsToken(p[start + 1]);
    ScanOneDigit(p, pos, start);
  }

  /** A "%2x" verb that skips the spaces from `pos` and reads the two
      digits at `start`. */
  lemma ScanTwoDigits(p: string, pos: nat, start: nat)
    requires pos <= start && start + 2 <= |p|
    requires forall k :: pos <= k < start ==> IsSpace(p[k]) && p[k] != '\n'
    requires HexDigitValue(p[start]).Some? && HexDigitValue(p[start + 1]).Some?
    ensures AllHex(p[start..start + 2])
    ensures ScanHex(p, pos, 2) == Ok((HexByte(p[start..start + 2]), start + 2))
  {
    ScanHexRun(p, pos, 2, start, start + 2);
  }

  /** Three "%2x" verbs in sequence on a hex part of six bytes. */
  lemma ScanHexPartLong(p: string, a: nat, i: nat, b: nat, j: nat, c: nat, k: nat)
    requires Utf8Len(p) == 6 && i <= |p| && j <= |p|
    requires ScanHex(p, 0, 2) == Ok((a, i)) && ScanHex(p, i, 2) == Ok((b, j)) && ScanHex(p, j, 2) == Ok((c, k))
    ensures a < 256 && b < 256 && c < 256
    ensures ScanHexPart(p) == Ok(Color(a, b, c))
  {
    Scan3HexSteps(p, 2, a, i, b, j, c, k);
  }

  /** The same, with the third verb failing. */
  lemma ScanHexPartLongErr(p: string, a: nat, i: nat, b: nat, j: nat, e: string)
    requires Utf8Len(p) == 6 && i <= |p| && j <= |p|
    requires ScanHex(p, 0, 2) == Ok((a, i)) && ScanHex(p, i, 2) == Ok((b, j)) && ScanHex(p, j, 2) == Err(e)
    ensures ScanHexPart(p) == Err(e)
  {
  }

  /** A hex part made of ASCII runes only has as many bytes as runes. */
  lemma AsciiPart(p: string, n: nat)
    requires |p| == n && forall k :: 0 <= k < n ==> (p[k] as int) < 0x80
    ensures Utf8Len(p) == n
  {
    Utf8LenAscii(p);
  }

  /** Six runes of which all but the one at `skip` are hex digits, and that
      one ASCII, are six bytes. */
  lemma SixBytes(p: string, skip: nat)
    requires |p| == 6 && skip < 6 && (p[skip] as int) < 0x80
    requires forall k :: 0 <= k < 6 && k != skip ==> HexDigitValue(p[k]).Some?
    ensures Utf8Len(p) == 6
  {
    forall k | 0 <= k < 6 ensures (p[k] as int) < 0x80 {
      if k != skip {
        assert HexDigitValue(p[k]).Some?;
      }
    }
    AsciiPart(p, 6);
  }

  /** fmt.Sscanf accepts five hexadecimal digits and any one-byte rune
      that can end a token: the third "%2x" verb stops after one digit. The
      strict parse rejects it. */
  lemma ScanTrailingGarbage(p: string)
    requires |p| == 6 && (p[5] as int) < 0x80 && !IsHexTokenChar(p[5])
    requires forall k :: 0 <= k < 5 ==> HexDigitValue(p[k]).Some?
    ensures AllHex(p[0..2]) && AllHex(p[2..4])
    ensures ScanHexPart(p) == Ok(Color(HexByte(p[0..2]), HexByte(p[2..4]), HexDigitValue(p[4]).value))
    ensures ParseHexPart(p).Err?
  {
    SixBytes(p, 5);
    ScanTwoDigits(p, 0, 0);
    ScanTwoDigits(p, 2, 2);
    ScanOneDigit(p, 4, 4);
    ScanHexPartLong(p, HexByte(p[0..2]), 2, HexByte(p[2..4]), 4, HexDigitValue(p[4]).value, 5);
    ParseRejects(p, 5);
  }

  /** With a '_' in the last place instead, the third verb's token is
      "<digit>_", which strconv.ParseUint rejects. */
  lemma ScanTrailingUnderscore(p: string)
    requires |p| == 6 && p[5] == '_'
    requires forall k :: 0 <= k < 5 ==> HexDigitValue(p[k]).Some?
    ensures ScanHexPart(p) == Err("strconv.ParseUint: parsing \"" + p[4..6] + "\": invalid syntax")
  {
    SixBytes(p, 5);
    ScanTwoDigits(p, 0, 0);
    ScanTwoDigits(p, 2, 2);
    ScanHexUnderscore(p, 4, 2, 4, 6);
    ScanHexPartLongErr(p, HexByte(p[0..2]), 2, HexByte(p[2..4]), 4,
                       "strconv.ParseUint: parsing \"" + p[4..6] + "\": invalid syntax");
  }

  /** The code as written accepts '#', five hexadecimal digits and any
      one-byte rune that can end a token, and ignores that last rune. The
      strict decoder rejects it. */
  lemma AcceptsTrailingGarbage(data: string)
    requires |data| == 7 && data[0] == '#' && (data[6] as int) < 0x80 && !IsHexTokenChar(data[6])
    requires forall k :: 1 <= k < 6 ==> HexDigitValue(data[k]).Some?
    ensures AllHex(data[1..3]) && AllHex(data[3..5])
    ensures UnmarshalTextAsWritten(data) == Ok(Color(HexByte(data[1..3]), HexByte(data[3..5]), HexDigitValue(data[5]).value))
    ensures UnmarshalText(data).Err?
  {
    HexPartOfCode(data);
    var p := data[1..];
    assert p[0..2] == data[1..3] && p[2..4] == data[3..5] && p[4] == data[5];
    ScanTrailingGarbage(p);
  }

  /** "#12345z" is such an input. */
  lemma TrailingGarbageExample()
    ensures UnmarshalTextAsWritten("#12345z").Ok? && UnmarshalText("#12345z").Err?
  {
    AcceptsTrailingGarbage("#12345z");
  }

  /** fmt.Sscanf accepts a space and five hexadecimal digits: the first
      "%2x" verb skips the space and then reads two digits, so the last
      verb is left with one. The strict parse rejects it. */
  lemma ScanLeadingSpace(p: string)
    requires |p| == 6 && p[0] == ' '
    requires forall k :: 1 <= k < 6 ==> HexDigitValue(p[k]).Some?
    ensures AllHex(p[1..3]) && AllHex(p[3..5])
    ensures ScanHexPart(p) == Ok(Color(HexByte(p[1..3]), HexByte(p[3..5]), HexDigitValue(p[5]).value))
    ensures ParseHexPart(p).Err?
  {
    SixBytes(p, 0);
    ScanTwoDigits(p, 0, 1);
    ScanTwoDigits(p, 3, 3);
    ScanOneDigit(p, 5, 5);
    ScanHexPartLong(p, HexByte(p[1..3]), 3, HexByte(p[3..5]), 5, HexDigitValue(p[5]).value, 6);
    ParseRejects(p, 0);
  }

  /** The code as written accepts a space and five hexadecimal digits. The
      strict decoder rejects it. */
  lemma AcceptsLeadingSpace(p: string)
    requires |p| == 6 && p[0] == ' '
    requires forall k :: 1 <= k < 6 ==> HexDigitValue(p[k]).Some?
    ensures AllHex(p[1..3]) && AllHex(p[3..5])
    ensures UnmarshalTextAsWritten(p) == Ok(Color(HexByte(p[1..3]), HexByte(p[3..5]), HexDigitValue(p[5]).value))
    ensures UnmarshalText(p).Err?
  {
    HexPartPlain(p);
    ScanLeadingSpace(p);
  }

  /** " 12345" is such an input, and decodes to the bytes 0x12, 0x34, 0x05. */
  lemma LeadingSpaceExample()
    ensures UnmarshalTextAsWritten(" 12345") == Ok(Color(0x12, 0x34, 0x05))
    ensures UnmarshalText(" 12345").Err?
  {
    var p := " 12345";
    HexPartPlain(p);
    ScanLeadingSpace(p);
    HexValue2(p[1..3]);
    HexValue2(p[3..5]);
  }

  /** White space inside the hex part ends one verb's token, and the next
      verb skips it before its width starts: a digit, two spaces and three
      digits decode as one digit, two digits and one digit. */
  lemma ScanInnerSpace(p: string)
    requires |p| == 6 && p[1] == ' ' && p[2] == ' '
    requires HexDigitValue(p[0]).Some? && forall k :: 3 <= k < 6 ==> HexDigitValue(p[k]).Some?
    ensures AllHex(p[3..5])
    ensures ScanHexPart(p) == Ok(Color(HexDigitValue(p[0]).value, HexByte(p[3..5]), HexDigitValue(p[5]).value))
    ensures ParseHexPart(p).Err?
  {
    assert forall k :: 0 <= k < 6 ==> (p[k] as int) < 0x80 by {
      forall k | 0 <= k < 6 ensures (p[k] as int) < 0x80 {
        if k != 1 && k != 2 {
          assert HexDigitValue(p[k]).Some?;
        }
      }
    }
    AsciiPart(p, 6);
    ScanOneDigit(p, 0, 0);
    ScanTwoDigits(p, 1, 3);
    ScanOneDigit(p, 5, 5);
    ScanHexPartLong(p, HexDigitValue(p[0]).value, 1, HexByte(p[3..5]), 5, HexDigitValue(p[5]).value, 6);
    ParseRejects(p, 1);
  }

  /** "1  234" is such an input, and decodes to the bytes 0x01, 0x23, 0x04. */
  lemma InnerSpaceExample()
    ensures UnmarshalTextAsWritten("1  234") == Ok(Color(0x01, 0x23, 0x04))
    ensures UnmarshalText("1  234").Err?
  {
    var p := "1  234";
    HexPartPlain(p);
    ScanInnerSpace(p);
    HexValue2(p[3..5]);
  }

  /** The switch counts bytes, not runes: a no-break space (two bytes in
      UTF-8) and five digits make seven bytes, which is no valid length. */
  lemma SevenBytesExample()
    ensures UnmarshalTextAsWritten("\U{a0}12345") == Err("invalid hex color")
  {
    var q := "\U{a0}12345";
    HexPartPlain(q);
    AsciiPart(q[1..], 5);
    assert q[1..] == "12345";
  }

  /** Three digits with a space rune between each two, six bytes long in
      all: each "%2x" verb reads one digit, the next verb skipping the space
      first. */
  lemma ScanSpacedDigits(p: string)
    requires |p| == 5 && Utf8Len(p) == 6
    requires IsSpace(p[1]) && IsSpace(p[3]) && p[1] != '\n' && p[3] != '\n'
    requires HexDigitValue(p[0]).Some? && HexDigitValue(p[2]).Some? && HexDigitValue(p[4]).Some?
    ensures ScanHexPart(p) == Ok(Color(HexDigitValue(p[0]).value, HexDigitValue(p[2]).value, HexDigitValue(p[4]).value))
  {
    var a, b, c := HexDigitValue(p[0]).value, HexDigitValue(p[2]).value, HexDigitValue(p[4]).value;
    ScanDigitBeforeSpace(p, 0, 0);
    ScanDigitBeforeSpace(p, 1, 2);
    ScanOneDigit(p, 3, 4);
    ScanHexPartLong(p, a, 1, b, 3, c, 5);
  }

  /** "1", a no-break space, "2", a space and "3" are six bytes, and the
      "%2x" verbs read them as 1, 2, 3. */
  lemma NoBreakSpaceExample()
    ensures UnmarshalTextAsWritten("1\U{a0}2 3") == Ok(Color(1, 2, 3))
  {
    var p := "1\U{a0}2 3";
    HexPartPlain(p);
    assert Utf8Len(p) == 6 by {
      AsciiPart(p[2..], 3);
      assert p[1..][1..] == p[2..];
    }
    ScanSpacedDigits(p);
  }

  /** A colour name is not empty and does not start with '#'. */
  lemma NameShape(n: string)
    requires n in Colors.N2C
    ensures |n| > 0 && 'a' <= n[0] <= 'z'
  {
  }

  predicate IsLowerCode(h: string) {
    |h| == 7 && h[0] == '#' && AllLowerHex(h[1..])
  }

  /** Every code of the table is a lower-case "#rrggbb". */
  lemma CodeShape(n: string)
    requires n in Colors.N2C
    ensures IsLowerCode(Colors.N2C[n])
  {
  }

  /** A text starting with neither '#' nor a lower-case letter is kept
      whole. */
  lemma HexPartPlain(p: string)
    requires |p| > 0 && p[0] != '#' && !('a' <= p[0] <= 'z')
    ensures HexPart(p) == p
  {
    if p in Colors.N2C {
      NameShape(p);
    }
  }

  /** A text starting with '#' is not a name: only the '#' is dropped. */
  lemma HexPartOfCode(h: string)
    requires |h| > 0 && h[0] == '#'
    ensures HexPart(h) == h[1..]
  {
    if h in Colors.N2C {
      NameShape(h);
    }
  }

  /** A name is replaced by its code, and the code's '#' dropped. */
  lemma HexPartOfName(n: string)
    requires n in Colors.N2C
    ensures HexPart(n) == Colors.N2C[n][1..]
  {
    CodeShape(n);
  }

  /** Decoding a lower-case "#rrggbb" code and printing the colour gives the
      code back. */
  lemma DecodeCode(h: string)
    requires IsLowerCode(h)
    ensures UnmarshalText(h).Ok? && HexCode(UnmarshalText(h).value) == h
  {
    HexPartOfCode(h);
    ParseLowerCode(h[1..]);
    assert h == "#" + h[1..];
  }

  /** The same for the six digits after the '#'. */
  lemma ParseLowerCode(p: string)
    requires |p| == 6 && AllLowerHex(p)
    ensures ParseHexPart(p).Ok? && HexCode(ParseHexPart(p).value) == "#" + p
  {
    assert AllHex(p);
    var c := ParseHexPart(p).value;
    HexPairRoundTrip(p[..2], 0);
    HexPairRoundTrip(p[2..4], 0);
    HexPairRoundTrip(p[4..], 0);
    assert HexCode(c) == "#" + p[..2] + p[2..4] + p[4..];
    assert p == p[..2] + p[2..4] + p[4..];
  }

  /** Any non-empty text whose hex part is a colour's code decodes to that
      colour. */
  lemma DecodeHexPart(s: string, c: Color)
    requires |s| > 0 && HexPart(s) == HexCode(c)[1..]
    ensures UnmarshalText(s) == Ok(c)
  {
    var p := HexCode(c)[1..];
    HexPairRoundTrip([], c.r);
    HexPairRoundTrip([], c.g);
    HexPairRoundTrip([], c.b);
    assert p[..2] == LowerHex2(c.r) && p[2..4] == LowerHex2(c.g) && p[4..] == LowerHex2(c.b);
  }

  /** Printing a colour and decoding the text gives the colour back. */
  lemma ColorRoundTrip(c: Color)
    ensures UnmarshalText(MarshalText(c)) == Ok(c)
  {
    var h := HexCode(c);
    var s := MarshalText(c);
    assert |s| > 0 && HexPart(s) == h[1..] by {
      if h in Colors.C2N {
        NameShape(s);
        HexPartOfName(s);
      } else {
        HexPartOfCode(s);
      }
    }
    DecodeHexPart(s, c);
  }

  /** Every colour name decodes to the same colour as its code, and that
      colour prints as the name again. */
  lemma ColorNames(n: string)
    requires n in Colors.N2C
    ensures UnmarshalText(n).Ok? && UnmarshalText(n) == UnmarshalText(Colors.N2C[n])
    ensures MarshalText(UnmarshalText(n).value) == n
  {
    var h := Colors.N2C[n];
    NameShape(n);
    CodeShape(n);
    HexPartOfName(n);
    HexPartOfCode(h);
    DecodeCode(h);
    Colors.C2NInvertsN2C(n);
  }

  // ---------------------------------------------------------------------
  // Areas: one object or an array of objects

  /** The JSON encoding and decoding of one Area and of an array of
      encoded values, which the model does not interpret. */
  datatype AreaCodec = AreaCodec(
    encode: Area -> string,
    decode: string -> Result<Area, string>,
    encodeArray: seq<string> -> string,
    decodeArray: string -> Result<seq<Area>, string>)

  function EncodeEach(encode: Area -> string, areas: seq<Area>): (r: seq<string>)
    ensures |r| == |areas| && forall i :: 0 <= i < |areas| ==> r[i] == encode(areas[i])
  {
    if |areas| == 0 then [] else [encode(areas[0])] + EncodeEach(encode, areas[1..])
  }

  /** What encoding/json guarantees: an Area encodes as an object that
      decodes back to it, and an array of encoded Areas decodes to the
      list. */
  ghost predicate Lawful(j: AreaCodec) {
    (forall a :: |j.encode(a)| > 0 && j.encode(a)[0] == '{' && j.decode(j.encode(a)) == Ok(a)) &&
    (forall ms :: |j.encodeArray(ms)| > 0 && j.encodeArray(ms)[0] == '[') &&
    (forall areas :: j.decodeArray(j.encodeArray(EncodeEach(j.encode, areas))) == Ok(areas))
  }

  /** Areas.MarshalJSON: a single area as a plain object, any other number
      as an array. */
  function MarshalAreas(j: AreaCodec, areas: seq<Area>): (r: string)
    ensures Lawful(j) ==> |r| > 0 && (r[0] == '{' <==> |areas| == 1) && (r[0] == '[' <==> |areas| != 1)
  {
    if |areas| == 1 then j.encode(areas[0]) else j.encodeArray(EncodeEach(j.encode, areas))
  }

  /** Areas.UnmarshalJSON: chooses by the first character; no range check
      is made on the decoded areas. */
  function UnmarshalAreas(j: AreaCodec, data: string): (r: Result<seq<Area>, string>)
    ensures |data| == 0 ==> r == Err("empty input")
    ensures |data| > 0 && data[0] != '[' && data[0] != '{' ==> r == Err("invalid input")
    ensures |data| > 0 && data[0] == '{' ==>
              (r.Ok? <==> j.decode(data).Ok?) && (r.Ok? ==> r.value == [j.decode(data).value])
    ensures |data| > 0 && data[0] == '[' ==> r == j.decodeArray(data)
  {
    if |data| == 0 then Err("empty input")
    else if data[0] == '[' then j.decodeArray(data)
    else if data[0] == '{' then
      match j.decode(data)
      case Ok(a) => Ok([a])
      case Err(e) => Err(e)
    else Err("invalid input")
  }

  /** Every list of areas, of any length and any values, survives encoding
      and decoding. */
  lemma AreasRoundTrip(j: AreaCodec, areas: seq<Area>)
    requires Lawful(j)
    ensures UnmarshalAreas(j, MarshalAreas(j, areas)) == Ok(areas)
  {
    if |areas| == 1 {
      assert [areas[0]] == areas;
    }
  }

  // ---------------------------------------------------------------------
  // Checks for creating a macro

  predicate InUnit(v: real) { 0.0 <= v <= 1.0 }

  /** Area.ValidForCreate. */
  function AreaValidForCreate(a: Area): (r: Outcome<string>)
    ensures r.Pass? <==> InUnit(a.x) && InUnit(a.y) && InUnit(a.width)
    ensures !InUnit(a.x) ==> r == Fail("x out of range")
    ensures InUnit(a.x) && !InUnit(a.y) ==> r == Fail("y out of range")
  {
    if !InUnit(a.x) then Fail("x out of range")
    else if !InUnit(a.y) then Fail("y out of range")
    else if !InUnit(a.width) then Fail("width out of range")
    else Pass
  }

  /** If s[0] and the first i elements of s[1..] pass f, so do the first
      i + 1 elements of s. */
  lemma PassPrefixShift<T>(s: seq<T>, f: T -> Outcome<string>, i: nat)
    requires 0 < |s| && i < |s| && f(s[0]).Pass?
    requires forall j :: 0 <= j < i ==> f(s[1..][j]).Pass?
    ensures forall j :: 0 <= j < i + 1 ==> f(s[j]).Pass?
  {
    forall j | 0 <= j < i + 1
      ensures f(s[j]).Pass?
    {
      if j > 0 {
        assert s[j] == s[1..][j - 1];
      }
    }
  }

  /** The error of the first invalid area, if any. */
  function FirstAreaError(field: seq<Area>): (r: Outcome<string>)
    ensures r.Pass? <==> forall i :: 0 <= i < |field| ==> AreaValidForCreate(field[i]).Pass?
    ensures r.Fail? ==>
              exists i :: 0 <= i < |field| && r == AreaValidForCreate(field[i]) &&
                forall j :: 0 <= j < i ==> AreaValidForCreate(field[j]).Pass?
  {
    if |field| == 0 then Pass
    else if AreaValidForCreate(field[0]).Fail? then AreaValidForCreate(field[0])
    else
      var r := FirstAreaError(field[1..]);
      assert r.Fail? ==>
          exists i :: 0 <= i < |field| && r == AreaValidForCreate(field[i]) &&
            forall j :: 0 <= j < i ==> AreaValidForCreate(field[j]).Pass?
      by {
        if r.Fail? {
          var i :| 0 <= i < |field[1..]| && r == AreaValidForCreate(field[1..][i]) &&
                   forall j :: 0 <= j < i ==> AreaValidForCreate(field[1..][j]).Pass?;
          assert field[1..][i] == field[i + 1];
          PassPrefixShift(field, AreaValidForCreate, i);
        }
      }
      r
  }

  /** TextLine.ValidForCreate. */
  function TextLineValidForCreate(t: TextLine): (r: Outcome<string>)
    ensures r.Pass? <==>
              t.text != "" && |t.field| > 0 && InUnit(t.start) && InUnit(t.end) &&
              forall i :: 0 <= i < |t.field| ==> AreaValidForCreate(t.field[i]).Pass?
    ensures t.text == "" ==> r == Fail("text is empty")
    ensures t.text != "" && |t.field| == 0 ==> r == Fail("no fields specified")
  {
    if t.text == "" then Fail("text is empty")
    else if |t.field| == 0 then Fail("no fields specified")
    else if !InUnit(t.start) then Fail("start out of range")
    else if !InUnit(t.end) then Fail("end out of range")
    else FirstAreaError(t.field)
  }

  /** The error of the first invalid text line, if any. */
  function FirstLineError(lines: seq<TextLine>): (r: Outcome<string>)
    ensures r.Pass? <==> forall i :: 0 <= i < |lines| ==> TextLineValidForCreate(lines[i]).Pass?
    ensures r.Fail? ==>
              exists i :: 0 <= i < |lines| && r == TextLineValidForCreate(lines[i]) &&
                forall j :: 0 <= j < i ==> TextLineValidForCreate(lines[j]).Pass?
  {
    if |lines| == 0 then Pass
    else
      var head := TextLineValidForCreate(lines[0]);
      if head.Fail? then head
      else
      var r := FirstLineError(lines[1..]);
      assert r.Fail? ==>
          exists i :: 0 <= i < |lines| && r == TextLineValidForCreate(lines[i]) &&
            forall j :: 0 <= j < i ==> TextLineValidForCreate(lines[j]).Pass?
      by {
        if r.Fail? {
          var i :| 0 <= i < |lines[1..]| && r == TextLineValidForCreate(lines[1..][i]) &&
                   forall j :: 0 <= j < i ==> TextLineValidForCreate(lines[1..][j]).Pass?;
          assert lines[1..][i] == lines[i + 1];
          PassPrefixShift(lines, TextLineValidForCreate, i);
        }
      }
      r
  }

  const MaxContextLinksForCreate: nat := 3

  /** The checks of Macro.ValidForCreate made before the links are
      looked at, in the order the code makes them. */
  function HeaderError(m: Macro): (r: Option<string>)
    ensures r.None? <==>
              m.id == 0 && m.templateID > 0 && |m.textOverlay| > 0 && m.upvotes == 0 &&
              m.downvotes == 0 && m.creator <= 0 && |m.contextLink| <= MaxContextLinksForCreate
    ensures m.id != 0 ==> r == Some("macro ID must be zero")
    ensures m.id == 0 && m.templateID <= 0 ==> r == Some("macro must have a template ID")
  {
    if m.id != 0 then Some("macro ID must be zero")
    else if m.templateID <= 0 then Some("macro must have a template ID")
    else if |m.textOverlay| == 0 then Some("macro must have an overlay")
    else if m.upvotes != 0 || m.downvotes != 0 then Some("macro must not contain votes")
    else if m.creator > 0 then Some("invalid macro creator")
    else if |m.contextLink| > MaxContextLinksForCreate then Some("too many context links")
    else None
  }

  /** What url.Parse yields that the checks use: the scheme, and the
      escaped text that `u.String()` renders. */
  datatype URL = URL(scheme: string, text: string)

  predicate WebScheme(u: URL) { u.scheme == "http" || u.scheme == "https" }

  /** Whether a link parses, after trimming, as an http or https URL. */
  predicate GoodLink(parse: string -> Result<URL, string>, link: ContextLink) {
    parse(TrimSpace(link.url)).Ok? && WebScheme(parse(TrimSpace(link.url)).value)
  }

  /** The index of the first link that is not a good web URL, or the number
      of links when all are good. */
  function FirstBadLink(parse: string -> Result<URL, string>, links: seq<ContextLink>): (k: nat)
    ensures k <= |links|
    ensures forall i :: 0 <= i < k ==> GoodLink(parse, links[i])
    ensures k < |links| ==> !GoodLink(parse, links[k])
  {
    if |links| == 0 then 0
    else if !GoodLink(parse, links[0]) then 0
    else 1 + FirstBadLink(parse, links[1..])
  }

  /** A good link with its URL replaced by the parsed, escaped text. */
  function Sanitized(parse: string -> Result<URL, string>, link: ContextLink): ContextLink
    requires GoodLink(parse, link)
  {
    link.(url := parse(TrimSpace(link.url)).value.text)
  }

  /** The first bad link is at `i` when every link before it is good and
      the one at `i`, if any, is not. */
  lemma {:induction false} FirstBadLinkIs(parse: string -> Result<URL, string>, links: seq<ContextLink>, i: nat)
    requires i <= |links|
    requires forall j :: 0 <= j < i ==> GoodLink(parse, links[j])
    requires i < |links| ==> !GoodLink(parse, links[i])
    ensures FirstBadLink(parse, links) == i
    decreases i
  {
    if i > 0 {
      assert GoodLink(parse, links[0]);
      assert forall j :: 0 <= j < i - 1 ==> links[1..][j] == links[j + 1];
      FirstBadLinkIs(parse, links[1..], i - 1);
    }
  }

  /** The link loop of Macro.ValidForCreate: rewrites each link to its
      escaped form until the first link that does not parse as a web URL. */
  method SanitizeLinks(links: seq<ContextLink>, parse: string -> Result<URL, string>)
    returns (links': seq<ContextLink>, err: Option<string>)
    ensures |links'| == |links|
    ensures forall i :: 0 <= i < |links| ==>
              links'[i] == if i < FirstBadLink(parse, links) then Sanitized(parse, links[i]) else links[i]
    ensures err.None? <==> FirstBadLink(parse, links) == |links|
  {
    links' := links;
    var i := 0;
    while i < |links'|
      invariant i <= |links| && |links'| == |links|
      invariant forall j :: 0 <= j < i ==> GoodLink(parse, links[j])
      invariant forall j :: 0 <= j < |links| ==>
                  links'[j] == if j < i then Sanitized(parse, links[j]) else links[j]
    {
      assert links'[i] == links[i];
      var u := parse(TrimSpace(links'[i].url));
      if u.Err? {
        FirstBadLinkIs(parse, links, i);
        return links', Some("invalid context URL: " + u.error);
      } else if !WebScheme(u.value) {
        FirstBadLinkIs(parse, links, i);
        return links', Some("invalid context link scheme \"" + u.value.scheme + "\"");
      }
      links' := links'[i := links'[i].(url := u.value.text)];
      i := i + 1;
    }
    FirstBadLinkIs(parse, links, i);
    return links', None;
  }

  /** The text-line loop of Macro.ValidForCreate: the first failing line's
      error. */
  method CheckLines(lines: seq<TextLine>) returns (err: Outcome<string>)
    ensures err == FirstLineError(lines)
  {
    var t := 0;
    while t < |lines|
      invariant t <= |lines|
      invariant FirstLineError(lines) == FirstLineError(lines[t..])
    {
      var e := TextLineValidForCreate(lines[t]);
      if e.Fail? {
        return e;
      }
      assert lines[t..][1..] == lines[t + 1..];
      t := t + 1;
    }
    return Pass;
  }

  /** Macro.ValidForCreate: checks the fields in order, rewrites each
      context link to its escaped form as it goes (an early error keeps the
      links already rewritten), then checks every text line. */
  method MacroValidForCreate(m: Macro, parse: string -> Result<URL, string>) returns (m': Macro, err: Outcome<string>)
    ensures m'.(contextLink := m.contextLink) == m
    ensures |m'.contextLink| == |m.contextLink|
    ensures HeaderError(m).Some? ==> m' == m && err == Fail(HeaderError(m).value)
    ensures HeaderError(m).None? ==>
              forall i :: 0 <= i < |m.contextLink| ==>
                m'.contextLink[i] == if i < FirstBadLink(parse, m.contextLink)
                                     then Sanitized(parse, m.contextLink[i]) else m.contextLink[i]
    ensures HeaderError(m).None? && FirstBadLink(parse, m.contextLink) < |m.contextLink| ==> err.Fail?
    ensures HeaderError(m).None? && FirstBadLink(parse, m.contextLink) == |m.contextLink| ==>
              err == FirstLineError(m.textOverlay)
    ensures err.Pass? <==>
              HeaderError(m).None? &&
              (forall i :: 0 <= i < |m.contextLink| ==> GoodLink(parse, m.contextLink[i])) &&
              (forall i :: 0 <= i < |m.textOverlay| ==> TextLineValidForCreate(m.textOverlay[i]).Pass?)
  {
    var header := HeaderError(m);
    if header.Some? {
      return m, Fail(header.value);
    }
    var links, linkErr := SanitizeLinks(m.contextLink, parse);
    m' := m.(contextLink := links);
    if linkErr.Some? {
      return m', Fail(linkErr.value);
    }
    err := CheckLines(m.textOverlay);
  }
}
