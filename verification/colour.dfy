/** hex_to_rgb of py2048/interface.py: parse a "#rrggbb" colour code into
    three integers, with Python's int(text, 16) modelled on the text it is
    given. */
module Colours {
  import opened Wrappers

  /** int(text, 16) rejected its text (Python raises ValueError). */
  datatype ParseError = InvalidLiteral

  type Rgb = (int, int, int)

  /** str.lstrip(ch): every leading `ch` removed. */
  function LStrip(s: string, ch: char): (t: string)
    ensures |t| <= |s| && t == s[|s| - |t|..]
    ensures |t| > 0 ==> t[0] != ch
    ensures forall k :: 0 <= k < |s| - |t| ==> s[k] == ch
  {
    if |s| > 0 && s[0] == ch then LStrip(s[1..], ch) else s
  }

  /** Python's s[i:j] for 0 <= i <= j: the characters at positions i .. j-1
      that exist. */
  function Slice(s: string, i: nat, j: nat): (t: string)
    requires i <= j
    ensures |t| == (if j <= |s| then j - i else if i <= |s| then |s| - i else 0)
    ensures forall k :: 0 <= k < |t| ==> t[k] == s[i + k]
  {
    var lo := if i < |s| then i else |s|;
    var hi := if j < |s| then j else |s|;
    s[lo..hi]
  }

  /** The characters int() skips around a literal: the ASCII space, tab,
      line feed, vertical tab, form feed and carriage return, and the
      non-ASCII Unicode whitespace it turns into spaces first. The ASCII
      separators U+001C to U+001F are Unicode whitespace too, but int() does
      not skip them. */
  predicate IsSpace(c: char) {
    var k := c as int;
    k == 0x20 || 0x09 <= k <= 0x0D || k == 0x85 || k == 0xA0 ||
    k == 0x1680 || 0x2000 <= k <= 0x200A || k == 0x2028 || k == 0x2029 ||
    k == 0x202F || k == 0x205F || k == 0x3000
  }

  /** The value of a hexadecimal digit (either case), if `c` is one. */
  function HexDigit(c: char): (v: Option<int>)
    ensures v.Some? ==> 0 <= v.value < 16
    ensures v.Some? <==> ('0' <= c <= '9' || 'a' <= c <= 'f' || 'A' <= c <= 'F')
  {
    if '0' <= c <= '9' then Some(c as int - '0' as int)
    else if 'a' <= c <= 'f' then Some(c as int - 'a' as int + 10)
    else if 'A' <= c <= 'F' then Some(c as int - 'A' as int + 10)
    else None
  }

  /** Every character of `s` is a hexadecimal digit. */
  predicate AllHexDigits(s: string) {
    |s| == 0 || (HexDigit(s[|s| - 1]).Some? && AllHexDigits(s[..|s| - 1]))
  }

  function Pow16(e: nat): nat {
    if e == 0 then 1 else 16 * Pow16(e - 1)
  }

  /** The number a string of hexadecimal digits denotes, most significant
      digit first. */
  function HexValue(s: string): (v: nat)
    requires AllHexDigits(s)
    ensures v < Pow16(|s|)
  {
    if |s| == 0 then 0
    else 16 * HexValue(s[..|s| - 1]) + HexDigit(s[|s| - 1]).value
  }

  lemma TwoDigitValue(s: string)
    requires |s| == 2 && HexDigit(s[0]).Some? && HexDigit(s[1]).Some?
    ensures AllHexDigits(s)
    ensures HexValue(s) == 16 * HexDigit(s[0]).value + HexDigit(s[1]).value
  {
    assert s[..1][..0] == [];
    assert s[..1][0] == s[0];
  }

  lemma TwoDigitsAreDigits(t: string)
    ensures |t| == 2 && HexDigit(t[0]).Some? && HexDigit(t[1]).Some? ==> AllHexDigits(t)
  {
    if |t| == 2 && HexDigit(t[0]).Some? && HexDigit(t[1]).Some? {
      TwoDigitValue(t);
    }
  }

  /** How many whitespace characters `s` starts with. */
  function LeadingSpace(s: string): (i: nat)
    ensures i <= |s|
    ensures forall k :: 0 <= k < i ==> IsSpace(s[k])
    ensures i < |s| ==> !IsSpace(s[i])
  {
    if |s| > 0 && IsSpace(s[0]) then 1 + LeadingSpace(s[1..]) else 0
  }

  /** Where the whitespace `s` ends with begins. */
  function TrailingSpace(s: string): (j: nat)
    ensures j <= |s|
    ensures forall k :: j <= k < |s| ==> IsSpace(s[k])
    ensures j > 0 ==> !IsSpace(s[j - 1])
  {
    if |s| > 0 && IsSpace(s[|s| - 1]) then TrailingSpace(s[..|s| - 1]) else |s|
  }

  /** The text with surrounding whitespace removed: a slice of `s` that
      neither starts nor ends with whitespace, and everything outside it is
      whitespace. */
  function StripSpace(s: string): (t: string)
    ensures exists i, j :: (0 <= i <= j <= |s| && t == s[i..j] &&
      forall k :: 0 <= k < i || j <= k < |s| ==> IsSpace(s[k]))
    ensures |t| > 0 ==> !IsSpace(t[0]) && !IsSpace(t[|t| - 1])
    ensures |s| > 0 && !IsSpace(s[0]) && !IsSpace(s[|s| - 1]) ==> t == s
  {
    var i := LeadingSpace(s);
    var j := i + TrailingSpace(s[i..]);
    forall k | j <= k < |s|
      ensures IsSpace(s[k])
    {
      assert s[k] == s[i..][k - i];
    }
    s[i..j]
  }

  /** A stripped int() literal: an optional sign, then at least one
      hexadecimal digit. */
  function ParseSigned(t: string): (r: Result<int, ParseError>)
    ensures |t| == 0 ==> r.Err?
    ensures r.Ok? && |t| <= 2 ==> -15 <= r.value <= 255
    ensures |t| == 2 && HexDigit(t[0]).Some? && HexDigit(t[1]).Some? ==>
      r == Ok(16 * HexDigit(t[0]).value + HexDigit(t[1]).value)
  {
    var negative := |t| > 0 && t[0] == '-';
    var digits := if |t| > 0 && (t[0] == '+' || t[0] == '-') then t[1..] else t;
    TwoDigitsAreDigits(t);
    if |digits| == 0 || !AllHexDigits(digits) then Err(InvalidLiteral)
    else
      var v: int := HexValue(digits);
      assert |t| <= 2 ==> v < 256 by {
        if |t| <= 2 {
          assert Pow16(|digits|) <= Pow16(2);
        }
      }
      assert |t| <= 2 && negative ==> v < 16;
      assert |t| == 2 && HexDigit(t[0]).Some? && HexDigit(t[1]).Some? ==>
        v == 16 * HexDigit(t[0]).value + HexDigit(t[1]).value
      by {
        if |t| == 2 && HexDigit(t[0]).Some? && HexDigit(t[1]).Some? {
          TwoDigitValue(t);
        }
      }
      Ok(if negative then -v else v)
  }

  /** int(s, 16): optional surrounding whitespace, an optional sign, then at
      least one hexadecimal digit. */
  function ParseHex(s: string): (r: Result<int, ParseError>)
    ensures |s| == 0 ==> r.Err?
    ensures r.Ok? && |s| <= 2 ==> -15 <= r.value <= 255
    ensures |s| == 2 && HexDigit(s[0]).Some? && HexDigit(s[1]).Some? ==>
      r == Ok(16 * HexDigit(s[0]).value + HexDigit(s[1]).value)
  {
    ParseSigned(StripSpace(s))
  }

  /** int() skips a space or tab around a digit. */
  lemma ParseHexSkipsSpace()
    ensures ParseHex(" f") == Ok(15) && ParseHex("f\t") == Ok(15)
  {
    var a := " f";
    assert a[0] == ' ' && a[1] == 'f';
    SpaceAroundDigit(a, 1);
    var b := "f\t";
    assert b[0] == 'f' && b[1] == '\t';
    SpaceAroundDigit(b, 0);
  }

  /** A single hexadecimal digit with whitespace on its other side parses to
      the digit's value. */
  lemma SpaceAroundDigit(s: string, k: nat)
    requires |s| == 2 && k < 2 && IsSpace(s[1 - k]) && HexDigit(s[k]).Some?
    ensures ParseHex(s) == Ok(HexDigit(s[k]).value)
  {
    var t := s[k..k + 1];
    if k == 0 {
      assert LeadingSpace(s) == 0;
      assert TrailingSpace(s) == 1 by {
        assert s[..1] == t;
      }
    } else {
      assert LeadingSpace(s) == 1 by {
        assert s[1..] == t;
      }
      assert TrailingSpace(s[1..]) == 1;
    }
    assert StripSpace(s) == t;
    assert t == [s[k]] && t[..0] == [];
    assert AllHexDigits(t);
    assert HexValue(t) == 16 * HexValue(t[..0]) + HexDigit(t[0]).value;
  }

  /** An ASCII separator such as U+001C next to a digit is not skipped, so
      the literal is invalid. */
  lemma ParseHexKeepsSeparators()
    ensures ParseHex("\U{1C}1").Err? && ParseHex("1\U{1F}").Err?
  {
    SeparatorKept('\U{1C}', '1');
    SeparatorKept('1', '\U{1F}');
  }

  /** Two characters that are not int() whitespace, the first not a sign,
      and not both hexadecimal digits, are refused as they stand. */
  lemma SeparatorKept(c: char, d: char)
    requires !IsSpace(c) && !IsSpace(d) && c != '+' && c != '-'
    requires HexDigit(c).None? || HexDigit(d).None?
    ensures ParseHex([c, d]).Err?
  {
    var s := [c, d];
    assert StripSpace(s) == s;
    assert !AllHexDigits(s) by {
      assert s[..1] == [c];
    }
  }

  /** The six characters after the hashes are hexadecimal digits. */
  predicate SixHexDigits(s: string) {
    |s| >= 6 && forall k :: 0 <= k < 6 ==> HexDigit(s[k]).Some?
  }

  /** The component the two digits at positions k, k+1 of `s` denote. */
  function Pair(s: string, k: nat): int
    requires SixHexDigits(s) && k <= 4
  {
    16 * HexDigit(s[k]).value + HexDigit(s[k + 1]).value
  }

  lemma PairParses(s: string, k: nat)
    requires SixHexDigits(s) && k <= 4
    ensures ParseHex(Slice(s, k, k + 2)) == Ok(Pair(s, k))
  {
    var t := Slice(s, k, k + 2);
    assert t[0] == s[k] && t[1] == s[k + 1];
  }

  lemma PairsParse(s: string)
    ensures SixHexDigits(s) ==>
      && ParseHex(Slice(s, 0, 2)) == Ok(Pair(s, 0))
      && ParseHex(Slice(s, 2, 4)) == Ok(Pair(s, 2))
      && ParseHex(Slice(s, 4, 6)) == Ok(Pair(s, 4))
  {
    if SixHexDigits(s) {
      PairParses(s, 0);
      PairParses(s, 2);
      PairParses(s, 4);
    }
  }

  /** The pairs at offsets 0, 2 and 4, each parsed by int(pair, 16); the
      first failure is the result. */
  function ParsePairs(s: string): (r: Result<Rgb, ParseError>)
    ensures r.Ok? ==> -15 <= r.value.0 <= 255 && -15 <= r.value.1 <= 255 && -15 <= r.value.2 <= 255
    ensures |s| <= 4 ==> r.Err?
    ensures SixHexDigits(s) ==> r == Ok((Pair(s, 0), Pair(s, 2), Pair(s, 4)))
  {
    PairsParse(s);
    var red := ParseHex(Slice(s, 0, 2));
    var green := ParseHex(Slice(s, 2, 4));
    var blue := ParseHex(Slice(s, 4, 6));
    if red.Err? then Err(red.error)
    else if green.Err? then Err(green.error)
    else if blue.Err? then Err(blue.error)
    else Ok((red.value, green.value, blue.value))
  }

  /** hex_to_rgb: strip every leading '#', then parse the character pairs at
      offsets 0, 2 and 4 as hexadecimal numbers. */
  function HexToRgb(input: string): (r: Result<Rgb, ParseError>)
    ensures r.Ok? ==> -15 <= r.value.0 <= 255 && -15 <= r.value.1 <= 255 && -15 <= r.value.2 <= 255
    ensures |LStrip(input, '#')| <= 4 ==> r.Err?
    ensures SixHexDigits(LStrip(input, '#')) ==>
      var s := LStrip(input, '#');
      r == Ok((Pair(s, 0), Pair(s, 2), Pair(s, 4)))
  {
    ParsePairs(LStrip(input, '#'))
  }

  /** Leading hashes are all stripped, so any number of them gives the same
      colour. */
  lemma HashesIgnored(s: string)
    ensures HexToRgb("#" + s) == HexToRgb(s)
    ensures HexToRgb("##" + s) == HexToRgb(s)
  {
    HashStripped(s);
    HashStripped("#" + s);
    assert "#" + ("#" + s) == "##" + s;
    SameStripSameColour("#" + s, s);
    SameStripSameColour("##" + s, s);
  }

  /** hex_to_rgb reads nothing but what lstrip('#') leaves. */
  lemma SameStripSameColour(a: string, b: string)
    requires LStrip(a, '#') == LStrip(b, '#')
    ensures HexToRgb(a) == HexToRgb(b)
  {
  }

  lemma HashStripped(s: string)
    ensures LStrip("#" + s, '#') == LStrip(s, '#')
  {
    assert ("#" + s)[1..] == s;
  }

  lemma {:induction false} LStripAppend(s: string, u: string, ch: char)
    requires |LStrip(s, ch)| > 0
    ensures LStrip(s + u, ch) == LStrip(s, ch) + u
    decreases |s|
  {
    if |s| > 0 && s[0] == ch {
      assert (s + u)[1..] == s[1..] + u;
      LStripAppend(s[1..], u, ch);
    }
  }

  lemma SliceOfPrefix(t: string, u: string, i: nat, j: nat)
    requires i <= j <= |t|
    ensures Slice(t + u, i, j) == Slice(t, i, j)
  {
  }

  lemma PairsOfPrefix(t: string, u: string)
    requires |t| >= 6
    ensures ParsePairs(t + u) == ParsePairs(t)
  {
    SliceOfPrefix(t, u, 0, 2);
    SliceOfPrefix(t, u, 2, 4);
    SliceOfPrefix(t, u, 4, 6);
  }

  /** Characters after the sixth (counting from the first non-hash) are
      never read. */
  lemma TailIgnored(s: string, u: string)
    requires |LStrip(s, '#')| >= 6
    ensures HexToRgb(s + u) == HexToRgb(s)
  {
    LStripAppend(s, u, '#');
    PairsOfPrefix(LStrip(s, '#'), u);
  }

  /** The lower-case hexadecimal digit for 0 <= v < 16. */
  function HexChar(v: int): (c: char)
    requires 0 <= v < 16
    ensures HexDigit(c) == Some(v)
  {
    if v < 10 then ('0' as int + v) as char else ('a' as int + v - 10) as char
  }

  /** A colour written the way the source's colour table writes them:
      '#' and three two-digit hexadecimal pairs. */
  function FormatHex(c: Rgb): string
    requires 0 <= c.0 <= 255 && 0 <= c.1 <= 255 && 0 <= c.2 <= 255
  {
    ['#', HexChar(c.0 / 16), HexChar(c.0 % 16),
          HexChar(c.1 / 16), HexChar(c.1 % 16),
          HexChar(c.2 / 16), HexChar(c.2 % 16)]
  }

  /** Parsing a formatted colour gives the colour back. */
  lemma FormatRoundTrip(c: Rgb)
    requires 0 <= c.0 <= 255 && 0 <= c.1 <= 255 && 0 <= c.2 <= 255
    ensures HexToRgb(FormatHex(c)) == Ok(c)
  {
    var f := FormatHex(c);
    var s := f[1..];
    assert LStrip(f, '#') == s by {
      assert HexDigit(s[0]).Some?;
      assert LStrip(f, '#') == LStrip(s, '#');
    }
    assert SixHexDigits(s);
    assert Pair(s, 0) == c.0;
    assert Pair(s, 2) == c.1;
    assert Pair(s, 4) == c.2;
  }

  /** The colour table of the interface: tile value (None for an empty cell)
      and its colour code. */
  const HexColourMap: seq<(Option<int>, string)> := [
    (None, "#cdc1b4"), (Some(2), "#eee4da"), (Some(4), "#ede0c8"),
    (Some(8), "#f2b179"), (Some(16), "#f59563"), (Some(32), "#f67c5f"),
    (Some(64), "#f65e3b"), (Some(128), "#edcf72"), (Some(256), "#edcc61"),
    (Some(512), "#edc850"), (Some(1024), "#edc53f"), (Some(2048), "#edc22e")]

  /** Building the tile colours never raises, and every component lies in
      [0, 255]. */
  lemma ColourTableParses()
    ensures forall k :: 0 <= k < |HexColourMap| ==>
      var r := HexToRgb(HexColourMap[k].1);
      r.Ok? && 0 <= r.value.0 <= 255 && 0 <= r.value.1 <= 255 && 0 <= r.value.2 <= 255
  {
    forall k | 0 <= k < |HexColourMap|
      ensures var r := HexToRgb(HexColourMap[k].1);
        r.Ok? && 0 <= r.value.0 <= 255 && 0 <= r.value.1 <= 255 && 0 <= r.value.2 <= 255
    {
      CodeParses(HexColourMap[k].1);
    }
  }

  lemma CodeParses(code: string)
    requires |code| == 7 && code[0] == '#' && SixHexDigits(code[1..])
    ensures var r := HexToRgb(code);
      r.Ok? && 0 <= r.value.0 <= 255 && 0 <= r.value.1 <= 255 && 0 <= r.value.2 <= 255
  {
    assert HexDigit(code[1]).Some?;
    assert LStrip(code, '#') == code[1..];
  }
}
