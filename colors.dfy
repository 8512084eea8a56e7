/**
 * Colour helpers: `hexToRGB`, `normalizeRgb`, `normalizeColor`, `isHex`, `isRgb`
 * from src/utils.ts, and `getRgbaNumbers` from src/themify.ts (whose
 * hex-to-rgba library is modelled by the same slice decoder as `hexToRGB`).
 */
module Colors {
  import opened Base
  import opened Strings

  /** The numbers `parseInt` can return on these inputs: an integer or NaN. */
  datatype JsNumber = NaN | Int(value: int)

  /** `String(n)`. */
  function NumberToString(n: JsNumber): (s: string)
    ensures |s| >= 1
    ensures forall i | 0 <= i < |s| :: IsDigit(s[i]) || s[i] in {'-', 'N', 'a'}
  {
    match n
    case NaN => "NaN"
    case Int(i) => IntToString(i)
  }

  /** The value of a hexadecimal digit, or -1 for any other character. */
  function HexDigitValue(c: char): int
  {
    if '0' <= c <= '9' then c as int - '0' as int
    else if 'a' <= c <= 'f' then c as int - 'a' as int + 10
    else if 'A' <= c <= 'F' then c as int - 'A' as int + 10
    else -1
  }

  predicate IsHexDigit(c: char) { HexDigitValue(c) >= 0 }

  /** The string without its leading JavaScript white space. */
  function TrimStart(s: string): (r: string)
    ensures |r| <= |s|
  {
    if s != [] && s[0] in JsWhitespace then TrimStart(s[1..]) else s
  }

  /** The longest prefix made of hexadecimal digits. */
  function HexPrefix(s: string): (r: string)
    ensures |r| <= |s| && r == s[..|r|]
    ensures forall i | 0 <= i < |r| :: IsHexDigit(r[i])
    ensures |r| < |s| ==> !IsHexDigit(s[|r|])
  {
    if s != [] && IsHexDigit(s[0]) then [s[0]] + HexPrefix(s[1..]) else []
  }

  function HexValue(ds: string): nat
    requires forall i | 0 <= i < |ds| :: IsHexDigit(ds[i])
  {
    if ds == [] then 0
    else
      var d := HexDigitValue(ds[|ds| - 1]);
      assert IsHexDigit(ds[|ds| - 1]);
      16 * HexValue(ds[..|ds| - 1]) + d
  }

  /**
   * `parseInt(s, 16)`: leading white space is skipped, then one sign, then a
   * `0x`/`0X` prefix; the longest run of hexadecimal digits that follows is the
   * value, and NaN when there is none. A negative zero prints as "0", so it is Int(0).
   */
  function ParseIntHex(s: string): JsNumber
  {
    var t := TrimStart(s);
    var negative := |t| > 0 && t[0] == '-';
    var u := if |t| > 0 && (t[0] == '-' || t[0] == '+') then t[1..] else t;
    var w := if |u| >= 2 && u[0] == '0' && (u[1] == 'x' || u[1] == 'X') then u[2..] else u;
    var ds := HexPrefix(w);
    if ds == [] then NaN
    else
      var n: int := HexValue(ds);
      Int(if negative then -n else n)
  }

  /** `s.slice(start, end)` for non-negative bounds, which are clamped to the length. */
  function Slice(s: string, start: nat, end: nat): (r: string)
    ensures |r| <= if end >= start then end - start else 0
  {
    if start >= |s| || start >= end then "" else s[start..if end <= |s| then end else |s|]
  }

  /** One colour channel: `parseInt(hex.slice(i, i + 2), 16)`. */
  function Channel(hex: string, i: nat): JsNumber
  {
    ParseIntHex(Slice(hex, i, i + 2))
  }

  /** The three channels printed as `r, g, b`. */
  function Triple(hex: string): string
  {
    NumberToString(Channel(hex, 1)) + ", " + NumberToString(Channel(hex, 3)) + ", " + NumberToString(Channel(hex, 5))
  }

  /** The default parameter `alpha = false`: None is false or undefined, and the empty string is falsy too. */
  predicate AlphaTruthy(alpha: Option<string>)
  {
    alpha.Some? && alpha.value != ""
  }

  /** `hexToRGB(hex, alpha)`. */
  function HexToRgb(hex: string, alpha: Option<string>): string
  {
    RgbText(Triple(hex), alpha)
  }

  /** The template `hexToRGB` prints its channels into: `rgba(…, alpha)` for a truthy alpha, `rgb(…)` otherwise. */
  function RgbText(channels: string, alpha: Option<string>): string
  {
    if AlphaTruthy(alpha) then "rgba(" + channels + ", " + alpha.value + ")"
    else "rgb(" + channels + ")"
  }

  lemma TripleHasNoCloseParen(hex: string)
    ensures forall i | 0 <= i < |Triple(hex)| :: Triple(hex)[i] != ')'
  {
    var a, b, c := NumberToString(Channel(hex, 1)), NumberToString(Channel(hex, 3)), NumberToString(Channel(hex, 5));
    assert Triple(hex) == a + ", " + b + ", " + c;
    forall i | 0 <= i < |Triple(hex)| ensures Triple(hex)[i] != ')' {
      if i < |a| { assert Triple(hex)[i] == a[i]; }
      else if i < |a| + 2 { }
      else if i < |a| + 2 + |b| { assert Triple(hex)[i] == b[i - |a| - 2]; }
      else if i < |a| + 4 + |b| { }
      else { assert Triple(hex)[i] == c[i - |a| - |b| - 4]; }
    }
  }

  /** In `t + tail`, where `t` has no ')' and `tail` has one only at its end, the first occurrence of `tail` is right after `t`. */
  lemma FirstOccurrenceAfter(t: string, tail: string)
    requires |tail| >= 1 && tail[|tail| - 1] == ')'
    requires forall i | 0 <= i < |tail| - 1 :: tail[i] != ')'
    requires forall i | 0 <= i < |t| :: t[i] != ')'
    ensures IndexOf(t + tail, tail) == |t|
  {
    var s := t + tail;
    assert s[|t|..|t| + |tail|] == tail;
    assert OccursAt(s, tail, |t|);
    forall j | 0 <= j < |t| ensures !OccursAt(s, tail, j) {
      var e := j + |tail| - 1;
      if e < |t| { assert s[e] == t[e]; } else { assert s[e] == tail[e - |t|]; }
      if j + |tail| <= |s| { assert s[j..j + |tail|][|tail| - 1] == s[e]; }
    }
  }

  lemma LeadingOccurrence(p: string, rest: string)
    ensures IndexOf(p + rest, p) == 0
  {
    assert (p + rest)[0..|p|] == p;
    assert OccursAt(p + rest, p, 0);
  }

  /**
   * `getRgbaNumbers`: the `rgba(r, g, b, 1)` form with `rgba(` and `, 1)` removed,
   * which leaves exactly the three channels.
   */
  function GetRgbaNumbers(hex: string): (r: string)
    ensures r == Triple(hex)
  {
    StripRgbaPrefix(hex);
    StripAlphaSuffix(hex);
    ReplaceFirst(ReplaceFirst(HexToRgb(hex, Some("1")), "rgba(", ""), ", 1)", "")
  }

  lemma StripRgbaPrefix(hex: string)
    ensures ReplaceFirst(HexToRgb(hex, Some("1")), "rgba(", "") == Triple(hex) + ", 1)"
  {
    RgbaOne(hex);
    StripLeading("rgba(", Triple(hex) + ", 1)");
  }

  lemma RgbaOne(hex: string)
    ensures HexToRgb(hex, Some("1")) == "rgba(" + (Triple(hex) + ", 1)")
  {
    var t := Triple(hex);
    assert AlphaTruthy(Some("1"));
    assert ", " + "1" + ")" == ", 1)";
    assert "rgba(" + t + ", " + "1" + ")" == "rgba(" + (t + (", " + "1" + ")"));
  }

  lemma StripLeading(p: string, rest: string)
    ensures ReplaceFirst(p + rest, p, "") == rest
  {
    LeadingOccurrence(p, rest);
    assert (p + rest)[|p|..] == rest;
  }

  lemma StripAlphaSuffix(hex: string)
    ensures ReplaceFirst(Triple(hex) + ", 1)", ", 1)", "") == Triple(hex)
  {
    TripleHasNoCloseParen(hex);
    FirstOccurrenceAfter(Triple(hex), ", 1)");
  }

  /** `normalizeRgb`: the first `rgb(` and the first `)` removed. */
  function NormalizeRgb(rgb: string): string
  {
    ReplaceFirst(ReplaceFirst(rgb, "rgb(", ""), ")", "")
  }

  /** `normalizeRgb` unwraps `rgb(t)` when `t` has no ')'. */
  lemma NormalizeRgbUnwraps(t: string)
    requires forall i | 0 <= i < |t| :: t[i] != ')'
    ensures NormalizeRgb("rgb(" + t + ")") == t
  {
    var x := "rgb(" + t + ")";
    assert x == "rgb(" + (t + ")");
    LeadingOccurrence("rgb(", t + ")");
    assert ReplaceFirst(x, "rgb(", "") == t + ")" by {
      assert x[..0] + "" + x[4..] == t + ")";
    }
    FirstOccurrenceAfter(t, ")");
    assert ReplaceFirst(t + ")", ")", "") == t by {
      assert (t + ")")[..|t|] == t;
      assert (t + ")")[|t| + 1..] == [];
    }
  }

  /** Normalising the `rgb(...)` form of a colour gives back its three channels. */
  lemma NormalizeHexRgb(hex: string)
    ensures NormalizeRgb(HexToRgb(hex, None)) == Triple(hex)
  {
    TripleHasNoCloseParen(hex);
    NormalizeRgbUnwraps(Triple(hex));
  }

  /** `isHex`: the colour contains a '#' anywhere. */
  predicate IsHex(color: string) { Contains(color, "#") }

  /** `isRgb`: the colour contains `rgb` anywhere. */
  predicate IsRgb(color: string) { Contains(color, "rgb") }

  /** `normalizeColor`: the `r, g, b` form of a colour, for a custom property value. */
  function NormalizeColor(color: string): (r: string)
    ensures IsHex(color) ==> r == Triple(color)
    ensures !IsHex(color) && IsRgb(color) ==> r == NormalizeRgb(color)
    ensures !IsHex(color) && !IsRgb(color) ==> r == color
  {
    if IsHex(color) then
      NormalizeHexRgb(color);
      NormalizeRgb(HexToRgb(color, None))
    else if IsRgb(color) then NormalizeRgb(color)
    else color
  }

  /** A well-formed `#RRGGBB` colour. */
  predicate IsHexColor(s: string)
  {
    |s| == 7 && s[0] == '#' && forall i | 1 <= i < 7 :: IsHexDigit(s[i])
  }

  function HexChar(d: nat): (c: char)
    requires d < 16
    ensures HexDigitValue(c) == d
  {
    if d < 10 then ('0' as int + d) as char else ('a' as int + d - 10) as char
  }

  /** The lower-case `#rrggbb` spelling of three channels. */
  function FormatHex(r: nat, g: nat, b: nat): (s: string)
    requires r < 256 && g < 256 && b < 256
    ensures IsHexColor(s)
  {
    ['#', HexChar(r / 16), HexChar(r % 16), HexChar(g / 16), HexChar(g % 16), HexChar(b / 16), HexChar(b % 16)]
  }

  /** Two hexadecimal digits parse to their value, which is a byte. */
  lemma ParseTwoHexDigits(a: char, b: char)
    requires IsHexDigit(a) && IsHexDigit(b)
    ensures ParseIntHex([a, b]) == Int(16 * HexDigitValue(a) + HexDigitValue(b))
    ensures 0 <= 16 * HexDigitValue(a) + HexDigitValue(b) < 256
  {
    assert [a, b][0] !in JsWhitespace;
    assert TrimStart([a, b]) == [a, b];
    var w := if a == '0' && (b == 'x' || b == 'X') then [] else [a, b];
    assert w == [a, b];
    assert HexPrefix([b]) == [b];
    assert HexPrefix([a, b]) == [a] + HexPrefix([a, b][1..]);
    assert [a, b][1..] == [b];
    assert HexPrefix([a, b]) == [a, b];
    assert [a, b][..1] == [a];
    assert HexValue([a]) == HexDigitValue(a) by { assert [a][..0] == []; }
  }

  /** The channels of a well-formed `#RRGGBB` colour are the bytes its digit pairs spell. */
  lemma {:induction false} HexColorChannels(s: string)
    requires IsHexColor(s)
    ensures Channel(s, 1) == Int(16 * HexDigitValue(s[1]) + HexDigitValue(s[2]))
    ensures Channel(s, 3) == Int(16 * HexDigitValue(s[3]) + HexDigitValue(s[4]))
    ensures Channel(s, 5) == Int(16 * HexDigitValue(s[5]) + HexDigitValue(s[6]))
  {
    assert Slice(s, 1, 3) == [s[1], s[2]];
    assert Slice(s, 3, 5) == [s[3], s[4]];
    assert Slice(s, 5, 7) == [s[5], s[6]];
    ParseTwoHexDigits(s[1], s[2]);
    ParseTwoHexDigits(s[3], s[4]);
    ParseTwoHexDigits(s[5], s[6]);
  }

  /** Decoding the `#rrggbb` spelling of three bytes gives those bytes back, in decimal. */
  lemma TripleOfFormatHex(r: nat, g: nat, b: nat)
    requires r < 256 && g < 256 && b < 256
    ensures Triple(FormatHex(r, g, b)) == NatToString(r) + ", " + NatToString(g) + ", " + NatToString(b)
  {
    FormatHexChannels(r, g, b);
  }

  /** And so `hexToRGB` of it prints those bytes, with the alpha when it is truthy. */
  lemma HexToRgbOfFormatHex(r: nat, g: nat, b: nat, alpha: Option<string>)
    requires r < 256 && g < 256 && b < 256
    ensures var t := NatToString(r) + ", " + NatToString(g) + ", " + NatToString(b);
      HexToRgb(FormatHex(r, g, b), alpha) == if AlphaTruthy(alpha) then "rgba(" + t + ", " + alpha.value + ")" else "rgb(" + t + ")"
  {
    TripleOfFormatHex(r, g, b);
  }

  lemma FormatHexChannels(r: nat, g: nat, b: nat)
    requires r < 256 && g < 256 && b < 256
    ensures Channel(FormatHex(r, g, b), 1) == Int(r)
    ensures Channel(FormatHex(r, g, b), 3) == Int(g)
    ensures Channel(FormatHex(r, g, b), 5) == Int(b)
  {
    var s := FormatHex(r, g, b);
    HexColorChannels(s);
    assert s[1] == HexChar(r / 16) && s[2] == HexChar(r % 16);
    assert s[3] == HexChar(g / 16) && s[4] == HexChar(g % 16);
    assert s[5] == HexChar(b / 16) && s[6] == HexChar(b % 16);
  }
}
