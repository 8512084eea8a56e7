/**
 * The `themify(...)` macro of src/themify.ts: the plugin options, the variations,
 * the tokenizer behind `/themify\(([^)]+)\)/gi`, `normalize`, `translateColor`,
 * `getThemifyValue`, and the rule and selector helpers shared by both passes.
 */
module Macro {
  import opened Base
  import opened Strings
  import opened Js
  import opened Colors

  // ---------------------------------------------------------------- variations

  const Dark: string := "dark"
  const Light: string := "light"

  /** `Object.values(ColorVariation)`, in declaration order. */
  const Variations: seq<string> := [Dark, Light]

  const DefaultVariation: string := Light

  /** The elements of `vs` other than `x`, in order (`vs.filter(v => v !== x)`). */
  function Without(vs: seq<string>, x: string): (r: seq<string>)
    ensures forall v | v in r :: v in vs && v != x
    ensures forall v | v in vs && v != x :: v in r
    ensures |r| <= |vs|
  {
    if vs == [] then []
    else (if vs[0] == x then [] else [vs[0]]) + Without(vs[1..], x)
  }

  /** `nonDefaultVariations`: every variation but the default one. */
  const NonDefaultVariations: seq<string> := [Dark]

  /** The constant is what filtering the default out of the variations gives. */
  lemma NonDefaultIsFiltered()
    ensures Without(Variations, DefaultVariation) == NonDefaultVariations
  {
    assert Variations[1..] == [Light];
    assert Without([Light], Light) == [] + Without([], Light);
    assert Without(Variations, DefaultVariation) == [Dark] + Without([Light], Light);
  }

  // ---------------------------------------------------------------- options

  /** The colour map of one variation in the palette; Absent stands for null or undefined. */
  datatype ColorMap = Absent | Present(colors: seq<(string, string)>)

  /** `pallete`: variation name to colour map, in key order. */
  type Palette = seq<(string, ColorMap)>

  /** The options a user passes; a None field is one the user left out. `pallete: None` is any falsy palette. */
  datatype UserOptions = UserOptions(
    createVars: Option<bool>,
    pallete: Option<Palette>,
    classPrefix: Option<string>,
    screwIE11: Option<bool>)

  /** The options after `buildOptions`. The fallback file paths only matter to file output, which is not modelled. */
  datatype Options = Options(createVars: bool, pallete: Palette, classPrefix: string, screwIE11: bool)

  function OrElse<T>(o: Option<T>, d: T): T
  {
    if o.Some? then o.value else d
  }

  /** `buildOptions`: the user's options over the defaults, once both guards pass. */
  function BuildOptions(options: Option<UserOptions>): (r: Result<Options>)
    ensures options.None? <==> r == Err(OptionsRequired)
    ensures options.Some? && options.value.pallete.None? <==> r == Err(PaletteRequired)
    ensures r.Ok? <==> options.Some? && options.value.pallete.Some?
    ensures r.Ok? ==>
      var u := options.value;
      r.value.pallete == u.pallete.value &&
      r.value.createVars == OrElse(u.createVars, true) &&
      r.value.classPrefix == OrElse(u.classPrefix, "") &&
      r.value.screwIE11 == OrElse(u.screwIE11, true)
  {
    if options.None? then Err(OptionsRequired)
    else
      var u := options.value;
      if u.pallete.None? then Err(PaletteRequired)
      else Ok(Options(
        if u.createVars.Some? then u.createVars.value else true,
        u.pallete.value,
        if u.classPrefix.Some? then u.classPrefix.value else "",
        if u.screwIE11.Some? then u.screwIE11.value else true))
  }

  /**
   * What a plugin run depends on: the palette, the class prefix, and `JSON.parse`,
   * given as a function that returns None where `JSON.parse` throws.
   */
  datatype Env = Env(palette: Palette, classPrefix: string, parse: string -> Option<Json>)

  function EnvOf(o: Options, parse: string -> Option<Json>): Env
  {
    Env(o.pallete, o.classPrefix, parse)
  }

  // ---------------------------------------------------------------- tokenizer

  const Keyword: string := "themify"

  /** ASCII lower case, the only case folding a non-unicode `/i` regular expression does for these letters. */
  function LowerAscii(c: char): char
  {
    if 'A' <= c <= 'Z' then (c as int + 32) as char else c
  }

  /** `themify`, in any mix of case, at index `i`. */
  predicate KeywordAt(s: string, i: nat)
  {
    i + |Keyword| <= |s| && forall k | 0 <= k < |Keyword| :: LowerAscii(s[i + k]) == Keyword[k]
  }

  /** `themify(` + at least one non-')' character + `)` matches at the start of `s`, closing at index `j`. */
  predicate MacroSpan(s: string, j: int)
  {
    KeywordAt(s, 0) && 8 < j < |s| && s[7] == '(' && s[j] == ')' &&
    forall k | 8 <= k < j :: s[k] != ')'
  }

  /** Where a match of `themify\(([^)]+)\)` starting at index 0 closes, if there is one. */
  function MatchEnd(s: string): Option<nat>
  {
    if |s| < 9 || !KeywordAt(s, 0) || s[7] != '(' then None
    else
      var j := IndexOfFrom(s, ")", 8);
      if j > 8 then Some(j) else None
  }

  /** MatchEnd finds exactly the matches of the pattern at index 0. */
  lemma MatchEndSpec(s: string)
    ensures MatchEnd(s).Some? ==> MacroSpan(s, MatchEnd(s).value)
    ensures MatchEnd(s).None? ==> forall j :: !MacroSpan(s, j)
  {
    if |s| >= 9 && KeywordAt(s, 0) && s[7] == '(' {
      var j := IndexOfFrom(s, ")", 8);
      if j > 8 {
        forall k | 8 <= k < j ensures s[k] != ')' {
          assert !OccursAt(s, ")", k);
          assert s[k..k + 1] == [s[k]];
        }
        assert s[j..j + 1] == [s[j]];
      } else {
        forall j' | MacroSpan(s, j') ensures false {
          assert s[j'..j' + 1] == [s[j']];
          assert OccursAt(s, ")", j');
        }
      }
    }
  }

  /** A value split into the text it keeps and the macro calls it replaces. */
  datatype Piece = Lit(c: char) | Call(keyword: string, arg: string)

  /** The matches of `themify\(([^)]+)\)/gi`, scanning left to right and resuming after each match. */
  function Tokenize(s: string): seq<Piece>
    decreases |s|
  {
    if s == [] then []
    else match MatchEnd(s)
      case Some(j) => [Call(s[..7], s[8..j])] + Tokenize(s[j + 1..])
      case None => [Lit(s[0])] + Tokenize(s[1..])
  }

  /** The text a piece was read from. */
  function PieceText(p: Piece): string
  {
    match p
    case Lit(c) => [c]
    case Call(k, a) => k + "(" + a + ")"
  }

  /** The text the pieces were read from. */
  function Untokenize(ps: seq<Piece>): string
  {
    if ps == [] then "" else PieceText(ps[0]) + Untokenize(ps[1..])
  }

  /** The keyword in any case, as the pattern's `/i` flag accepts it. */
  predicate IsKeyword(k: string)
  {
    |k| == |Keyword| && forall i | 0 <= i < |Keyword| :: LowerAscii(k[i]) == Keyword[i]
  }

  /** A call is what the regular expression matches: the keyword, and a non-empty argument without ')'. */
  predicate WellFormed(p: Piece)
  {
    p.Call? ==>
      IsKeyword(p.keyword) &&
      |p.arg| >= 1 && forall k | 0 <= k < |p.arg| :: p.arg[k] != ')'
  }

  /** A call spelled out again, followed by the rest of the value, is the value. */
  lemma CallReassembles(s: string, j: int)
    requires MacroSpan(s, j)
    ensures PieceText(Call(s[..7], s[8..j])) + s[j + 1..] == s
  {
    assert s == s[..7] + s[7..8] + s[8..j] + s[j..j + 1] + s[j + 1..];
    assert s[7..8] == "(" && s[j..j + 1] == ")";
  }

  lemma UntokenizeCons(p: Piece, ps: seq<Piece>)
    ensures Untokenize([p] + ps) == PieceText(p) + Untokenize(ps)
  {
    assert ([p] + ps)[1..] == ps;
  }

  /** Tokenizing loses nothing: the pieces spell the value again. */
  lemma {:induction false} TokenizeRoundTrip(s: string)
    ensures Untokenize(Tokenize(s)) == s
    decreases |s|
  {
    if s != [] {
      var m := MatchEnd(s);
      MatchEndSpec(s);
      if m.Some? {
        var j := m.value;
        TokenizeRoundTrip(s[j + 1..]);
        UntokenizeCons(Call(s[..7], s[8..j]), Tokenize(s[j + 1..]));
        CallReassembles(s, j);
      } else {
        TokenizeRoundTrip(s[1..]);
        UntokenizeCons(Lit(s[0]), Tokenize(s[1..]));
        assert [s[0]] + s[1..] == s;
      }
    }
  }

  /** Every call the tokenizer reports is a real match. */
  lemma {:induction false} TokenizeWellFormed(s: string)
    ensures forall p | p in Tokenize(s) :: WellFormed(p)
    decreases |s|
  {
    if s != [] {
      MatchEndSpec(s);
      match MatchEnd(s)
      case Some(j) =>
        TokenizeWellFormed(s[j + 1..]);
        var p := Call(s[..7], s[8..j]);
        assert WellFormed(p) by {
          forall k | 0 <= k < |p.arg| ensures p.arg[k] != ')' {
            assert p.arg[k] == s[8 + k];
          }
        }
      case None =>
        TokenizeWellFormed(s[1..]);
    }
  }

  /** A value without an opening parenthesis has no call in it. */
  lemma {:induction false} TokenizeWithoutParen(s: string)
    requires forall i | 0 <= i < |s| :: s[i] != '('
    ensures Tokenize(s) == seq(|s|, i requires 0 <= i < |s| => Lit(s[i]))
    decreases |s|
  {
    if s != [] {
      assert MatchEnd(s).None?;
      TokenizeWithoutParen(s[1..]);
    }
  }

  /** A call at the start of a value is reported as one piece, and scanning resumes after its `)`. */
  lemma TokenizeCall(k: string, arg: string, rest: string)
    requires IsKeyword(k)
    requires |arg| >= 1 && forall i | 0 <= i < |arg| :: arg[i] != ')'
    ensures Tokenize(k + "(" + arg + ")" + rest) == [Call(k, arg)] + Tokenize(rest)
  {
    var s := k + "(" + arg + ")" + rest;
    var j := 8 + |arg|;
    CallSpan(k, arg, rest);
    MatchEndSpec(s);
    var j' := MatchEnd(s).value;
    assert s[j'] == ')' && s[j] == ')';
    assert MatchEnd(s) == Some(j);
    assert Tokenize(s) == [Call(s[..7], s[8..j])] + Tokenize(s[j + 1..]);
  }

  /** The call spelled out is a match closing right after its argument. */
  lemma CallSpan(k: string, arg: string, rest: string)
    requires IsKeyword(k)
    requires |arg| >= 1 && forall i | 0 <= i < |arg| :: arg[i] != ')'
    ensures MacroSpan(k + "(" + arg + ")" + rest, 8 + |arg|)
    ensures (k + "(" + arg + ")" + rest)[..7] == k
    ensures (k + "(" + arg + ")" + rest)[8..8 + |arg|] == arg
    ensures (k + "(" + arg + ")" + rest)[9 + |arg|..] == rest
  {
    var s := k + "(" + arg + ")" + rest;
    var j := 8 + |arg|;
    assert s[..7] == k;
    assert s[8..j] == arg;
    assert s[j + 1..] == rest;
    assert forall m | 8 <= m < j :: s[m] == arg[m - 8];
  }

  /** No `themify(`, in any case, starts inside `s`: the pattern cannot match at any of its indices. */
  predicate NoCallIn(s: string)
  {
    forall i | 0 <= i && i + 8 <= |s| :: !(KeywordAt(s, i) && s[i + 7] == '(')
  }

  /** Text without `(` holds no call, since every match has one. */
  lemma ParenFreeHasNoCall(s: string)
    requires forall i | 0 <= i < |s| :: s[i] != '('
    ensures NoCallIn(s)
  {
  }

  /** Dropping the first character keeps a text free of call starts. */
  lemma NoCallInTail(s: string)
    requires |s| >= 1 && NoCallIn(s)
    ensures NoCallIn(s[1..])
  {
    forall i | 0 <= i && i + 8 <= |s[1..]| ensures !(KeywordAt(s[1..], i) && s[1..][i + 7] == '(') {
      if KeywordAt(s[1..], i) {
        forall k | 0 <= k < |Keyword| ensures LowerAscii(s[i + 1 + k]) == Keyword[k] {
          assert s[1..][i + k] == s[i + 1 + k];
        }
        assert KeywordAt(s, i + 1);
      }
    }
  }

  /** No match starts at the front of such a text followed by such a tail. */
  lemma NoMatchAtFront(pre: string, tail: string)
    requires |pre| >= 1 && NoCallIn(pre)
    requires forall i | 0 <= i < |tail| && i < 7 :: tail[i] != '('
    ensures MatchEnd(pre + tail).None?
  {
    var s := pre + tail;
    if |s| >= 9 && KeywordAt(s, 0) {
      if 8 <= |pre| {
        forall k | 0 <= k < |Keyword| ensures LowerAscii(pre[k]) == Keyword[k] {
          assert s[k] == pre[k];
        }
        assert KeywordAt(pre, 0);
        assert s[7] == pre[7];
      } else {
        assert s[7] == tail[7 - |pre|];
      }
      assert s[7] != '(';
    }
  }

  /**
   * Text in which no call starts, in front of a value whose first seven
   * characters are not `(`, is kept character by character: `(` may occur in
   * it, as in `linear-gradient(to right, `, as long as it does not close a
   * `themify` keyword.
   */
  lemma {:induction false} TokenizePrefix(pre: string, tail: string)
    requires NoCallIn(pre)
    requires forall i | 0 <= i < |tail| && i < 7 :: tail[i] != '('
    ensures Tokenize(pre + tail) == seq(|pre|, i requires 0 <= i < |pre| => Lit(pre[i])) + Tokenize(tail)
    decreases |pre|
  {
    if pre == [] {
      assert pre + tail == tail;
    } else {
      var s := pre + tail;
      NoMatchAtFront(pre, tail);
      assert MatchEnd(s).None?;
      assert s[1..] == pre[1..] + tail;
      NoCallInTail(pre);
      TokenizePrefix(pre[1..], tail);
      assert seq(|pre|, i requires 0 <= i < |pre| => Lit(pre[i])) ==
        [Lit(pre[0])] + seq(|pre[1..]|, i requires 0 <= i < |pre[1..]| => Lit(pre[1..][i]));
    }
  }

  /** Text in which no call starts is all text. */
  lemma TokenizeWithoutCall(s: string)
    requires NoCallIn(s)
    ensures Tokenize(s) == seq(|s|, i requires 0 <= i < |s| => Lit(s[i]))
  {
    TokenizePrefix(s, "");
    assert s + "" == s;
  }

  // ---------------------------------------------------------------- normalize

  /** A normalised colour: the palette name and the alpha, None being `undefined`. */
  datatype Color = Color(name: Json, alpha: Option<Json>)

  /**
   * `normalize(value, variation)`, given what `JSON.parse(value)` returned
   * (None: it threw). Reading a variation of `null` throws a TypeError; of any
   * non-object it gives `undefined`.
   */
  function Normalize(parsed: Option<Json>, expr: string, v: string): Result<Color>
  {
    if parsed.None? then Err(ParseFailure(expr))
    else if parsed.value.JNull? then Err(TypeError)
    else
      var j := parsed.value;
      var cur := if j.JObj? then Get(j.entries, v) else None;
      if cur.None? || !Truthy(cur.value) then Err(OneVariation(expr))
      else if !cur.value.JArr? then Ok(Color(cur.value, Some(JNum("1"))))
      else
        var items := cur.value.items;
        if |items| == 0 || !Truthy(items[0]) then Err(EmptyColor)
        else Ok(Color(items[0], if |items| >= 2 then Some(items[1]) else None))
  }

  /**
   * The three ways `normalize` throws (the value is not JSON; it names no truthy
   * colour for the variation; its array form is empty or starts with a falsy
   * colour), the TypeError of reading from `null`, and the colour it returns: a
   * bare value becomes the pair of it and the number 1.
   */
  lemma NormalizeSpec(parsed: Option<Json>, expr: string, v: string)
    ensures Normalize(parsed, expr, v) == Err(ParseFailure(expr)) <==> parsed.None?
    ensures Normalize(parsed, expr, v) == Err(TypeError) <==> parsed == Some(JNull)
    ensures Normalize(parsed, expr, v) == Err(OneVariation(expr)) <==>
      parsed.Some? && parsed.value != JNull &&
      (!parsed.value.JObj? || Get(parsed.value.entries, v).None? || !Truthy(Get(parsed.value.entries, v).value))
    ensures Normalize(parsed, expr, v).Ok? || Normalize(parsed, expr, v) == Err(EmptyColor) ==>
      parsed.Some? && parsed.value.JObj? && Get(parsed.value.entries, v).Some? && Truthy(Get(parsed.value.entries, v).value)
    ensures Normalize(parsed, expr, v).Ok? ==> Truthy(Normalize(parsed, expr, v).value.name)
    ensures parsed.Some? && parsed.value.JObj? && Get(parsed.value.entries, v).Some? ==>
      var cur := Get(parsed.value.entries, v).value;
      && (Truthy(cur) && !cur.JArr? ==> Normalize(parsed, expr, v) == Ok(Color(cur, Some(JNum("1")))))
      && (cur.JArr? ==> (Normalize(parsed, expr, v) == Err(EmptyColor) <==> |cur.items| == 0 || !Truthy(cur.items[0])))
      && (cur.JArr? && Normalize(parsed, expr, v).Ok? ==>
            Normalize(parsed, expr, v).value.name == cur.items[0] &&
            Normalize(parsed, expr, v).value.alpha == if |cur.items| >= 2 then Some(cur.items[1]) else None)
  {
  }

  // ---------------------------------------------------------------- translateColor

  /** `ExecutionMode`. */
  datatype Mode = CssVar | CssColor | DynamicExpression

  /** `pallete[variation][name]`: a TypeError when the variation has no colour map, UnknownVariable when the colour is missing or empty. */
  function PaletteColor(palette: Palette, v: string, name: string): Result<string>
  {
    var m: Option<ColorMap> := Get(palette, v);
    if m.None? || m.value.Absent? then Err(TypeError)
    else
      var c: Option<string> := Get(m.value.colors, name);
      if c.None? || c.value == "" then Err(UnknownVariable(name)) else Ok(c.value)
  }

  /** The palette lookup fails with a TypeError exactly when the variation has no colour map, and otherwise succeeds exactly when the colour is there and not empty. */
  lemma PaletteColorSpec(palette: Palette, v: string, name: string)
    ensures PaletteColor(palette, v, name) == Err(TypeError) <==> Get(palette, v).None? || Get(palette, v).value.Absent?
    ensures PaletteColor(palette, v, name).Ok? <==>
      Get(palette, v).Some? && Get(palette, v).value.Present? &&
      Get(Get(palette, v).value.colors, name).Some? && Get(Get(palette, v).value.colors, name).value != ""
    ensures PaletteColor(palette, v, name).Ok? ==>
      Get(Get(palette, v).value.colors, name) == Some(PaletteColor(palette, v, name).value)
    ensures PaletteColor(palette, v, name).Err? && PaletteColor(palette, v, name).error != TypeError ==>
      PaletteColor(palette, v, name).error == UnknownVariable(name)
  {
  }

  /** `${alpha}`: an absent alpha prints as `undefined`. */
  function AlphaText(alpha: Option<Json>): string
  {
    if alpha.None? then "undefined" else ToJsString(alpha.value)
  }

  /** `translateColor(colorArr, variation, mode)`. */
  function TranslateColor(c: Color, v: string, mode: Mode, palette: Palette): Result<string>
  {
    var name := ToJsString(c.name);
    var hex :- PaletteColor(palette, v, name);
    var alpha := AlphaText(c.alpha);
    match mode
    case CssColor =>
      if c.alpha == Some(JStr("1")) then Ok(hex)
      else Ok("rgba(" + GetRgbaNumbers(hex) + ", " + alpha + ")")
    case DynamicExpression => Ok("%[" + v + ", " + name + ", " + alpha + "]%")
    case CssVar => Ok("rgba(var(--" + name + "), " + alpha + ")")
  }

  /** A translation fails exactly when the palette lookup of the colour's name does, with its error, whatever the mode. */
  lemma TranslateFailsAlike(c: Color, v: string, m1: Mode, m2: Mode, palette: Palette)
    ensures TranslateColor(c, v, m1, palette).Err? <==> PaletteColor(palette, v, ToJsString(c.name)).Err?
    ensures TranslateColor(c, v, m1, palette).Err? ==>
      TranslateColor(c, v, m1, palette).error == PaletteColor(palette, v, ToJsString(c.name)).error
    ensures TranslateColor(c, v, m1, palette).Err? <==> TranslateColor(c, v, m2, palette).Err?
    ensures TranslateColor(c, v, m1, palette).Err? ==>
      TranslateColor(c, v, m1, palette).error == TranslateColor(c, v, m2, palette).error
  {
  }

  /** The three modes' outputs for a colour the palette has. */
  lemma TranslateModes(c: Color, v: string, palette: Palette)
    requires PaletteColor(palette, v, ToJsString(c.name)).Ok?
    ensures TranslateColor(c, v, CssVar, palette) ==
      Ok("rgba(var(--" + ToJsString(c.name) + "), " + AlphaText(c.alpha) + ")")
    ensures TranslateColor(c, v, DynamicExpression, palette) ==
      Ok("%[" + v + ", " + ToJsString(c.name) + ", " + AlphaText(c.alpha) + "]%")
    ensures c.alpha != Some(JStr("1")) ==>
      TranslateColor(c, v, CssColor, palette) == Ok("rgba(" + Triple(PaletteColor(palette, v, ToJsString(c.name)).value) + ", " + AlphaText(c.alpha) + ")")
  {
  }

  /**
   * For a palette colour written with a leading '#', CSS_COLOR gives the colour
   * itself exactly when the alpha is the string '1'; the number 1 a bare name
   * normalises to does not count.
   */
  lemma CssColorRawIff(c: Color, v: string, palette: Palette)
    requires PaletteColor(palette, v, ToJsString(c.name)).Ok?
    requires PaletteColor(palette, v, ToJsString(c.name)).value[0] == '#'
    ensures TranslateColor(c, v, CssColor, palette).Ok?
    ensures TranslateColor(c, v, CssColor, palette).value == PaletteColor(palette, v, ToJsString(c.name)).value
        <==> c.alpha == Some(JStr("1"))
  {
    if c.alpha != Some(JStr("1")) {
      TranslateModes(c, v, palette);
      var out := "rgba(" + Triple(PaletteColor(palette, v, ToJsString(c.name)).value) + ", " + AlphaText(c.alpha) + ")";
      assert out[0] == 'r';
    }
  }

  /** With any alpha but '1' that prints as a non-empty text, CSS_COLOR is `hexToRGB` with that alpha. */
  lemma CssColorIsHexToRgb(c: Color, v: string, palette: Palette)
    requires PaletteColor(palette, v, ToJsString(c.name)).Ok?
    requires c.alpha != Some(JStr("1")) && AlphaText(c.alpha) != ""
    ensures TranslateColor(c, v, CssColor, palette) ==
      Ok(HexToRgb(PaletteColor(palette, v, ToJsString(c.name)).value, Some(AlphaText(c.alpha))))
  {
  }

  // ---------------------------------------------------------------- getThemifyValue

  /** `value.replace(/'/g, '')`. */
  function RemoveQuotes(value: string): (r: string)
    ensures forall i | 0 <= i < |r| :: r[i] != '\''
    ensures forall c | c != '\'' :: multiset(r)[c] == multiset(value)[c]
  {
    StripCounts(value, {'\''});
    Strip(value, {'\''})
  }

  /** Quote removal goes character by character: a quote is dropped, any other character is kept in place. */
  lemma RemoveQuotesPiecewise(a: string, b: string, c: char)
    ensures RemoveQuotes(a + b) == RemoveQuotes(a) + RemoveQuotes(b)
    ensures RemoveQuotes([c]) == if c == '\'' then [] else [c]
  {
    StripConcat(a, b, {'\''});
    StripChar(c, {'\''});
  }

  /** The replacement callback on one call: parse, normalise, translate. */
  function TranslateCall(arg: string, v: string, mode: Mode, env: Env): Result<string>
  {
    var color :- Normalize(env.parse(arg), arg, v);
    TranslateColor(color, v, mode, env.palette)
  }

  /** A text character stays, a call is translated. */
  function RenderPiece(p: Piece, v: string, mode: Mode, env: Env): Result<string>
  {
    match p
    case Lit(c) => Ok([c])
    case Call(_, a) => TranslateCall(a, v, mode, env)
  }

  /** The concatenation of two texts, the first failure winning. */
  function AppendResults(x: Result<string>, y: Result<string>): Result<string>
  {
    if x.Err? then x else if y.Err? then y else Ok(x.value + y.value)
  }

  lemma AppendResultsAssoc(x: Result<string>, y: Result<string>, z: Result<string>)
    ensures AppendResults(AppendResults(x, y), z) == AppendResults(x, AppendResults(y, z))
  {
    if x.Ok? && y.Ok? && z.Ok? {
      assert (x.value + y.value) + z.value == x.value + (y.value + z.value);
    }
  }

  /** The pieces with each call replaced by its translation; the leftmost failing call decides the error. */
  function Render(ps: seq<Piece>, v: string, mode: Mode, env: Env): Result<string>
  {
    if ps == [] then Ok("")
    else AppendResults(RenderPiece(ps[0], v, mode, env), Render(ps[1..], v, mode, env))
  }

  /** Rendering is piecewise: each call is replaced on its own, and text is kept. */
  lemma {:induction false} RenderConcat(a: seq<Piece>, b: seq<Piece>, v: string, mode: Mode, env: Env)
    ensures Render(a + b, v, mode, env) == AppendResults(Render(a, v, mode, env), Render(b, v, mode, env))
  {
    if a == [] {
      assert a + b == b;
      var rb := Render(b, v, mode, env);
      if rb.Ok? {
        assert "" + rb.value == rb.value;
      }
    } else {
      assert (a + b)[0] == a[0];
      assert (a + b)[1..] == a[1..] + b;
      RenderConcat(a[1..], b, v, mode, env);
      AppendResultsAssoc(RenderPiece(a[0], v, mode, env), Render(a[1..], v, mode, env), Render(b, v, mode, env));
    }
  }

  /** Text alone renders as itself. */
  lemma {:induction false} RenderText(s: string, v: string, mode: Mode, env: Env)
    ensures Render(seq(|s|, i requires 0 <= i < |s| => Lit(s[i])), v, mode, env) == Ok(s)
  {
    if s != [] {
      var ps := seq(|s|, i requires 0 <= i < |s| => Lit(s[i]));
      assert ps[1..] == seq(|s[1..]|, i requires 0 <= i < |s[1..]| => Lit(s[1..][i]));
      RenderText(s[1..], v, mode, env);
      assert [s[0]] + s[1..] == s;
    }
  }

  /** One variation of `getThemifyValue`: quotes removed, then every call replaced. */
  function ApplyVariation(value: string, v: string, mode: Mode, env: Env): Result<string>
  {
    Render(Tokenize(RemoveQuotes(value)), v, mode, env)
  }

  /** A value without an opening parenthesis comes out unchanged but for its quotes, in every variation and mode. */
  lemma NoCallKeepsText(value: string, v: string, mode: Mode, env: Env)
    requires forall i | 0 <= i < |value| :: value[i] != '('
    ensures ApplyVariation(value, v, mode, env) == Ok(RemoveQuotes(value))
  {
    var s := RemoveQuotes(value);
    assert forall i | 0 <= i < |s| :: s[i] != '(' by {
      forall i | 0 <= i < |s| ensures s[i] != '(' {
        assert s[i] in value;
      }
    }
    TokenizeWithoutParen(s);
    RenderText(s, v, mode, env);
  }

  /** Characters of the keyword in any case are letters, never `(`. */
  lemma KeywordHasNoParen(k: string)
    requires IsKeyword(k)
    ensures forall i | 0 <= i < |k| && i < 7 :: k[i] != '('
  {
    forall i | 0 <= i < |k| && i < 7 ensures k[i] != '(' {
      assert LowerAscii(k[i]) == Keyword[i];
      assert Keyword[i] in "themify";
    }
  }

  /** The pieces of a value whose first call follows text in which no call starts. */
  lemma TokenizeFirstCall(pre: string, k: string, arg: string, rest: string)
    requires NoCallIn(pre)
    requires IsKeyword(k)
    requires |arg| >= 1 && forall i | 0 <= i < |arg| :: arg[i] != ')'
    ensures Tokenize(pre + k + "(" + arg + ")" + rest) ==
      seq(|pre|, i requires 0 <= i < |pre| => Lit(pre[i])) + ([Call(k, arg)] + Tokenize(rest))
  {
    var t := k + "(" + arg + ")" + rest;
    assert pre + k + "(" + arg + ")" + rest == pre + t;
    KeywordHasNoParen(k);
    assert forall i | 0 <= i < |t| && i < 7 :: t[i] == k[i];
    TokenizePrefix(pre, t);
    TokenizeCall(k, arg, rest);
  }

  /** Rendering text, then a call, then more pieces. */
  lemma RenderFirstCall(pre: string, k: string, arg: string, ps: seq<Piece>, v: string, mode: Mode, env: Env)
    ensures Render(seq(|pre|, i requires 0 <= i < |pre| => Lit(pre[i])) + ([Call(k, arg)] + ps), v, mode, env) ==
      AppendResults(Ok(pre), AppendResults(TranslateCall(arg, v, mode, env), Render(ps, v, mode, env)))
  {
    var lits := seq(|pre|, i requires 0 <= i < |pre| => Lit(pre[i]));
    RenderConcat(lits, [Call(k, arg)] + ps, v, mode, env);
    RenderText(pre, v, mode, env);
    assert ([Call(k, arg)] + ps)[1..] == ps;
  }

  /**
   * The first call of a value is replaced by its translation, with the text in
   * front of it kept and the rest of the value rendered on its own.
   */
  lemma ApplyCall(value: string, pre: string, k: string, arg: string, rest: string, v: string, mode: Mode, env: Env)
    requires RemoveQuotes(value) == pre + k + "(" + arg + ")" + rest
    requires NoCallIn(pre)
    requires IsKeyword(k)
    requires |arg| >= 1 && forall i | 0 <= i < |arg| :: arg[i] != ')'
    ensures ApplyVariation(value, v, mode, env) ==
      AppendResults(Ok(pre), AppendResults(TranslateCall(arg, v, mode, env), Render(Tokenize(rest), v, mode, env)))
  {
    TokenizeFirstCall(pre, k, arg, rest);
    RenderFirstCall(pre, k, arg, Tokenize(rest), v, mode, env);
  }

  /** A value with one call, no other call starting before or after it: the call's translation between the text around it. */
  lemma ApplySingleCall(value: string, pre: string, k: string, arg: string, rest: string, v: string, mode: Mode, env: Env)
    requires RemoveQuotes(value) == pre + k + "(" + arg + ")" + rest
    requires NoCallIn(pre)
    requires NoCallIn(rest)
    requires IsKeyword(k)
    requires |arg| >= 1 && forall i | 0 <= i < |arg| :: arg[i] != ')'
    ensures TranslateCall(arg, v, mode, env).Err? ==>
      ApplyVariation(value, v, mode, env) == TranslateCall(arg, v, mode, env)
    ensures TranslateCall(arg, v, mode, env).Ok? ==>
      ApplyVariation(value, v, mode, env) == Ok(pre + TranslateCall(arg, v, mode, env).value + rest)
  {
    ApplyCall(value, pre, k, arg, rest, v, mode, env);
    RenderWithoutCall(rest, v, mode, env);
    var t := TranslateCall(arg, v, mode, env);
    if t.Ok? {
      assert pre + (t.value + rest) == pre + t.value + rest;
    }
  }

  /** The text in front of the first call of `linear-gradient(to right, themify(…), themify(…))`. */
  const GradientHead: string := "linear-gradient(to right, "

  /** Its only `(` closes `linear-gradient`, so no call starts in it. */
  lemma GradientHeadHasNoCall()
    ensures NoCallIn(GradientHead)
  {
    forall i | 0 <= i && i + 8 <= |GradientHead| ensures !(KeywordAt(GradientHead, i) && GradientHead[i + 7] == '(') {
      if GradientHead[i + 7] == '(' {
        assert i == 8;
        assert LowerAscii(GradientHead[8]) != Keyword[0];
      }
    }
  }

  /** Two calls, with text in which no call starts before, between and after them. */
  lemma TokenizeTwoCalls(pre: string, k1: string, a1: string, mid: string, k2: string, a2: string, post: string)
    requires NoCallIn(pre) && NoCallIn(mid) && NoCallIn(post)
    requires IsKeyword(k1) && IsKeyword(k2)
    requires |a1| >= 1 && forall i | 0 <= i < |a1| :: a1[i] != ')'
    requires |a2| >= 1 && forall i | 0 <= i < |a2| :: a2[i] != ')'
    ensures Tokenize(pre + k1 + "(" + a1 + ")" + (mid + k2 + "(" + a2 + ")" + post)) ==
      seq(|pre|, i requires 0 <= i < |pre| => Lit(pre[i])) + ([Call(k1, a1)] +
      (seq(|mid|, i requires 0 <= i < |mid| => Lit(mid[i])) + ([Call(k2, a2)] +
      seq(|post|, i requires 0 <= i < |post| => Lit(post[i])))))
  {
    TokenizeFirstCall(pre, k1, a1, mid + k2 + "(" + a2 + ")" + post);
    TokenizeFirstCall(mid, k2, a2, post);
    TokenizeWithoutCall(post);
  }

  /** Rendering text, a call, text, a call and text. */
  lemma RenderTwoCalls(pre: string, k1: string, a1: string, mid: string, k2: string, a2: string, post: string,
                       v: string, mode: Mode, env: Env)
    ensures Render(seq(|pre|, i requires 0 <= i < |pre| => Lit(pre[i])) + ([Call(k1, a1)] +
      (seq(|mid|, i requires 0 <= i < |mid| => Lit(mid[i])) + ([Call(k2, a2)] +
      seq(|post|, i requires 0 <= i < |post| => Lit(post[i]))))), v, mode, env) ==
      AppendResults(Ok(pre), AppendResults(TranslateCall(a1, v, mode, env),
        AppendResults(Ok(mid), AppendResults(TranslateCall(a2, v, mode, env), Ok(post)))))
  {
    var lpost := seq(|post|, i requires 0 <= i < |post| => Lit(post[i]));
    var tail := seq(|mid|, i requires 0 <= i < |mid| => Lit(mid[i])) + ([Call(k2, a2)] + lpost);
    RenderFirstCall(pre, k1, a1, tail, v, mode, env);
    RenderFirstCall(mid, k2, a2, lpost, v, mode, env);
    RenderText(post, v, mode, env);
  }

  /** Text, a result, text, a result and text: the first failure, or the five texts joined. */
  lemma AppendFive(pre: string, t1: Result<string>, mid: string, t2: Result<string>, post: string)
    ensures t1.Err? ==> AppendResults(Ok(pre), AppendResults(t1, AppendResults(Ok(mid), AppendResults(t2, Ok(post))))) == t1
    ensures t1.Ok? && t2.Err? ==>
      AppendResults(Ok(pre), AppendResults(t1, AppendResults(Ok(mid), AppendResults(t2, Ok(post))))) == t2
    ensures t1.Ok? && t2.Ok? ==>
      AppendResults(Ok(pre), AppendResults(t1, AppendResults(Ok(mid), AppendResults(t2, Ok(post))))) ==
        Ok(pre + t1.value + mid + t2.value + post)
  {
    if t1.Ok? && t2.Ok? {
      assert pre + (t1.value + (mid + (t2.value + post))) == pre + t1.value + mid + t2.value + post;
    }
  }

  /** Both calls are replaced by their translations and the text around them is kept, the first failure winning. */
  lemma ApplyTwoCalls(value: string, pre: string, k1: string, a1: string, mid: string, k2: string, a2: string, post: string,
                      v: string, mode: Mode, env: Env)
    requires RemoveQuotes(value) == pre + k1 + "(" + a1 + ")" + (mid + k2 + "(" + a2 + ")" + post)
    requires NoCallIn(pre) && NoCallIn(mid) && NoCallIn(post)
    requires IsKeyword(k1) && IsKeyword(k2)
    requires |a1| >= 1 && forall i | 0 <= i < |a1| :: a1[i] != ')'
    requires |a2| >= 1 && forall i | 0 <= i < |a2| :: a2[i] != ')'
    ensures TranslateCall(a1, v, mode, env).Err? ==>
      ApplyVariation(value, v, mode, env) == TranslateCall(a1, v, mode, env)
    ensures TranslateCall(a1, v, mode, env).Ok? && TranslateCall(a2, v, mode, env).Err? ==>
      ApplyVariation(value, v, mode, env) == TranslateCall(a2, v, mode, env)
    ensures TranslateCall(a1, v, mode, env).Ok? && TranslateCall(a2, v, mode, env).Ok? ==>
      ApplyVariation(value, v, mode, env) ==
        Ok(pre + TranslateCall(a1, v, mode, env).value + mid + TranslateCall(a2, v, mode, env).value + post)
  {
    TokenizeTwoCalls(pre, k1, a1, mid, k2, a2, post);
    RenderTwoCalls(pre, k1, a1, mid, k2, a2, post, v, mode, env);
    AppendFive(pre, TranslateCall(a1, v, mode, env), mid, TranslateCall(a2, v, mode, env), post);
  }

  /**
   * Both calls of `linear-gradient(to right, themify(…), themify(…))`, nested
   * in the gradient's parentheses, are replaced by their translations.
   */
  lemma ApplyGradient(value: string, k1: string, a1: string, k2: string, a2: string, v: string, mode: Mode, env: Env)
    requires RemoveQuotes(value) == GradientHead + k1 + "(" + a1 + ")" + (", " + k2 + "(" + a2 + ")" + ")")
    requires IsKeyword(k1) && IsKeyword(k2)
    requires |a1| >= 1 && forall i | 0 <= i < |a1| :: a1[i] != ')'
    requires |a2| >= 1 && forall i | 0 <= i < |a2| :: a2[i] != ')'
    ensures TranslateCall(a1, v, mode, env).Ok? && TranslateCall(a2, v, mode, env).Ok? ==>
      ApplyVariation(value, v, mode, env) ==
        Ok(GradientHead + TranslateCall(a1, v, mode, env).value + ", " + TranslateCall(a2, v, mode, env).value + ")")
  {
    GradientHeadHasNoCall();
    ParenFreeHasNoCall(", ");
    ParenFreeHasNoCall(")");
    ApplyTwoCalls(value, GradientHead, k1, a1, ", ", k2, a2, ")", v, mode, env);
  }

  /** Text in which no call starts renders as itself. */
  lemma RenderWithoutCall(s: string, v: string, mode: Mode, env: Env)
    requires NoCallIn(s)
    ensures Render(Tokenize(s), v, mode, env) == Ok(s)
  {
    TokenizeWithoutCall(s);
    RenderText(s, v, mode, env);
  }

  lemma RenderWithoutParen(s: string, v: string, mode: Mode, env: Env)
    requires forall i | 0 <= i < |s| :: s[i] != '('
    ensures Render(Tokenize(s), v, mode, env) == Ok(s)
  {
    TokenizeWithoutParen(s);
    RenderText(s, v, mode, env);
  }

  /** The map from each variation of `vs` to what `apply` gives for it; the first variation that fails decides the error. */
  function MapVariations(apply: string -> Result<string>, vs: seq<string>): (r: Result<map<string, string>>)
    ensures r.Ok? ==> r.value.Keys == set v | v in vs
  {
    if vs == [] then Ok(map[])
    else
      var first :- apply(vs[0]);
      var rest :- MapVariations(apply, vs[1..]);
      assert forall v | v in vs :: v == vs[0] || v in vs[1..];
      Ok(rest[vs[0] := first])
  }

  /**
   * The variation map succeeds exactly when every variation does, and then
   * maps each variation to its value; otherwise it fails with the error of the
   * first variation that fails.
   */
  lemma {:induction false} MapVariationsSpec(apply: string -> Result<string>, vs: seq<string>)
    ensures MapVariations(apply, vs).Ok? <==> forall i | 0 <= i < |vs| :: apply(vs[i]).Ok?
    ensures MapVariations(apply, vs).Ok? ==> forall v | v in vs :: apply(v) == Ok(MapVariations(apply, vs).value[v])
    ensures MapVariations(apply, vs).Err? ==> exists i | 0 <= i < |vs| ::
      apply(vs[i]) == Err(MapVariations(apply, vs).error) && forall k | 0 <= k < i :: apply(vs[k]).Ok?
  {
    if vs != [] {
      MapVariationsSpec(apply, vs[1..]);
      var r := MapVariations(apply, vs);
      var rest := MapVariations(apply, vs[1..]);
      if apply(vs[0]).Ok? && rest.Err? {
        var i :| 0 <= i < |vs[1..]| && apply(vs[1..][i]) == Err(rest.error) && forall k | 0 <= k < i :: apply(vs[1..][k]).Ok?;
        assert apply(vs[i + 1]) == Err(r.error);
        forall k | 0 <= k < i + 1 ensures apply(vs[k]).Ok? {
          if k > 0 { assert vs[k] == vs[1..][k - 1]; }
        }
      }
      if r.Ok? {
        forall v | v in vs ensures apply(v) == Ok(r.value[v]) {
          if v != vs[0] { assert v in vs[1..]; }
        }
        forall i | 0 <= i < |vs| ensures apply(vs[i]).Ok? {
          if i > 0 { assert vs[i] == vs[1..][i - 1]; }
        }
      }
      if forall i | 0 <= i < |vs| :: apply(vs[i]).Ok? {
        forall i | 0 <= i < |vs[1..]| ensures apply(vs[1..][i]).Ok? {
          assert vs[1..][i] == vs[i + 1];
        }
      }
    }
  }

  /** A variation map holding both variations. */
  type Variants = m: map<string, string> | Dark in m && Light in m witness map[Dark := "", Light := ""]

  /** `getThemifyValue(value, mode)`: the value rendered for every variation, dark first. */
  function ThemifyValue(value: string, mode: Mode, env: Env): Result<Variants>
  {
    var m :- MapVariations(v => ApplyVariation(value, v, mode, env), Variations);
    assert Dark in Variations && Light in Variations;
    Ok(m)
  }

  /** getThemifyValue fails when a variation does, dark before light, and otherwise holds each variation's rendering. */
  lemma ThemifyValueSpec(value: string, mode: Mode, env: Env)
    ensures ThemifyValue(value, mode, env).Ok? <==>
      ApplyVariation(value, Dark, mode, env).Ok? && ApplyVariation(value, Light, mode, env).Ok?
    ensures ThemifyValue(value, mode, env).Ok? ==>
      ThemifyValue(value, mode, env).value ==
        map[Dark := ApplyVariation(value, Dark, mode, env).value, Light := ApplyVariation(value, Light, mode, env).value]
    ensures ThemifyValue(value, mode, env).Err? ==>
      ThemifyValue(value, mode, env).error ==
        if ApplyVariation(value, Dark, mode, env).Err? then ApplyVariation(value, Dark, mode, env).error
        else ApplyVariation(value, Light, mode, env).error
  {
    var apply := v => ApplyVariation(value, v, mode, env);
    MapVariationsSpec(apply, Variations);
    assert Variations[0] == Dark && Variations[1] == Light;
    var r := MapVariations(apply, Variations);
    if r.Ok? {
      assert r.value.Keys == {Dark, Light};
    }
  }

  /**
   * What the two walks need of `getThemifyValue`: the variation maps it gives
   * for a value in a mode, and the class prefix.
   */
  datatype Evaluator = Evaluator(values: (string, Mode) -> Result<Variants>, prefix: string)

  function EvaluatorOf(env: Env): (ev: Evaluator)
    ensures ev.prefix == env.classPrefix
    ensures forall s, m :: ev.values(s, m) == ThemifyValue(s, m, env)
  {
    Evaluator((s, m) => ThemifyValue(s, m, env), env.classPrefix)
  }

  /** When every call names the same colour and alpha for dark and light, the CSS_VAR values of both variations agree. */
  lemma {:induction false} SameColorsSameCssVar(ps: seq<Piece>, env: Env)
    requires forall p | p in ps && p.Call? ::
      Normalize(env.parse(p.arg), p.arg, Dark) == Normalize(env.parse(p.arg), p.arg, Light)
    requires Render(ps, Dark, CssVar, env).Ok? && Render(ps, Light, CssVar, env).Ok?
    ensures Render(ps, Dark, CssVar, env) == Render(ps, Light, CssVar, env)
  {
    if ps != [] {
      assert forall p | p in ps[1..] :: p in ps;
      SameColorsSameCssVar(ps[1..], env);
    }
  }

  // ---------------------------------------------------------------- rules and selectors

  datatype Decl = Decl(prop: string, value: string)

  /** A rule as a list of selectors and its declarations, in order. */
  datatype Rule = Rule(selectors: seq<string>, decls: seq<Decl>)

  /** `hasThemify`: the value contains `themify` (case-sensitive, unlike the macro pattern). */
  predicate HasThemify(value: string)
  {
    Contains(value, Keyword)
  }

  /** `.` + prefix + variation, the class a theme is switched on by. */
  function VariationClass(prefix: string, v: string): string
  {
    "." + prefix + v
  }

  /** Each selector behind the variation's class. */
  function PrefixSelectors(selectors: seq<string>, prefix: string, v: string): (r: seq<string>)
    ensures |r| == |selectors|
    ensures forall i | 0 <= i < |r| :: r[i] == VariationClass(prefix, v) + " " + selectors[i]
  {
    if selectors == [] then []
    else [VariationClass(prefix, v) + " " + selectors[0]] + PrefixSelectors(selectors[1..], prefix, v)
  }

  /** `getSelectorName(rule, variation)`: the prefixed selectors joined with ','. */
  function SelectorName(rule: Rule, prefix: string, v: string): string
  {
    Join(PrefixSelectors(rule.selectors, prefix, v), ",")
  }

  /** When no selector, prefix or variation has a comma, the selector name splits back into the prefixed selectors. */
  lemma SelectorNameSplits(rule: Rule, prefix: string, v: string)
    requires |rule.selectors| >= 1
    requires forall k | 0 <= k < |rule.selectors| :: Lacks(rule.selectors[k], ',')
    requires Lacks(prefix, ',') && Lacks(v, ',')
    ensures Split(SelectorName(rule, prefix, v), ',') == PrefixSelectors(rule.selectors, prefix, v)
  {
    var ps := PrefixSelectors(rule.selectors, prefix, v);
    var c := VariationClass(prefix, v);
    LacksConcat(".", prefix, ',');
    LacksConcat("." + prefix, v, ',');
    LacksConcat(c, " ", ',');
    forall k | 0 <= k < |ps| ensures Lacks(ps[k], ',') {
      assert Lacks(rule.selectors[k], ',');
      LacksConcat(c + " ", rule.selectors[k], ',');
    }
    SplitJoin(ps, ',');
  }

  /** `createRuleWithVariation`: an empty rule whose selectors are the rule's, behind the variation's class. */
  function CreateRuleWithVariation(rule: Rule, prefix: string, v: string): (r: Rule)
    ensures r.decls == [] && |r.selectors| == |rule.selectors|
    ensures forall i | 0 <= i < |r.selectors| :: r.selectors[i] == VariationClass(prefix, v) + " " + rule.selectors[i]
  {
    Rule(PrefixSelectors(rule.selectors, prefix, v), [])
  }

  /** `cloneEmptyRule`: the same selectors, no declarations. */
  function CloneEmptyRule(rule: Rule): (r: Rule)
    ensures r.selectors == rule.selectors && r.decls == []
  {
    Rule(rule.selectors, [])
  }
}
