/**
 * The build and the browser agree: a colour the build writes as a
 * DYNAMIC_EXPRESSION token (`%[variation, name, alpha]%`) is turned back by
 * the browser's `handleUnSupportedBrowsers` into the colour CSS_COLOR would
 * have written at build time, unless a custom theme overrides it.
 */
module RoundTrip {
  import opened Base
  import opened Strings
  import opened Js
  import opened Colors
  import opened Macro
  import opened Runtime
  import Vars

  /**
   * The browser's override block for a variation lands on the block the build
   * declared that variation's variables in exactly when the variation is the
   * default one or the build used no class prefix.
   */
  lemma OverrideSelectorMatchesBuild(v: string, prefix: string)
    ensures ThemeSelector(v) == Vars.VarsSelector(v, prefix) <==> v == Light || prefix == ""
  {
    if v != Light && prefix != "" {
      assert |ThemeSelector(v)| < |Vars.VarsSelector(v, prefix)|;
    }
  }

  /** A variation's colours as object entries: names to colour strings. */
  function ColorsJson(cs: seq<(string, string)>): (r: seq<(string, Json)>)
    ensures |r| == |cs|
  {
    if cs == [] then [] else [(cs[0].0, JStr(cs[0].1))] + ColorsJson(cs[1..])
  }

  /** One colour map as the JavaScript value it is; a missing map reads as `null`. */
  function ColorMapJson(m: ColorMap): Json
  {
    match m
    case Absent => JNull
    case Present(cs) => JObj(ColorsJson(cs))
  }

  /** The palette's variations as object entries. */
  function PaletteEntries(p: Palette): (r: seq<(string, Json)>)
    ensures |r| == |p|
  {
    if p == [] then [] else [(p[0].0, ColorMapJson(p[0].1))] + PaletteEntries(p[1..])
  }

  /** The palette as the JavaScript object the page holds. */
  function PaletteJson(p: Palette): Json
  {
    JObj(PaletteEntries(p))
  }

  /** The palette's object holds each variation's colour map under the variation's name. */
  lemma {:induction false} PaletteJsonGet(palette: Palette, v: string)
    ensures Get(PaletteEntries(palette), v) == if Get(palette, v).None? then None else Some(ColorMapJson(Get(palette, v).value))
  {
    if palette != [] {
      assert PaletteEntries(palette)[1..] == PaletteEntries(palette[1..]);
      PaletteJsonGet(palette[1..], v);
    }
  }

  /** A colour map's object holds each colour as a string under the colour's name. */
  lemma {:induction false} ColorMapJsonGet(cs: seq<(string, string)>, name: string)
    ensures Get(ColorsJson(cs), name) == if Get(cs, name).None? then None else Some(JStr(Get(cs, name).value))
  {
    if cs != [] {
      assert ColorsJson(cs)[1..] == ColorsJson(cs[1..]);
      ColorMapJsonGet(cs[1..], name);
    }
  }

  /** A colour of the palette is found in the palette's object under the same variation and name. */
  lemma PaletteJsonColor(palette: Palette, v: string, name: string)
    requires PaletteColor(palette, v, name).Ok?
    ensures Get(PaletteJson(palette).entries, v).Some?
    ensures Get(PaletteJson(palette).entries, v).value.JObj?
    ensures Get(Get(PaletteJson(palette).entries, v).value.entries, name) == Some(JStr(PaletteColor(palette, v, name).value))
  {
    PaletteJsonGet(palette, v);
    ColorMapJsonGet(Get(palette, v).value.colors, name);
  }

  /** Text the build writes into a token field that the browser reads back as it is. */
  predicate Clean(f: string)
  {
    Plain(f) && forall i | 0 <= i < |f| :: f[i] != ']'
  }

  /** The body of a token `%[v, name, alpha]%` has no `]` and no line terminator. */
  lemma TokenBodyClean(v: string, name: string, a: string)
    requires Clean(v) && Clean(name) && Clean(a)
    ensures forall i | 0 <= i < |v + ", " + name + ", " + a| ::
      (v + ", " + name + ", " + a)[i] != ']' && (v + ", " + name + ", " + a)[i] !in LineTerminators
  {
    var body := v + ", " + name + ", " + a;
    forall i | 0 <= i < |body| ensures body[i] != ']' && body[i] !in LineTerminators {
      if i < |v| {
        assert body[i] == v[i];
      } else if i < |v| + 2 {
        assert body[i] == ", "[i - |v|];
      } else if i < |v| + 2 + |name| {
        assert body[i] == name[i - |v| - 2];
      } else if i < |v| + 4 + |name| {
        assert body[i] == ", "[i - |v| - 2 - |name|];
      } else {
        assert body[i] == a[i - |v| - 4 - |name|];
      }
    }
  }

  /** A single token renders as its decoding. */
  lemma RenderOneToken(body: string, decode: string -> Result<string>)
    ensures RenderChunks([Token(body)], decode) == decode(body)
  {
    assert [Token(body)][1..] == [];
    var d := decode(body);
    if d.Ok? {
      assert d.value + "" == d.value;
    }
  }

  /** A text that is one token and nothing else is replaced by the token's decoding. */
  lemma TokenAlone(body: string, merged: Json)
    requires forall i | 0 <= i < |body| :: body[i] != ']' && body[i] !in LineTerminators
    ensures Substitute("%[" + body + "]%", merged) == DecodeToken(body, merged)
  {
    TokenChunk(body, "");
    assert "%[" + body + "]%" + "" == "%[" + body + "]%";
    assert [Token(body)] + Chunks("") == [Token(body)];
    RenderOneToken(body, Decoder(merged));
  }

  /** The token of three clean fields is replaced by the decoding of its body. */
  lemma CleanTokenAlone(v: string, name: string, a: string, merged: Json)
    requires Clean(v) && Clean(name) && Clean(a)
    ensures Substitute("%[" + (v + ", " + name + ", " + a) + "]%", merged) == DecodeToken(v + ", " + name + ", " + a, merged)
  {
    TokenBodyClean(v, name, a);
    TokenAlone(v + ", " + name + ", " + a, merged);
  }

  lemma TokenText(v: string, name: string, a: string)
    ensures "%[" + (v + ", " + name + ", " + a) + "]%" == "%[" + v + ", " + name + ", " + a + "]%"
  {
  }

  /** A token of fields that read back as they are is decoded from those fields. */
  lemma TokenDecodes(v: string, name: string, a: string, merged: Json)
    requires Clean(v) && Clean(name) && Clean(a)
    ensures Substitute("%[" + v + ", " + name + ", " + a + "]%", merged) == DecodeFields(Fields(v, name, Some(a)), merged)
  {
    CleanTokenAlone(v, name, a, merged);
    TokenText(v, name, a);
    TokenFieldsOf(v, name, a);
  }

  /**
   * The callback finds the colour under the variation and the name, and decodes
   * it when it is a string or an array; any other colour has no `slice` and throws.
   */
  lemma DecodeFieldsFound(merged: Json, v: string, name: string, a: string, color: Json)
    requires merged.JObj? && Get(merged.entries, v).Some? && Get(merged.entries, v).value.JObj?
    requires Get(Get(merged.entries, v).value.entries, name) == Some(color)
    ensures DecodeFields(Fields(v, name, Some(a)), merged) ==
      if color.JStr? then Ok(HexToRgb(color.s, Some(a)))
      else if color.JArr? then Ok(ArrayToRgb(color.items, Some(a)))
      else Err(TypeError)
  {
    var colors := Get(merged.entries, v);
    assert Prop(Some(merged), v) == Ok(colors);
    assert Prop(colors, name) == Ok(Some(color));
  }

  /**
   * The round trip: for an alpha other than the string '1', the DYNAMIC_EXPRESSION
   * token of a colour, substituted in the browser against the build's palette,
   * is exactly the CSS_COLOR output of that colour. The fields must read back
   * as they were written: no white space, comma or `]` in them, and an alpha
   * that prints as a non-empty text.
   */
  lemma DynamicDecodesToCssColor(c: Color, v: string, palette: Palette)
    requires PaletteColor(palette, v, ToJsString(c.name)).Ok?
    requires c.alpha != Some(JStr("1")) && AlphaText(c.alpha) != ""
    requires Clean(v) && Clean(ToJsString(c.name)) && Clean(AlphaText(c.alpha))
    ensures TranslateColor(c, v, DynamicExpression, palette).Ok?
    ensures Substitute(TranslateColor(c, v, DynamicExpression, palette).value, PaletteJson(palette)) ==
      TranslateColor(c, v, CssColor, palette)
  {
    var name, a := ToJsString(c.name), AlphaText(c.alpha);
    TranslateModes(c, v, palette);
    CssColorIsHexToRgb(c, v, palette);
    PaletteJsonColor(palette, v, name);
    TokenDecodes(v, name, a, PaletteJson(palette));
    DecodeFieldsFound(PaletteJson(palette), v, name, a, JStr(PaletteColor(palette, v, name).value));
  }

  /** The custom theme's own colour for a variation and name, if it has one. */
  function ThemeColor(custom: seq<(string, Json)>, v: string, name: string): Option<Json>
  {
    var cv := Get(custom, v);
    if cv.Some? && cv.value.JObj? then Get(cv.value.entries, name) else None
  }

  /** In the palette with the custom theme merged in, a colour is the theme's own or else the palette's. */
  lemma MergedPaletteColor(palette: Palette, custom: seq<(string, Json)>, v: string, name: string)
    requires PaletteColor(palette, v, name).Ok? && ThemeShaped(custom)
    ensures var merged := Merge(PaletteJson(palette), JObj(custom));
      && merged.JObj?
      && Get(merged.entries, v).Some? && Get(merged.entries, v).value.JObj?
      && Get(Get(merged.entries, v).value.entries, name) ==
           if ThemeColor(custom, v, name).Some? then ThemeColor(custom, v, name)
           else Some(JStr(PaletteColor(palette, v, name).value))
  {
    var base := PaletteJson(palette);
    var merged := Merge(base, JObj(custom));
    PaletteJsonColor(palette, v, name);
    MergedColor(base, custom, v, name);
    var pv, cv := Get(base.entries, v), Get(custom, v);
    var hex := Some(JStr(PaletteColor(palette, v, name).value));
    assert Get(pv.value.entries, name) == hex;
    if cv.Some? {
      var i :| 0 <= i < |custom| && custom[i] == (v, cv.value);
      assert cv.value.JObj?;
      assert IsObject(pv.value) && Truthy(pv.value);
      var own := Get(cv.value.entries, name);
      assert ThemeColor(custom, v, name) == own;
      assert Get(Get(merged.entries, v).value.entries, name) == if own.Some? then own else hex;
    } else {
      assert ThemeColor(custom, v, name) == None;
      assert Get(merged.entries, v) == pv;
    }
  }

  /**
   * With a custom theme merged into the palette: the token takes the custom
   * theme's colour when the theme has one for that variation and name (an
   * array colour prints its channels from the array's slices, and a colour that
   * is neither a string nor an array throws), and otherwise the build's colour,
   * so that it matches CSS_COLOR again.
   */
  lemma DynamicDecodesWithTheme(c: Color, v: string, palette: Palette, custom: seq<(string, Json)>)
    requires PaletteColor(palette, v, ToJsString(c.name)).Ok?
    requires c.alpha != Some(JStr("1")) && AlphaText(c.alpha) != ""
    requires Clean(v) && Clean(ToJsString(c.name)) && Clean(AlphaText(c.alpha))
    requires ThemeShaped(custom)
    ensures TranslateColor(c, v, DynamicExpression, palette).Ok?
    ensures var merged := Merge(PaletteJson(palette), JObj(custom));
      var token := TranslateColor(c, v, DynamicExpression, palette).value;
      var own := ThemeColor(custom, v, ToJsString(c.name));
      && (own.None? ==> Substitute(token, merged) == TranslateColor(c, v, CssColor, palette))
      && (own.Some? && own.value.JStr? ==> Substitute(token, merged) == Ok(HexToRgb(own.value.s, Some(AlphaText(c.alpha)))))
      && (own.Some? && own.value.JArr? ==> Substitute(token, merged) == Ok(ArrayToRgb(own.value.items, Some(AlphaText(c.alpha)))))
      && (own.Some? && !own.value.JStr? && !own.value.JArr? ==> Substitute(token, merged) == Err(TypeError))
  {
    var name, a := ToJsString(c.name), AlphaText(c.alpha);
    TranslateModes(c, v, palette);
    CssColorIsHexToRgb(c, v, palette);
    var merged := Merge(PaletteJson(palette), JObj(custom));
    MergedPaletteColor(palette, custom, v, name);
    TokenDecodes(v, name, a, merged);
    var own := ThemeColor(custom, v, name);
    var color := if own.Some? then own.value else JStr(PaletteColor(palette, v, name).value);
    DecodeFieldsFound(merged, v, name, a, color);
  }
}
