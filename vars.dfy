/**
 * `generateVars` of src/themify.ts (the `init` plugin): one block of CSS
 * custom properties per palette variation, each colour given as its three
 * decimal channels, followed by the palette as a Sass map.
 */
module Vars {
  import opened Base
  import opened Strings
  import opened Colors
  import opened Macro

  /** `:root` for the light variation, the variation's class otherwise. */
  function VarsSelector(v: string, prefix: string): (r: string)
    ensures v == Light ==> r == ":root"
    ensures v != Light ==> r == VariationClass(prefix, v)
  {
    if v == Light then ":root" else "." + prefix + v
  }

  /**
   * A non-default variation's rules sit behind the selector of that
   * variation's variables block, so they see its custom properties.
   */
  lemma VariantRulesUnderVarsBlock(rule: Rule, prefix: string, v: string)
    requires v != Light
    ensures forall i | 0 <= i < |rule.selectors| ::
      PrefixSelectors(rule.selectors, prefix, v)[i] == VarsSelector(v, prefix) + " " + rule.selectors[i]
    ensures forall i | 0 <= i < |rule.selectors| ::
      CreateRuleWithVariation(rule, prefix, v).selectors[i] == VarsSelector(v, prefix) + " " + rule.selectors[i]
  {
  }

  /**
   * `--name: r, g, b;` for one colour, `numbers` giving the channels of a hex
   * colour (the walk uses GetRgbaNumbers; it is a parameter so that reasoning
   * about the layout does not unfold the decoder).
   */
  function VarDecl(name: string, hex: string, numbers: string -> string): string
  {
    "--" + name + ": " + numbers(hex) + ";"
  }

  /** The custom properties of one variation's colours, in key order. */
  function VarDecls(colors: seq<(string, string)>, numbers: string -> string): (r: seq<string>)
    ensures |r| == |colors|
    ensures forall i | 0 <= i < |colors| :: r[i] == VarDecl(colors[i].0, colors[i].1, numbers)
  {
    seq(|colors|, i requires 0 <= i < |colors| => VarDecl(colors[i].0, colors[i].1, numbers))
  }

  /** `${selector} {${vars}}` with the properties joined by a space. */
  function VarsBlock(v: string, prefix: string, colors: seq<(string, string)>, numbers: string -> string): string
  {
    VarsSelector(v, prefix) + " {" + Join(VarDecls(colors, numbers), " ") + "}"
  }

  /** The block one palette entry adds to `cssOutput`, with the space before it. */
  function SpacedBlock(v: string, prefix: string, colors: seq<(string, string)>, numbers: string -> string): string
  {
    " " + VarsBlock(v, prefix, colors, numbers)
  }

  /** What a palette entry adds to `cssOutput`, as the fold takes it. */
  function EntryBlock(prefix: string, numbers: string -> string): (string, seq<(string, string)>) -> string
  {
    (v, colors) => SpacedBlock(v, prefix, colors, numbers)
  }

  /**
   * `cssOutput` after the first `n` palette entries; a missing colour map
   * throws. `block` gives what an entry adds (generateVars uses EntryBlock; it
   * is a parameter so that reasoning about the fold does not unfold the
   * layout).
   */
  function VarsFold(palette: Palette, block: (string, seq<(string, string)>) -> string, n: nat): Result<string>
    requires n <= |palette|
  {
    if n == 0 then Ok("")
    else
      var css :- VarsFold(palette, block, n - 1);
      var entry := palette[n - 1];
      if entry.1.Absent? then Err(MissingColorMap(entry.0))
      else Ok(css + block(entry.0, entry.1.colors))
  }

  /** The block each palette entry contributes. */
  function Blocks(palette: Palette, block: (string, seq<(string, string)>) -> string): seq<string>
    requires forall i | 0 <= i < |palette| :: palette[i].1.Present?
  {
    seq(|palette|, i requires 0 <= i < |palette| => block(palette[i].0, palette[i].1.colors))
  }

  /** The fold succeeds exactly when every variation has a colour map. */
  lemma {:induction false} VarsFoldOk(palette: Palette, block: (string, seq<(string, string)>) -> string, n: nat)
    requires n <= |palette|
    ensures VarsFold(palette, block, n).Ok? <==> forall i | 0 <= i < n :: palette[i].1.Present?
  {
    if n > 0 {
      VarsFoldOk(palette, block, n - 1);
    }
  }

  /** When it throws, it names the first variation without a colour map. */
  lemma {:induction false} VarsFoldFails(palette: Palette, block: (string, seq<(string, string)>) -> string, n: nat)
    requires n <= |palette| && VarsFold(palette, block, n).Err?
    ensures exists i | 0 <= i < n ::
      palette[i].1.Absent? && VarsFold(palette, block, n).error == MissingColorMap(palette[i].0) &&
      forall k | 0 <= k < i :: palette[k].1.Present?
  {
    if VarsFold(palette, block, n - 1).Err? {
      VarsFoldFails(palette, block, n - 1);
    } else {
      VarsFoldOk(palette, block, n - 1);
      assert palette[n - 1].1.Absent?;
    }
  }

  /** Otherwise it is each variation's block in palette order. */
  lemma {:induction false} VarsFoldBlocks(palette: Palette, block: (string, seq<(string, string)>) -> string, n: nat)
    requires n <= |palette| && forall i | 0 <= i < n :: palette[i].1.Present?
    ensures VarsFold(palette, block, n) == Ok(Concat(Blocks(palette[..n], block)))
  {
    if n > 0 {
      VarsFoldBlocks(palette, block, n - 1);
      var bs := Blocks(palette[..n], block);
      assert bs[..n - 1] == Blocks(palette[..n - 1], block);
    }
  }

  /**
   * `generateVars(pallete, prefix)`, with `sass` the text JSToSass gives for
   * the palette and `numbers` the channel printer (the plugin passes
   * GetRgbaNumbers, as the source calls getRgbaNumbers).
   */
  method GenerateVars(palette: Palette, prefix: string, sass: string, numbers: string -> string) returns (r: Result<string>)
    ensures VarsFold(palette, EntryBlock(prefix, numbers), |palette|).Err? ==>
      r == Err(VarsFold(palette, EntryBlock(prefix, numbers), |palette|).error)
    ensures VarsFold(palette, EntryBlock(prefix, numbers), |palette|).Ok? ==>
      r == Ok(VarsFold(palette, EntryBlock(prefix, numbers), |palette|).value + "$pallete: " + sass + ";")
  {
    var cssOutput := "";
    var n := 0;
    while n < |palette|
      invariant 0 <= n <= |palette|
      invariant VarsFold(palette, EntryBlock(prefix, numbers), n) == Ok(cssOutput)
    {
      var variationName, variationColors := palette[n].0, palette[n].1;
      if variationColors.Absent? {
        VarsFoldFailureSticks(palette, EntryBlock(prefix, numbers), n + 1, |palette|);
        return Err(MissingColorMap(variationName));
      }
      // `${cssOutput} ${output}` with output `${selector} {${vars}}`
      cssOutput := cssOutput + SpacedBlock(variationName, prefix, variationColors.colors, numbers);
      n := n + 1;
    }
    cssOutput := cssOutput + "$pallete: " + sass + ";";
    return Ok(cssOutput);
  }

  lemma {:induction false} VarsFoldFailureSticks(palette: Palette, block: (string, seq<(string, string)>) -> string, k: nat, n: nat)
    requires k <= n <= |palette| && VarsFold(palette, block, k).Err?
    ensures VarsFold(palette, block, n) == VarsFold(palette, block, k)
    decreases n
  {
    if n > k {
      VarsFoldFailureSticks(palette, block, k, n - 1);
    }
  }

  /** A six-digit colour becomes its three channels in decimal. */
  lemma VarDeclOfHex(name: string, r: nat, g: nat, b: nat)
    requires r < 256 && g < 256 && b < 256
    ensures VarDecl(name, FormatHex(r, g, b), GetRgbaNumbers) ==
      "--" + name + ": " + (NatToString(r) + ", " + NatToString(g) + ", " + NatToString(b)) + ";"
  {
    var hex := FormatHex(r, g, b);
    TripleOfFormatHex(r, g, b);
    assert GetRgbaNumbers(hex) == Triple(hex);
  }
}
