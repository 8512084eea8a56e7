/**
 * The two postcss plugins of src/themify.ts: `themify`, which writes the
 * legacy-browser fallback (unless `screwIE11` is left on) and then rewrites
 * the rules, and `initThemify`, which prepends the palette's CSS variables.
 */
module Plugin {
  import opened Base
  import opened Js
  import opened Colors
  import opened Macro
  import opened Expander
  import opened Fallback
  import opened Vars

  /** What one run of `themify` leaves besides the rewritten rules: the fallback files' contents, when written, and how the walk ended. */
  datatype Outcome = Outcome(fallback: Option<Bundle>, walked: Walked)

  /**
   * `themify(options)(root)`. The options are built first (and may throw); the
   * fallback is computed from the rules as they were, and only when
   * `screwIE11` is `false`; a fallback that throws stops the run before any
   * rule is rewritten. `parse` stands for `JSON.parse`, `serialize` for
   * `rule.toString()`, and `fuel` bounds the rules the walk visits.
   */
  method Themify(options: Option<UserOptions>, parse: string -> Option<Json>, root: Root, serialize: Rule -> string, fuel: nat)
    returns (r: Result<Outcome>)
    modifies root
    ensures BuildOptions(options).Err? ==> r == Err(BuildOptions(options).error) && root.rules == old(root.rules)
    ensures BuildOptions(options).Ok? ==>
      var o := BuildOptions(options).value;
      var ev := EvaluatorOf(EnvOf(o, parse));
      var fb := RulesFold(old(root.rules), |old(root.rules)|, ev);
      var w := Walk(old(root.rules), 0, fuel, ev);
      if !o.screwIE11 && fb.Err? then r == Err(fb.error) && root.rules == old(root.rules)
      else if w.Failed? then r == Err(w.error)
      else r == Ok(Outcome(if o.screwIE11 then None else Emit(fb.value, serialize), w)) && root.rules == w.rules
  {
    var built := BuildOptions(options);
    if built.Err? {
      return Err(built.error);
    }
    var o := built.value;
    var ev := EvaluatorOf(EnvOf(o, parse));
    var files: Option<Bundle> := None;
    if o.screwIE11 == false {
      var fb := ProcessFallbackRules(root.rules, ev, serialize);
      if fb.Err? {
        return Err(fb.error);
      }
      files := fb.value;
    }
    var walked := root.ProcessRules(ev, fuel);
    if walked.Failed? {
      return Err(walked.error);
    }
    return Ok(Outcome(files, walked));
  }

  /**
   * `initThemify(options)(root)`: the options are built, `generateVars` runs on
   * the palette and class prefix, and the rules `parseCss` reads from its
   * output (postcss.parse) are put in front of the root's rules. `sass` is the
   * text JSToSass gives for the palette.
   */
  method InitThemify(options: Option<UserOptions>, sass: string, parseCss: string -> seq<Rule>, root: Root)
    returns (r: Result<string>)
    modifies root
    ensures BuildOptions(options).Err? ==> r == Err(BuildOptions(options).error) && root.rules == old(root.rules)
    ensures BuildOptions(options).Ok? ==>
      var o := BuildOptions(options).value;
      var vars := VarsFold(o.pallete, EntryBlock(o.classPrefix, GetRgbaNumbers), |o.pallete|);
      if vars.Err? then r == Err(vars.error) && root.rules == old(root.rules)
      else r == Ok(vars.value + "$pallete: " + sass + ";") && root.rules == parseCss(r.value) + old(root.rules)
  {
    var built := BuildOptions(options);
    if built.Err? {
      return Err(built.error);
    }
    var o := built.value;
    var css := GenerateVars(o.pallete, o.classPrefix, sass, GetRgbaNumbers);
    if css.Err? {
      return css;
    }
    root.rules := parseCss(css.value) + root.rules;
    return css;
  }
}
