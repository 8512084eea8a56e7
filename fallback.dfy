/**
 * `processFallbackRules` of src/themify.ts: for legacy browsers every rule with
 * a themed declaration gets, per execution mode and variation, a destination
 * rule outside the tree; the CSS_COLOR destinations make up the fallback CSS,
 * the DYNAMIC_EXPRESSION ones a JSON document of runtime placeholders.
 */
module Fallback {
  import opened Base
  import opened Strings
  import opened Macro

  /** `output`: the CSS_COLOR list of rules and, for DYNAMIC_EXPRESSION, a list of rules per variation. */
  datatype Output = Output(css: seq<Rule>, dynamic: map<string, seq<Rule>>)

  /** The output before the walk: every variation's dynamic list starts empty. */
  function InitOutput(): Output
  {
    Output([], map v | v in Variations :: [])
  }

  /** `execModes`, in the order each declaration goes through them. */
  const ExecModes: seq<Mode> := [CssColor, DynamicExpression]

  /**
   * `output[mode]` when it is a list (CSS_COLOR), else the object's list for
   * variation `v`; a variation the object lacks reads as an empty list.
   */
  function List(out: Output, m: Mode, v: string): seq<Rule>
  {
    if m == CssColor then out.css else if v in out.dynamic then out.dynamic[v] else []
  }

  /** The output with the list `List(out, m, v)` replaced by `l`. */
  function SetList(out: Output, m: Mode, v: string, l: seq<Rule>): Output
  {
    if m == CssColor then out.(css := l) else out.(dynamic := out.dynamic[v := l])
  }

  /** `ruleModeMap`: per mode, per variation, where the rule's destination sits in its list. */
  type ModeMap = map<Mode, map<string, nat>>

  /** Every recorded destination exists, and a recorded mode has one per variation. */
  predicate Good(out: Output, mm: ModeMap)
  {
    (forall m, v | m in mm && v in mm[m] :: mm[m][v] < |List(out, m, v)|) &&
    (forall m | m in mm :: Dark in mm[m] && Light in mm[m])
  }

  ghost predicate SameLengths(a: Output, b: Output)
  {
    forall m, v :: |List(a, m, v)| == |List(b, m, v)|
  }

  /** The destination of variation `v` as first created: an empty clone for the default one, else an empty rule behind the variation's class. */
  function NewDest(rule: Rule, prefix: string, v: string): (r: Rule)
    ensures r.decls == []
  {
    if v == DefaultVariation then CloneEmptyRule(rule) else CreateRuleWithVariation(rule, prefix, v)
  }

  /** The lazy creation for mode `m`: a destination per variation of `vs` pushed onto its list, its index recorded in `dm`. */
  function CreateDests(out: Output, dm: map<string, nat>, rule: Rule, prefix: string, m: Mode, vs: seq<string>): (Output, map<string, nat>)
  {
    if vs == [] then (out, dm)
    else
      var prev := CreateDests(out, dm, rule, prefix, m, vs[..|vs| - 1]);
      var v := vs[|vs| - 1];
      var l := List(prev.0, m, v);
      (SetList(prev.0, m, v, l + [NewDest(rule, prefix, v)]), prev.1[v := |l|])
  }

  /** `ruleModeMap[mode][v].append(decl)`. */
  function AddDecl(out: Output, m: Mode, v: string, i: nat, decl: Decl): (r: Output)
    requires i < |List(out, m, v)|
    ensures SameLengths(out, r)
  {
    var l := List(out, m, v);
    SetList(out, m, v, l[i := l[i].(decls := l[i].decls + [decl])])
  }

  /**
   * `dm[v].append(decl)`. The model records a destination by its place in its
   * list; a place that names no destination leaves the output as it is, and
   * the walk never records one (ModeStepGood).
   */
  function AddTo(out: Output, dm: map<string, nat>, m: Mode, v: string, decl: Decl): (r: Output)
    ensures SameLengths(out, r)
  {
    if v in dm && dm[v] < |List(out, m, v)| then AddDecl(out, m, v, dm[v], decl) else out
  }

  /** The declaration `prop` with each variation's value appended to that variation's destination, for the variations `vs`. */
  function AppendDecls(out: Output, dm: map<string, nat>, m: Mode, prop: string, vm: Variants, vs: seq<string>): (r: Output)
    requires forall v | v in vs :: v in vm
    ensures SameLengths(out, r)
  {
    if vs == [] then out
    else
      var v := vs[|vs| - 1];
      var prev := AppendDecls(out, dm, m, prop, vm, vs[..|vs| - 1]);
      AddTo(prev, dm, m, v, Decl(prop, vm[v]))
  }

  /** The two variations' creation, written out. */
  lemma CreateDestsAll(out: Output, dm: map<string, nat>, rule: Rule, prefix: string, m: Mode)
    ensures
      var l := List(out, m, Dark);
      var o1 := SetList(out, m, Dark, l + [NewDest(rule, prefix, Dark)]);
      var l2 := List(o1, m, Light);
      CreateDests(out, dm, rule, prefix, m, Variations) ==
        (SetList(o1, m, Light, l2 + [NewDest(rule, prefix, Light)]), dm[Dark := |l|][Light := |l2|])
  {
    var l := List(out, m, Dark);
    assert Variations == [Dark, Light] && [Dark, Light][..1] == [Dark] && [Dark][..0] == [];
    assert CreateDests(out, dm, rule, prefix, m, [Dark]) ==
      (SetList(out, m, Dark, l + [NewDest(rule, prefix, Dark)]), dm[Dark := |l|]);
  }

  /** The two variations' appends, written out. */
  lemma AppendDeclsAll(out: Output, dm: map<string, nat>, m: Mode, prop: string, vm: Variants)
    requires Dark in dm && Light in dm && dm[Dark] < |List(out, m, Dark)| && dm[Light] < |List(out, m, Light)|
    ensures
      var o1 := AddDecl(out, m, Dark, dm[Dark], Decl(prop, vm[Dark]));
      AppendDecls(out, dm, m, prop, vm, Variations) == AddDecl(o1, m, Light, dm[Light], Decl(prop, vm[Light]))
  {
    assert Variations == [Dark, Light] && [Dark, Light][..1] == [Dark] && [Dark][..0] == [];
    assert AppendDecls(out, dm, m, prop, vm, [Dark]) == AddDecl(out, m, Dark, dm[Dark], Decl(prop, vm[Dark]));
  }

  /** Lists that keep their lengths keep every recorded destination. */
  lemma SameLengthsGood(a: Output, b: Output, mm: ModeMap)
    requires Good(a, mm) && SameLengths(a, b)
    ensures Good(b, mm)
  {
    forall m, v | m in mm && v in mm[m] ensures mm[m][v] < |List(b, m, v)| {
      assert |List(a, m, v)| == |List(b, m, v)|;
    }
  }

  /** Pushing onto one list keeps every list at least as long, and that one grows by the pushed rule. */
  lemma PushLengths(out: Output, m: Mode, v: string, x: Rule)
    ensures var o := SetList(out, m, v, List(out, m, v) + [x]);
      List(o, m, v) == List(out, m, v) + [x] &&
      forall m', v' :: |List(out, m', v')| <= |List(o, m', v')|
  {
  }

  /** Pushing a rule onto a list keeps every recorded destination. */
  lemma PushGood(out: Output, mm: ModeMap, m: Mode, v: string, x: Rule)
    requires Good(out, mm)
    ensures Good(SetList(out, m, v, List(out, m, v) + [x]), mm)
  {
    var o := SetList(out, m, v, List(out, m, v) + [x]);
    PushLengths(out, m, v, x);
    forall m', v' | m' in mm && v' in mm[m'] ensures mm[m'][v'] < |List(o, m', v')| {
      assert |List(out, m', v')| <= |List(o, m', v')|;
    }
  }

  /** Recording a mode whose destinations exist keeps the output and map in step. */
  lemma RecordGood(out: Output, mm: ModeMap, m: Mode, dm: map<string, nat>)
    requires Good(out, mm) && Dark in dm && Light in dm
    requires forall v | v in dm :: dm[v] < |List(out, m, v)|
    ensures Good(out, mm[m := dm])
  {
  }

  /** Creating a mode's destinations records them, and keeps those already recorded. */
  lemma CreateDestsGood(out: Output, mm: ModeMap, rule: Rule, prefix: string, m: Mode)
    requires Good(out, mm)
    ensures
      var c := CreateDests(out, map[], rule, prefix, m, Variations);
      Good(c.0, mm[m := c.1])
  {
    CreateDestsAll(out, map[], rule, prefix, m);
    var a, b := NewDest(rule, prefix, Dark), NewDest(rule, prefix, Light);
    var l := List(out, m, Dark);
    var o1 := SetList(out, m, Dark, l + [a]);
    var l2 := List(o1, m, Light);
    var o2 := SetList(o1, m, Light, l2 + [b]);
    PushGood(out, mm, m, Dark, a);
    PushGood(o1, mm, m, Light, b);
    PushLengths(out, m, Dark, a);
    PushLengths(o1, m, Light, b);
    var dm: map<string, nat> := map[][Dark := |l|][Light := |l2|];
    assert |l| < |List(o2, m, Dark)| by {
      assert |l| < |List(o1, m, Dark)| <= |List(o2, m, Dark)|;
    }
    assert |l2| < |List(o2, m, Light)|;
    RecordGood(o2, mm, m, dm);
  }

  /** One pass of `execModes.forEach` for mode `m` on a themed declaration. */
  function ModeStep(out: Output, mm: ModeMap, rule: Rule, d: Decl, m: Mode, ev: Evaluator): (r: Result<(Output, ModeMap)>)
  {
    var st: (Output, ModeMap) :=
      if m in mm then (out, mm)
      else
        var c := CreateDests(out, map[], rule, ev.prefix, m, Variations);
        (c.0, mm[m := c.1]);
    var vm :- ev.values(d.value, m);
    assert forall v | v in Variations :: v == Dark || v == Light;
    Ok((AppendDecls(st.0, st.1[m], m, d.prop, vm, Variations), st.1))
  }

  /** A pass keeps every recorded destination in place and records the mode's. */
  lemma ModeStepGood(out: Output, mm: ModeMap, rule: Rule, d: Decl, m: Mode, ev: Evaluator)
    requires Good(out, mm) && ModeStep(out, mm, rule, d, m, ev).Ok?
    ensures Good(ModeStep(out, mm, rule, d, m, ev).value.0, ModeStep(out, mm, rule, d, m, ev).value.1)
  {
    var st: (Output, ModeMap) := (out, mm);
    if m !in mm {
      CreateDestsGood(out, mm, rule, ev.prefix, m);
      var c := CreateDests(out, map[], rule, ev.prefix, m, Variations);
      st := (c.0, mm[m := c.1]);
    }
    var r := ModeStep(out, mm, rule, d, m, ev).value;
    assert r.1 == st.1;
    SameLengthsGood(st.0, r.0, st.1);
  }

  /** The passes for the first `n` modes of `execModes`, in order. */
  function ModesFold(out: Output, mm: ModeMap, rule: Rule, d: Decl, n: nat, ev: Evaluator): (r: Result<(Output, ModeMap)>)
    requires n <= |ExecModes|
  {
    if n == 0 then Ok((out, mm))
    else
      var st :- ModesFold(out, mm, rule, d, n - 1, ev);
      ModeStep(st.0, st.1, rule, d, ExecModes[n - 1], ev)
  }

  /** The passes keep the recorded destinations in place. */
  lemma {:induction false} ModesFoldGood(out: Output, mm: ModeMap, rule: Rule, d: Decl, n: nat, ev: Evaluator)
    requires n <= |ExecModes| && Good(out, mm) && ModesFold(out, mm, rule, d, n, ev).Ok?
    ensures Good(ModesFold(out, mm, rule, d, n, ev).value.0, ModesFold(out, mm, rule, d, n, ev).value.1)
  {
    if n > 0 {
      ModesFoldGood(out, mm, rule, d, n - 1, ev);
      var st := ModesFold(out, mm, rule, d, n - 1, ev).value;
      ModeStepGood(st.0, st.1, rule, d, ExecModes[n - 1], ev);
    }
  }

  /** The `walkDecls` callback: an unthemed declaration is skipped. */
  function DeclStep(out: Output, mm: ModeMap, rule: Rule, d: Decl, ev: Evaluator): (r: Result<(Output, ModeMap)>)
  {
    if !HasThemify(d.value) then Ok((out, mm)) else ModesFold(out, mm, rule, d, |ExecModes|, ev)
  }

  /** A declaration keeps the recorded destinations in place. */
  lemma DeclStepGood(out: Output, mm: ModeMap, rule: Rule, d: Decl, ev: Evaluator)
    requires Good(out, mm) && DeclStep(out, mm, rule, d, ev).Ok?
    ensures Good(DeclStep(out, mm, rule, d, ev).value.0, DeclStep(out, mm, rule, d, ev).value.1)
  {
    if HasThemify(d.value) {
      ModesFoldGood(out, mm, rule, d, |ExecModes|, ev);
    }
  }

  /** The output and `ruleModeMap` after the first `k` declarations of a rule, starting from `out0`. */
  function RuleFold(out0: Output, rule: Rule, k: nat, ev: Evaluator): (r: Result<(Output, ModeMap)>)
    requires k <= |rule.decls|
  {
    if k == 0 then Ok((out0, map[]))
    else
      var st :- RuleFold(out0, rule, k - 1, ev);
      DeclStep(st.0, st.1, rule, rule.decls[k - 1], ev)
  }

  /** The output after the walk over one rule's declarations. */
  function FoldRule(out: Output, rule: Rule, ev: Evaluator): Result<Output>
  {
    var st :- RuleFold(out, rule, |rule.decls|, ev);
    Ok(st.0)
  }

  /** The output after the first `n` rules. */
  function RulesFold(rules: seq<Rule>, n: nat, ev: Evaluator): Result<Output>
    requires n <= |rules|
  {
    if n == 0 then Ok(InitOutput())
    else
      var out :- RulesFold(rules, n - 1, ev);
      FoldRule(out, rules[n - 1], ev)
  }

  /** Once a mode's pass throws, the remaining modes leave the error as it is. */
  lemma {:induction false} ModesFoldFailureSticks(out: Output, mm: ModeMap, rule: Rule, d: Decl, k: nat, n: nat, ev: Evaluator)
    requires k <= n <= |ExecModes| && ModesFold(out, mm, rule, d, k, ev).Err?
    ensures ModesFold(out, mm, rule, d, n, ev) == ModesFold(out, mm, rule, d, k, ev)
    decreases n
  {
    if n > k {
      ModesFoldFailureSticks(out, mm, rule, d, k, n - 1, ev);
    }
  }

  /** Once a declaration throws, the walk over the rule throws the same error. */
  lemma {:induction false} RuleFoldFailureSticks(out0: Output, rule: Rule, k: nat, n: nat, ev: Evaluator)
    requires k <= n <= |rule.decls| && RuleFold(out0, rule, k, ev).Err?
    ensures RuleFold(out0, rule, n, ev) == RuleFold(out0, rule, k, ev)
    decreases n
  {
    if n > k {
      RuleFoldFailureSticks(out0, rule, k, n - 1, ev);
      var prev := RuleFold(out0, rule, n - 1, ev);
      assert RuleFold(out0, rule, n, ev) == Err(prev.error);
    }
  }

  /** Once a rule throws, the walk over the root throws the same error. */
  lemma {:induction false} RulesFoldFailureSticks(rules: seq<Rule>, k: nat, n: nat, ev: Evaluator)
    requires k <= n <= |rules| && RulesFold(rules, k, ev).Err?
    ensures RulesFold(rules, n, ev) == RulesFold(rules, k, ev)
    decreases n
  {
    if n > k {
      RulesFoldFailureSticks(rules, k, n - 1, ev);
      var prev := RulesFold(rules, n - 1, ev);
      assert RulesFold(rules, n, ev) == Err(prev.error);
    }
  }

  /** The lazy creation of mode `mode`'s destinations, as the source runs it. */
  method CreateModeDests(out: Output, rule: Rule, prefix: string, mode: Mode) returns (o: Output, dm: map<string, nat>)
    ensures (o, dm) == CreateDests(out, map[], rule, prefix, mode, Variations)
  {
    o, dm := out, map[];
    var i := 0;
    while i < |Variations|
      invariant 0 <= i <= |Variations|
      invariant CreateDests(out, map[], rule, prefix, mode, Variations[..i]) == (o, dm)
    {
      var v := Variations[i];
      assert Variations[..i + 1][..i] == Variations[..i];
      var newRule := NewDest(rule, prefix, v);
      var l := List(o, mode, v);
      o := SetList(o, mode, v, l + [newRule]);
      dm := dm[v := |l|];
      i := i + 1;
    }
    assert Variations[..i] == Variations;
  }

  /** The declaration appended to each variation's destination of mode `mode`, as the source runs it. */
  method AppendModeDecls(out: Output, dm: map<string, nat>, mode: Mode, prop: string, vm: Variants) returns (o: Output)
    requires forall v | v in Variations :: v in dm && dm[v] < |List(out, mode, v)|
    ensures o == AppendDecls(out, dm, mode, prop, vm, Variations)
  {
    o := out;
    var i := 0;
    while i < |Variations|
      invariant 0 <= i <= |Variations|
      invariant o == AppendDecls(out, dm, mode, prop, vm, Variations[..i])
    {
      var v := Variations[i];
      assert Variations[..i + 1][..i] == Variations[..i];
      var k := dm[v];
      var l := List(o, mode, v);
      o := SetList(o, mode, v, l[k := l[k].(decls := l[k].decls + [Decl(prop, vm[v])])]);
      i := i + 1;
    }
    assert Variations[..i] == Variations;
  }

  /** One `execModes.forEach` callback, as the source runs it. */
  method FallbackMode(out: Output, mm: ModeMap, rule: Rule, d: Decl, mode: Mode, ev: Evaluator) returns (r: Result<(Output, ModeMap)>)
    requires Good(out, mm)
    ensures r == ModeStep(out, mm, rule, d, mode, ev)
  {
    var o, ruleModeMap := out, mm;
    CreateDestsGood(out, mm, rule, ev.prefix, mode);
    if mode !in ruleModeMap {
      var created, dm := CreateModeDests(o, rule, ev.prefix, mode);
      o, ruleModeMap := created, ruleModeMap[mode := dm];
    }
    var colorMap := ev.values(d.value, mode);
    if colorMap.Err? {
      return Err(colorMap.error);
    }
    assert forall v | v in Variations :: v == Dark || v == Light;
    o := AppendModeDecls(o, ruleModeMap[mode], mode, d.prop, colorMap.value);
    return Ok((o, ruleModeMap));
  }

  /** One `walkDecls` callback of the fallback walk, as the source runs it. */
  method FallbackDecl(out: Output, mm: ModeMap, rule: Rule, d: Decl, ev: Evaluator) returns (r: Result<(Output, ModeMap)>)
    requires Good(out, mm)
    ensures r == DeclStep(out, mm, rule, d, ev)
  {
    if !HasThemify(d.value) {
      return Ok((out, mm));
    }
    var o, ruleModeMap := out, mm;
    var j := 0;
    while j < |ExecModes|
      invariant 0 <= j <= |ExecModes|
      invariant ModesFold(out, mm, rule, d, j, ev) == Ok((o, ruleModeMap))
      invariant Good(o, ruleModeMap)
    {
      var next := FallbackMode(o, ruleModeMap, rule, d, ExecModes[j], ev);
      if next.Ok? {
        ModeStepGood(o, ruleModeMap, rule, d, ExecModes[j], ev);
      } else {
        ModesFoldFailureSticks(out, mm, rule, d, j + 1, |ExecModes|, ev);
        return Err(next.error);
      }
      o, ruleModeMap := next.value.0, next.value.1;
      j := j + 1;
    }
    return Ok((o, ruleModeMap));
  }

  /** `processFallbackRules(root)` on the root's rules: the walk, then what it writes. */
  method ProcessFallbackRules(rules: seq<Rule>, ev: Evaluator, serialize: Rule -> string) returns (r: Result<Option<Bundle>>)
    ensures RulesFold(rules, |rules|, ev).Err? ==> r == Err(RulesFold(rules, |rules|, ev).error)
    ensures RulesFold(rules, |rules|, ev).Ok? ==> r == Ok(Emit(RulesFold(rules, |rules|, ev).value, serialize))
  {
    var dynamic: map<string, seq<Rule>> := map[];
    for i := 0 to |Variations|
      invariant dynamic == map v | v in Variations[..i] :: []
    {
      assert forall v :: v in Variations[..i + 1] <==> v in Variations[..i] || v == Variations[i];
      dynamic := dynamic[Variations[i] := []];
    }
    assert Variations[..|Variations|] == Variations;
    var out := Output([], dynamic);
    var n := 0;
    while n < |rules|
      invariant 0 <= n <= |rules|
      invariant RulesFold(rules, n, ev) == Ok(out)
    {
      var next := FallbackRule(out, rules[n], ev);
      if next.Err? {
        RulesFoldFailureSticks(rules, n + 1, |rules|, ev);
        return Err(next.error);
      }
      out := next.value;
      n := n + 1;
    }
    return Ok(Emit(out, serialize));
  }

  /** One `walkRules` callback of the fallback walk: a fresh `ruleModeMap`, then the rule's declarations. */
  method FallbackRule(out0: Output, rule: Rule, ev: Evaluator) returns (r: Result<Output>)
    ensures r == FoldRule(out0, rule, ev)
  {
    var out := out0;
    var ruleModeMap: ModeMap := map[];
    var k := 0;
    while k < |rule.decls|
      invariant 0 <= k <= |rule.decls|
      invariant RuleFold(out0, rule, k, ev) == Ok((out, ruleModeMap))
      invariant Good(out, ruleModeMap)
    {
      var next := FallbackDecl(out, ruleModeMap, rule, rule.decls[k], ev);
      if next.Ok? {
        DeclStepGood(out, ruleModeMap, rule, rule.decls[k], ev);
      } else {
        RuleFoldFailureSticks(out0, rule, k + 1, |rule.decls|, ev);
        return Err(next.error);
      }
      out, ruleModeMap := next.value.0, next.value.1;
      k := k + 1;
    }
    return Ok(out);
  }

  // ---------------------------------------------------------------- what the walk makes of a rule

  /** The two maps a themed declaration renders to, CSS_COLOR first; None for an unthemed one. */
  function FallbackValues(d: Decl, ev: Evaluator): Result<Option<(Variants, Variants)>>
  {
    if !HasThemify(d.value) then Ok(None)
    else
      var c :- ev.values(d.value, CssColor);
      var y :- ev.values(d.value, DynamicExpression);
      Ok(Some((c, y)))
  }

  /** The fallback values of every declaration; the first declaration that fails decides the error. */
  function ResolveFallback(ds: seq<Decl>, ev: Evaluator): (r: Result<seq<Option<(Variants, Variants)>>>)
    ensures r.Ok? ==> |r.value| == |ds|
  {
    if ds == [] then Ok([])
    else
      var rs :- ResolveFallback(ds[..|ds| - 1], ev);
      var x :- FallbackValues(ds[|ds| - 1], ev);
      Ok(rs + [x])
  }

  /** ResolveFallback succeeds exactly when every declaration does, and then lists their values; otherwise it reports the first failure. */
  lemma {:induction false} ResolveFallbackSpec(ds: seq<Decl>, ev: Evaluator)
    ensures ResolveFallback(ds, ev).Ok? <==> forall i | 0 <= i < |ds| :: FallbackValues(ds[i], ev).Ok?
    ensures ResolveFallback(ds, ev).Ok? ==>
      forall i | 0 <= i < |ds| :: FallbackValues(ds[i], ev) == Ok(ResolveFallback(ds, ev).value[i])
    ensures ResolveFallback(ds, ev).Err? ==> exists i | 0 <= i < |ds| ::
      FallbackValues(ds[i], ev) == Err(ResolveFallback(ds, ev).error) && forall k | 0 <= k < i :: FallbackValues(ds[k], ev).Ok?
  {
    if ds != [] {
      var init := ds[..|ds| - 1];
      ResolveFallbackSpec(init, ev);
      assert forall i | 0 <= i < |init| :: init[i] == ds[i];
      var r := ResolveFallback(ds, ev);
      if ResolveFallback(init, ev).Err? {
        var i :| 0 <= i < |init| &&
          FallbackValues(init[i], ev) == Err(ResolveFallback(init, ev).error) &&
          forall k | 0 <= k < i :: FallbackValues(init[k], ev).Ok?;
        assert FallbackValues(ds[i], ev) == Err(r.error);
      } else if FallbackValues(ds[|ds| - 1], ev).Err? {
        assert FallbackValues(ds[|ds| - 1], ev) == Err(r.error);
      }
    }
  }

  /** The map of mode `m` among a themed declaration's two. */
  function Pick(x: (Variants, Variants), m: Mode): Variants
  {
    if m == CssColor then x.0 else x.1
  }

  /** The declarations the destination of mode `m` and variation `v` collects: one per themed declaration, in order. */
  function ModeDecls(ds: seq<Decl>, rs: seq<Option<(Variants, Variants)>>, m: Mode, v: string): seq<Decl>
    requires |ds| == |rs| && (v == Dark || v == Light)
  {
    if ds == [] then []
    else
      var n := |ds| - 1;
      ModeDecls(ds[..n], rs[..n], m, v) + (if rs[n].Some? then [Decl(ds[n].prop, Pick(rs[n].value, m)[v])] else [])
  }

  predicate AnyThemed(rs: seq<Option<(Variants, Variants)>>)
  {
    exists i | 0 <= i < |rs| :: rs[i].Some?
  }

  /** A mode's destinations of one rule: not created yet, or holding these dark and light declarations. */
  datatype Fill = NotCreated | Filled(dark: seq<Decl>, light: seq<Decl>)

  /** The output once the rule's CSS_COLOR destinations are as `c` says and its DYNAMIC_EXPRESSION ones as `y` says. */
  function Placed(out0: Output, rule: Rule, prefix: string, c: Fill, y: Fill): Output
  {
    Output(
      out0.css + (if c.Filled? then [NewDest(rule, prefix, Dark).(decls := c.dark), NewDest(rule, prefix, Light).(decls := c.light)] else []),
      if y.Filled? then
        out0.dynamic[Dark := List(out0, DynamicExpression, Dark) + [NewDest(rule, prefix, Dark).(decls := y.dark)]]
                    [Light := List(out0, DynamicExpression, Light) + [NewDest(rule, prefix, Light).(decls := y.light)]]
      else out0.dynamic)
  }

  /** Where Placed puts the destinations. */
  function PlacedMap(out0: Output, c: bool, y: bool): ModeMap
  {
    (if c then map[CssColor := map[Dark := |out0.css|, Light := |out0.css| + 1]] else map[]) +
    (if y then map[DynamicExpression := map[Dark := |List(out0, DynamicExpression, Dark)|, Light := |List(out0, DynamicExpression, Light)|]]
     else map[])
  }

  /** A mode's destinations with one more declaration: `prop` with its dark and its light value. */
  function Extend(f: Fill, prop: string, vm: Variants): Fill
  {
    Filled((if f.Filled? then f.dark else []) + [Decl(prop, vm[Dark])],
           (if f.Filled? then f.light else []) + [Decl(prop, vm[Light])])
  }

  /** Creating the CSS_COLOR destinations pushes an empty dark and an empty light rule. */
  lemma CssCreate(out0: Output, rule: Rule, prefix: string, y: Fill)
    ensures CreateDests(Placed(out0, rule, prefix, NotCreated, y), map[], rule, prefix, CssColor, Variations) ==
      (Placed(out0, rule, prefix, Filled([], []), y), map[Dark := |out0.css|, Light := |out0.css| + 1])
    ensures PlacedMap(out0, false, y.Filled?)[CssColor := map[Dark := |out0.css|, Light := |out0.css| + 1]] == PlacedMap(out0, true, y.Filled?)
  {
    var out := Placed(out0, rule, prefix, NotCreated, y);
    var a, b := NewDest(rule, prefix, Dark), NewDest(rule, prefix, Light);
    CreateDestsAll(out, map[], rule, prefix, CssColor);
    assert out.css == out0.css && out0.css + [a] + [b] == out0.css + [a, b];
    assert a.(decls := []) == a && b.(decls := []) == b;
  }

  /** Appending to existing CSS_COLOR destinations extends both. */
  lemma CssAppend(out0: Output, rule: Rule, prefix: string, c: Fill, y: Fill, prop: string, vm: Variants)
    requires c.Filled?
    ensures
      var n := |out0.css|;
      n + 1 < |Placed(out0, rule, prefix, c, y).css| &&
      AppendDecls(Placed(out0, rule, prefix, c, y), map[Dark := n, Light := n + 1], CssColor, prop, vm, Variations) ==
        Placed(out0, rule, prefix, Extend(c, prop, vm), y)
  {
    var out := Placed(out0, rule, prefix, c, y);
    var n := |out0.css|;
    var a, b := NewDest(rule, prefix, Dark), NewDest(rule, prefix, Light);
    AppendDeclsAll(out, map[Dark := n, Light := n + 1], CssColor, prop, vm);
    var e := Extend(c, prop, vm);
    var o1 := AddDecl(out, CssColor, Dark, n, Decl(prop, vm[Dark]));
    assert o1.css == out0.css + [a.(decls := e.dark), b.(decls := c.light)];
    var o2 := AddDecl(o1, CssColor, Light, n + 1, Decl(prop, vm[Light]));
    assert o2.css == out0.css + [a.(decls := e.dark), b.(decls := e.light)];
  }

  /** The CSS_COLOR pass on a themed declaration creates the destinations if needed and appends the declaration to both. */
  lemma CssStep(out0: Output, rule: Rule, d: Decl, c: Fill, y: Fill, ev: Evaluator)
    ensures
      var r := ModeStep(Placed(out0, rule, ev.prefix, c, y), PlacedMap(out0, c.Filled?, y.Filled?), rule, d, CssColor, ev);
      var vs := ev.values(d.value, CssColor);
      (r.Ok? <==> vs.Ok?) && (r.Err? ==> r.error == vs.error) &&
      (r.Ok? ==> r.value == (Placed(out0, rule, ev.prefix, Extend(c, d.prop, vs.value), y), PlacedMap(out0, true, y.Filled?)))
  {
    if ev.values(d.value, CssColor).Ok? {
      var vm := ev.values(d.value, CssColor).value;
      if c.Filled? {
        CssAppend(out0, rule, ev.prefix, c, y, d.prop, vm);
      } else {
        CssCreate(out0, rule, ev.prefix, y);
        CssAppend(out0, rule, ev.prefix, Filled([], []), y, d.prop, vm);
        assert Extend(c, d.prop, vm) == Extend(Filled([], []), d.prop, vm);
      }
    }
  }

  /** Creating the DYNAMIC_EXPRESSION destinations pushes an empty rule onto each variation's list. */
  lemma DynCreate(out0: Output, rule: Rule, prefix: string, c: Fill)
    ensures
      var ld, ll := List(out0, DynamicExpression, Dark), List(out0, DynamicExpression, Light);
      CreateDests(Placed(out0, rule, prefix, c, NotCreated), map[], rule, prefix, DynamicExpression, Variations) ==
        (Placed(out0, rule, prefix, c, Filled([], [])), map[Dark := |ld|, Light := |ll|]) &&
      PlacedMap(out0, c.Filled?, false)[DynamicExpression := map[Dark := |ld|, Light := |ll|]] == PlacedMap(out0, c.Filled?, true)
  {
    var out := Placed(out0, rule, prefix, c, NotCreated);
    var a, b := NewDest(rule, prefix, Dark), NewDest(rule, prefix, Light);
    assert Dark != Light;
    CreateDestsAll(out, map[], rule, prefix, DynamicExpression);
    assert out.dynamic == out0.dynamic;
    assert a.(decls := []) == a && b.(decls := []) == b;
  }

  /** Appending to existing DYNAMIC_EXPRESSION destinations extends both. */
  lemma DynAppend(out0: Output, rule: Rule, prefix: string, c: Fill, y: Fill, prop: string, vm: Variants)
    requires y.Filled?
    ensures
      var ld, ll := List(out0, DynamicExpression, Dark), List(out0, DynamicExpression, Light);
      var out := Placed(out0, rule, prefix, c, y);
      |ld| < |List(out, DynamicExpression, Dark)| && |ll| < |List(out, DynamicExpression, Light)| &&
      AppendDecls(out, map[Dark := |ld|, Light := |ll|], DynamicExpression, prop, vm, Variations) ==
        Placed(out0, rule, prefix, c, Extend(y, prop, vm))
  {
    var ld, ll := List(out0, DynamicExpression, Dark), List(out0, DynamicExpression, Light);
    var out := Placed(out0, rule, prefix, c, y);
    var a, b := NewDest(rule, prefix, Dark), NewDest(rule, prefix, Light);
    assert Dark != Light;
    AppendDeclsAll(out, map[Dark := |ld|, Light := |ll|], DynamicExpression, prop, vm);
    var e := Extend(y, prop, vm);
    var o1 := AddDecl(out, DynamicExpression, Dark, |ld|, Decl(prop, vm[Dark]));
    assert (ld + [a.(decls := y.dark)])[|ld| := a.(decls := e.dark)] == ld + [a.(decls := e.dark)];
    assert o1.dynamic == out0.dynamic[Dark := ld + [a.(decls := e.dark)]][Light := ll + [b.(decls := y.light)]];
    var o2 := AddDecl(o1, DynamicExpression, Light, |ll|, Decl(prop, vm[Light]));
    assert (ll + [b.(decls := y.light)])[|ll| := b.(decls := e.light)] == ll + [b.(decls := e.light)];
    assert o2.dynamic == out0.dynamic[Dark := ld + [a.(decls := e.dark)]][Light := ll + [b.(decls := e.light)]];
  }

  /** The DYNAMIC_EXPRESSION pass on a themed declaration creates the destinations if needed and appends the declaration to both. */
  lemma DynStep(out0: Output, rule: Rule, d: Decl, c: Fill, y: Fill, ev: Evaluator)
    ensures
      var r := ModeStep(Placed(out0, rule, ev.prefix, c, y), PlacedMap(out0, c.Filled?, y.Filled?), rule, d, DynamicExpression, ev);
      var vs := ev.values(d.value, DynamicExpression);
      (r.Ok? <==> vs.Ok?) && (r.Err? ==> r.error == vs.error) &&
      (r.Ok? ==> r.value == (Placed(out0, rule, ev.prefix, c, Extend(y, d.prop, vs.value)), PlacedMap(out0, c.Filled?, true)))
  {
    if ev.values(d.value, DynamicExpression).Ok? {
      var vm := ev.values(d.value, DynamicExpression).value;
      if y.Filled? {
        DynAppend(out0, rule, ev.prefix, c, y, d.prop, vm);
      } else {
        DynCreate(out0, rule, ev.prefix, c);
        DynAppend(out0, rule, ev.prefix, c, Filled([], []), d.prop, vm);
        assert Extend(y, d.prop, vm) == Extend(Filled([], []), d.prop, vm);
      }
    }
  }

  /** A mode's destinations after declarations `ds` with values `rs`: created at the first themed declaration. */
  function FillOf(ds: seq<Decl>, rs: seq<Option<(Variants, Variants)>>, m: Mode): (f: Fill)
    requires |ds| == |rs|
    ensures f.Filled? == AnyThemed(rs)
  {
    if AnyThemed(rs) then Filled(ModeDecls(ds, rs, m, Dark), ModeDecls(ds, rs, m, Light)) else NotCreated
  }

  lemma {:induction false} ModeDeclsPlain(ds: seq<Decl>, rs: seq<Option<(Variants, Variants)>>, m: Mode, v: string)
    requires |ds| == |rs| && (v == Dark || v == Light) && !AnyThemed(rs)
    ensures ModeDecls(ds, rs, m, v) == []
  {
    if ds != [] {
      var n := |ds| - 1;
      assert forall i | 0 <= i < n :: rs[..n][i] == rs[i];
      ModeDeclsPlain(ds[..n], rs[..n], m, v);
      assert rs[n].None?;
    }
  }

  lemma FillOfSnoc(ds: seq<Decl>, rs: seq<Option<(Variants, Variants)>>, d: Decl, x: Option<(Variants, Variants)>, m: Mode)
    requires |ds| == |rs|
    ensures AnyThemed(rs + [x]) == (AnyThemed(rs) || x.Some?)
    ensures FillOf(ds + [d], rs + [x], m) ==
      if x.Some? then Extend(FillOf(ds, rs, m), d.prop, Pick(x.value, m)) else FillOf(ds, rs, m)
  {
    var ds', rs' := ds + [d], rs + [x];
    assert ds'[..|ds|] == ds && rs'[..|rs|] == rs;
    assert AnyThemed(rs') == (AnyThemed(rs) || x.Some?) by {
      if AnyThemed(rs) {
        var i :| 0 <= i < |rs| && rs[i].Some?;
        assert rs'[i].Some?;
      }
      if x.Some? {
        assert rs'[|rs|].Some?;
      }
    }
    if !AnyThemed(rs) {
      ModeDeclsPlain(ds, rs, m, Dark);
      ModeDeclsPlain(ds, rs, m, Light);
    }
  }

  /** The output and `ruleModeMap` once the walk over a rule has gone through declarations `ds` with values `rs`. */
  function RuleSummary(out0: Output, rule: Rule, prefix: string, ds: seq<Decl>, rs: seq<Option<(Variants, Variants)>>): (Output, ModeMap)
    requires |ds| == |rs|
  {
    (Placed(out0, rule, prefix, FillOf(ds, rs, CssColor), FillOf(ds, rs, DynamicExpression)),
     PlacedMap(out0, AnyThemed(rs), AnyThemed(rs)))
  }

  /** A themed declaration whose two maps render goes through both modes' passes. */
  lemma ThemedDeclStep(out0: Output, rule: Rule, ds: seq<Decl>, rs: seq<Option<(Variants, Variants)>>, d: Decl, ev: Evaluator)
    requires |ds| == |rs| && HasThemify(d.value)
    ensures
      var st := RuleSummary(out0, rule, ev.prefix, ds, rs);
      var c := ev.values(d.value, CssColor);
      var r := DeclStep(st.0, st.1, rule, d, ev);
      r == (if c.Err? then Err(c.error)
            else ModeStep(Placed(out0, rule, ev.prefix, Extend(FillOf(ds, rs, CssColor), d.prop, c.value), FillOf(ds, rs, DynamicExpression)),
                          PlacedMap(out0, true, AnyThemed(rs)), rule, d, DynamicExpression, ev))
  {
    var fc, fd := FillOf(ds, rs, CssColor), FillOf(ds, rs, DynamicExpression);
    var st := RuleSummary(out0, rule, ev.prefix, ds, rs);
    assert ModesFold(st.0, st.1, rule, d, 1, ev) == ModeStep(st.0, st.1, rule, d, CssColor, ev);
    CssStep(out0, rule, d, fc, fd, ev);
  }

  /** One declaration moves the summary on by that declaration's fallback values. */
  lemma DeclStepIsSummaryStep(out0: Output, rule: Rule, ds: seq<Decl>, rs: seq<Option<(Variants, Variants)>>, d: Decl, ev: Evaluator)
    requires |ds| == |rs|
    ensures
      var st := RuleSummary(out0, rule, ev.prefix, ds, rs);
      var r := DeclStep(st.0, st.1, rule, d, ev);
      var t := FallbackValues(d, ev);
      (r.Ok? <==> t.Ok?) && (r.Err? ==> r.error == t.error) &&
      (r.Ok? ==> r.value == RuleSummary(out0, rule, ev.prefix, ds + [d], rs + [t.value]))
  {
    var fc, fd := FillOf(ds, rs, CssColor), FillOf(ds, rs, DynamicExpression);
    if !HasThemify(d.value) {
      FillOfSnoc(ds, rs, d, None, CssColor);
      FillOfSnoc(ds, rs, d, None, DynamicExpression);
    } else {
      ThemedDeclStep(out0, rule, ds, rs, d, ev);
      var c := ev.values(d.value, CssColor);
      if c.Ok? {
        var fc' := Extend(fc, d.prop, c.value);
        DynStep(out0, rule, d, fc', fd, ev);
        var y := ev.values(d.value, DynamicExpression);
        if y.Ok? {
          FillOfSnoc(ds, rs, d, Some((c.value, y.value)), CssColor);
          FillOfSnoc(ds, rs, d, Some((c.value, y.value)), DynamicExpression);
        }
      }
    }
  }

  /** The walk over a rule's first `k` declarations computes their summary, or fails with the first failure. */
  lemma {:induction false} RuleFoldIsSummary(out0: Output, rule: Rule, k: nat, ev: Evaluator)
    requires k <= |rule.decls|
    ensures RuleFold(out0, rule, k, ev).Ok? <==> ResolveFallback(rule.decls[..k], ev).Ok?
    ensures RuleFold(out0, rule, k, ev).Err? ==> RuleFold(out0, rule, k, ev).error == ResolveFallback(rule.decls[..k], ev).error
    ensures RuleFold(out0, rule, k, ev).Ok? ==>
      RuleFold(out0, rule, k, ev).value ==
        RuleSummary(out0, rule, ev.prefix, rule.decls[..k], ResolveFallback(rule.decls[..k], ev).value)
  {
    if k == 0 {
      assert rule.decls[..0] == [];
      assert out0.css + [] == out0.css;
      assert PlacedMap(out0, false, false) == map[];
    } else {
      RuleFoldIsSummary(out0, rule, k - 1, ev);
      var ds := rule.decls[..k];
      assert ds[..k - 1] == rule.decls[..k - 1] && ds == rule.decls[..k - 1] + [rule.decls[k - 1]];
      if RuleFold(out0, rule, k - 1, ev).Ok? {
        DeclStepIsSummaryStep(out0, rule, rule.decls[..k - 1], ResolveFallback(rule.decls[..k - 1], ev).value, rule.decls[k - 1], ev);
      }
    }
  }

  /**
   * What the walk does with one rule: it fails exactly when some themed
   * declaration fails, with the first such error (CSS_COLOR before
   * DYNAMIC_EXPRESSION); otherwise it adds nothing unless a declaration is
   * themed, and then exactly the dark and after it the light CSS_COLOR
   * destination (the light one an empty clone, the dark one behind the dark
   * class) and one DYNAMIC_EXPRESSION destination on each variation's list,
   * each holding one declaration per themed declaration, in order.
   */
  lemma FallbackRuleSpec(out0: Output, rule: Rule, ev: Evaluator)
    ensures RuleFold(out0, rule, |rule.decls|, ev).Ok? <==> ResolveFallback(rule.decls, ev).Ok?
    ensures RuleFold(out0, rule, |rule.decls|, ev).Err? ==>
      RuleFold(out0, rule, |rule.decls|, ev).error == ResolveFallback(rule.decls, ev).error
    ensures RuleFold(out0, rule, |rule.decls|, ev).Ok? ==>
      var rs := ResolveFallback(rule.decls, ev).value;
      var out := RuleFold(out0, rule, |rule.decls|, ev).value.0;
      var dark := PrefixSelectors(rule.selectors, ev.prefix, Dark);
      (!AnyThemed(rs) ==> out == out0) &&
      (AnyThemed(rs) ==>
        out.css == out0.css + [Rule(dark, ModeDecls(rule.decls, rs, CssColor, Dark)), Rule(rule.selectors, ModeDecls(rule.decls, rs, CssColor, Light))] &&
        out.dynamic == out0.dynamic
          [Dark := List(out0, DynamicExpression, Dark) + [Rule(dark, ModeDecls(rule.decls, rs, DynamicExpression, Dark))]]
          [Light := List(out0, DynamicExpression, Light) + [Rule(rule.selectors, ModeDecls(rule.decls, rs, DynamicExpression, Light))]])
  {
    RuleFoldIsSummary(out0, rule, |rule.decls|, ev);
    assert rule.decls[..|rule.decls|] == rule.decls;
    assert out0.css + [] == out0.css;
  }

  /** The properties of the themed declarations, in order. */
  function ThemedProps(ds: seq<Decl>, rs: seq<Option<(Variants, Variants)>>): seq<string>
    requires |ds| == |rs|
  {
    if ds == [] then []
    else
      var n := |ds| - 1;
      ThemedProps(ds[..n], rs[..n]) + (if rs[n].Some? then [ds[n].prop] else [])
  }

  function Props(ds: seq<Decl>): seq<string>
  {
    if ds == [] then [] else Props(ds[..|ds| - 1]) + [ds[|ds| - 1].prop]
  }

  /** Every destination of a rule holds the same properties: those of its themed declarations, in order. */
  lemma {:induction false} ModeDeclsProps(ds: seq<Decl>, rs: seq<Option<(Variants, Variants)>>, m: Mode, v: string)
    requires |ds| == |rs| && (v == Dark || v == Light)
    ensures Props(ModeDecls(ds, rs, m, v)) == ThemedProps(ds, rs)
  {
    if ds != [] {
      var n := |ds| - 1;
      ModeDeclsProps(ds[..n], rs[..n], m, v);
      var prev := ModeDecls(ds[..n], rs[..n], m, v);
      if rs[n].Some? {
        var e := Decl(ds[n].prop, Pick(rs[n].value, m)[v]);
        assert (prev + [e])[..|prev|] == prev;
      } else {
        assert prev + [] == prev;
      }
    }
  }

  /** One rule's additions to the output, as FallbackRuleSpec states them. */
  function PlaceRule(out: Output, rule: Rule, ev: Evaluator): Result<Output>
  {
    var rs :- ResolveFallback(rule.decls, ev);
    Ok(Placed(out, rule, ev.prefix, FillOf(rule.decls, rs, CssColor), FillOf(rule.decls, rs, DynamicExpression)))
  }

  /** The walk over the first `n` rules, each rule's additions given by PlaceRule. */
  function Reference(rules: seq<Rule>, n: nat, ev: Evaluator): Result<Output>
    requires n <= |rules|
  {
    if n == 0 then Ok(InitOutput())
    else
      var out :- Reference(rules, n - 1, ev);
      PlaceRule(out, rules[n - 1], ev)
  }

  /** The walk over one rule's declarations makes that rule's additions. */
  lemma RuleFoldIsPlaceRule(out: Output, rule: Rule, ev: Evaluator)
    ensures FoldRule(out, rule, ev) == PlaceRule(out, rule, ev)
  {
    RuleFoldIsSummary(out, rule, |rule.decls|, ev);
    assert rule.decls[..|rule.decls|] == rule.decls;
  }

  lemma {:induction false} RulesFoldIsReference(rules: seq<Rule>, n: nat, ev: Evaluator)
    requires n <= |rules|
    ensures RulesFold(rules, n, ev) == Reference(rules, n, ev)
  {
    if n > 0 {
      RulesFoldIsReference(rules, n - 1, ev);
      var prev := RulesFold(rules, n - 1, ev);
      if prev.Ok? {
        RuleFoldIsPlaceRule(prev.value, rules[n - 1], ev);
      }
    }
  }

  /** Some declaration of the rule is themed. */
  predicate RuleThemed(rule: Rule)
  {
    exists k | 0 <= k < |rule.decls| :: HasThemify(rule.decls[k].value)
  }

  /** How many of the first `n` rules have a themed declaration. */
  function ThemedRules(rules: seq<Rule>, n: nat): nat
    requires n <= |rules|
  {
    if n == 0 then 0
    else ThemedRules(rules, n - 1) + (if RuleThemed(rules[n - 1]) then 1 else 0)
  }

  lemma {:induction false} AnyThemedIff(ds: seq<Decl>, ev: Evaluator)
    requires ResolveFallback(ds, ev).Ok?
    ensures AnyThemed(ResolveFallback(ds, ev).value) <==> RuleThemed(Rule([], ds))
  {
    ResolveFallbackSpec(ds, ev);
    var rs := ResolveFallback(ds, ev).value;
    assert forall k | 0 <= k < |ds| :: rs[k].Some? <==> HasThemify(ds[k].value);
  }

  /**
   * The output of the walk has a dynamic list for each variation and nothing
   * else; each themed rule contributes two CSS_COLOR destinations and one
   * destination to each dynamic list, so there is at most one destination
   * per rule, mode and variation.
   */
  lemma {:induction false} ReferenceShape(rules: seq<Rule>, n: nat, ev: Evaluator)
    requires n <= |rules| && Reference(rules, n, ev).Ok?
    ensures
      var out := Reference(rules, n, ev).value;
      out.dynamic.Keys == {Dark, Light} &&
      |out.css| == 2 * ThemedRules(rules, n) &&
      |out.dynamic[Dark]| == ThemedRules(rules, n) && |out.dynamic[Light]| == ThemedRules(rules, n)
  {
    if n == 0 {
      assert forall v :: v in Variations <==> v == Dark || v == Light;
    } else {
      ReferenceShape(rules, n - 1, ev);
      AnyThemedIff(rules[n - 1].decls, ev);
      assert RuleThemed(Rule([], rules[n - 1].decls)) == RuleThemed(rules[n - 1]);
    }
  }

  /** What the fallback writes: the CSS of the CSS_COLOR destinations, and per variation the text of its dynamic destinations. */
  datatype Bundle = Bundle(css: string, dynamic: seq<(string, string)>)

  /** The serialised rules of a list, joined with nothing between them (`list.join('')`). */
  function Joined(rs: seq<Rule>, serialize: Rule -> string): string
  {
    Concat(seq(|rs|, i requires 0 <= i < |rs| => serialize(rs[i])))
  }

  /**
   * The files are written only when the CSS_COLOR list is non-empty; the
   * JSON holds each variation, in order, with its rules' text stripped of
   * line breaks (a missing list counts as empty).
   */
  function Emit(out: Output, serialize: Rule -> string): (b: Option<Bundle>)
    ensures b.Some? <==> |out.css| > 0
    ensures b.Some? ==> b.value.css == Joined(out.css, serialize)
    ensures b.Some? ==> |b.value.dynamic| == |Variations| && forall i | 0 <= i < |Variations| ::
      b.value.dynamic[i].0 == Variations[i] &&
      b.value.dynamic[i].1 == RemoveNewLines(Joined(List(out, DynamicExpression, Variations[i]), serialize))
    ensures b.Some? ==> forall i, k | 0 <= i < |b.value.dynamic| && 0 <= k < |b.value.dynamic[i].1| ::
      b.value.dynamic[i].1[k] != '\n' && b.value.dynamic[i].1[k] != '\r'
  {
    if |out.css| == 0 then None
    else
      Some(Bundle(Joined(out.css, serialize),
        seq(|Variations|, i requires 0 <= i < |Variations| =>
          (Variations[i], RemoveNewLines(Joined(List(out, DynamicExpression, Variations[i]), serialize))))))
  }

}
