/**
 * `processRules` of src/themify.ts: every themed declaration takes its default
 * (light) value in place; a non-default variation whose value is the same only
 * adds its prefixed selector to the rule, one whose value differs goes to a new
 * rule appended to the root.
 */
module Expander {
  import opened Base
  import opened Strings
  import opened Js
  import opened Macro

  /** The locals of one `walkRules` callback while it walks the rule's declarations. */
  datatype RuleState = RuleState(
    decls: seq<Decl>,            // the rule's declarations; themed ones already replaced
    aggregatedFor: set<string>,  // aggragatedSelectorsMap
    aggregated: seq<string>,     // aggragatedSelectors
    variant: map<string, nat>,   // variationRules, as indices into created
    created: seq<Rule>)          // createdRules

  predicate ValidState(st: RuleState)
  {
    forall v | v in st.variant :: st.variant[v] < |st.created|
  }

  function InitState(rule: Rule): RuleState
  {
    RuleState(rule.decls, {}, [], map[], [])
  }

  /** The `nonDefaultVariations.forEach` body for variation `v` of a declaration whose values are `vm`. */
  function VariationStep(st: RuleState, rule: Rule, prop: string, vm: map<string, string>, v: string, prefix: string): (r: RuleState)
    requires ValidState(st) && v in vm && Light in vm
    ensures ValidState(r) && r.decls == st.decls
  {
    if vm[v] == vm[Light] then
      if v in st.aggregatedFor then st
      else st.(aggregatedFor := st.aggregatedFor + {v}, aggregated := st.aggregated + [SelectorName(rule, prefix, v)])
    else
      var st1 :=
        if v in st.variant then st
        else st.(variant := st.variant[v := |st.created|], created := st.created + [CreateRuleWithVariation(rule, prefix, v)]);
      var i := st1.variant[v];
      st1.(created := st1.created[i := st1.created[i].(decls := st1.created[i].decls + [Decl(prop, vm[v])])])
  }

  /** The steps for the variations `vs`, in order. */
  function VariationsFold(st: RuleState, rule: Rule, prop: string, vm: map<string, string>, vs: seq<string>, prefix: string): (r: RuleState)
    requires ValidState(st) && Light in vm && forall v | v in vs :: v in vm
    ensures ValidState(r) && r.decls == st.decls
  {
    if vs == [] then st
    else VariationStep(VariationsFold(st, rule, prop, vm, vs[..|vs| - 1], prefix), rule, prop, vm, vs[|vs| - 1], prefix)
  }

  /** The `walkDecls` callback on declaration `k`. */
  function DeclStep(st: RuleState, rule: Rule, k: nat, ev: Evaluator): (r: Result<RuleState>)
    requires ValidState(st) && k < |rule.decls| == |st.decls|
    ensures r.Ok? ==> ValidState(r.value) && |r.value.decls| == |rule.decls|
  {
    var d := rule.decls[k];
    if !HasThemify(d.value) then Ok(st)
    else
      var vm :- ev.values(d.value, CssVar);
      var st1 := st.(decls := st.decls[k := Decl(d.prop, vm[Light])]);
      Ok(VariationsFold(st1, rule, d.prop, vm, NonDefaultVariations, ev.prefix))
  }

  /** The state after the first `k` declarations. */
  function DeclsFold(rule: Rule, k: nat, ev: Evaluator): (r: Result<RuleState>)
    requires k <= |rule.decls|
    ensures r.Ok? ==> ValidState(r.value) && |r.value.decls| == |rule.decls|
  {
    if k == 0 then Ok(InitState(rule))
    else
      var st :- DeclsFold(rule, k - 1, ev);
      DeclStep(st, rule, k - 1, ev)
  }

  /** The rule with its new declarations and aggregated selectors, and the rules it created. */
  function Finish(rule: Rule, st: RuleState): (Rule, seq<Rule>)
  {
    (Rule(rule.selectors + st.aggregated, st.decls), st.created)
  }

  /** One `walkRules` callback of `processRules` on a rule. */
  function ExpandRule(rule: Rule, ev: Evaluator): Result<(Rule, seq<Rule>)>
  {
    var st :- DeclsFold(rule, |rule.decls|, ev);
    Ok(Finish(rule, st))
  }

  /** The `walkDecls` callback on declaration `k`, as the source runs it. */
  method WalkDecl(st: RuleState, rule: Rule, k: nat, ev: Evaluator) returns (r: Result<RuleState>)
    requires ValidState(st) && k < |rule.decls| == |st.decls|
    ensures r == DeclStep(st, rule, k, ev)
  {
    var d := rule.decls[k];
    if !HasThemify(d.value) {
      return Ok(st);
    }
    var values := ev.values(d.value, CssVar);
    if values.Err? {
      return Err(values.error);
    }
    var vm := values.value;
    var decls := st.decls[k := Decl(d.prop, vm[Light])];
    var aggregatedFor, aggregated, created := st.aggregatedFor, st.aggregated, st.created;
    var variant: map<string, nat> := st.variant;
    var nonDefault := NonDefaultVariations;
    ghost var st1 := st.(decls := decls);
    var j := 0;
    while j < |nonDefault|
      invariant 0 <= j <= |nonDefault|
      invariant RuleState(decls, aggregatedFor, aggregated, variant, created) ==
        VariationsFold(st1, rule, d.prop, vm, nonDefault[..j], ev.prefix)
    {
      var v := nonDefault[j];
      assert nonDefault[..j + 1][..j] == nonDefault[..j];
      if vm[v] == vm[Light] {
        if v !in aggregatedFor {
          aggregatedFor := aggregatedFor + {v};
          aggregated := aggregated + [SelectorName(rule, ev.prefix, v)];
        }
      } else {
        if v !in variant {
          variant := variant[v := |created|];
          created := created + [CreateRuleWithVariation(rule, ev.prefix, v)];
        }
        var i := variant[v];
        created := created[i := created[i].(decls := created[i].decls + [Decl(d.prop, vm[v])])];
      }
      j := j + 1;
    }
    assert nonDefault[..j] == nonDefault;
    return Ok(RuleState(decls, aggregatedFor, aggregated, variant, created));
  }

  /** Once a declaration throws, the walk over the whole rule throws the same error. */
  lemma {:induction false} DeclsFoldFailureSticks(rule: Rule, k: nat, m: nat, ev: Evaluator)
    requires k <= m <= |rule.decls| && DeclsFold(rule, k, ev).Err?
    ensures DeclsFold(rule, m, ev) == DeclsFold(rule, k, ev)
    decreases m
  {
    if m > k {
      DeclsFoldFailureSticks(rule, k, m - 1, ev);
    }
  }

  /** The callback's declaration walk, as the source runs it. */
  method ProcessRule(rule: Rule, ev: Evaluator) returns (r: Result<(Rule, seq<Rule>)>)
    ensures r == ExpandRule(rule, ev)
  {
    var st := InitState(rule);
    var k := 0;
    while k < |rule.decls|
      invariant 0 <= k <= |rule.decls|
      invariant DeclsFold(rule, k, ev) == Ok(st)
    {
      var next := WalkDecl(st, rule, k, ev);
      if next.Err? {
        DeclsFoldFailureSticks(rule, k + 1, |rule.decls|, ev);
        return Err(next.error);
      }
      st := next.value;
      k := k + 1;
    }
    return Ok(Finish(rule, st));
  }

  /** How `walkRules` ends: the rules when the walk finished, the error it threw, or the rules when the visit bound ran out. */
  datatype Walked = Done(rules: seq<Rule>) | Failed(error: Error) | OutOfFuel(rules: seq<Rule>)

  /**
   * `walkRules` from index `i`: the rule there is expanded and the rules it
   * created are appended to the root, where the walk reaches them too. `fuel`
   * bounds the number of visits.
   */
  function Walk(rules: seq<Rule>, i: nat, fuel: nat, ev: Evaluator): Walked
    decreases fuel
  {
    if i >= |rules| then Done(rules)
    else if fuel == 0 then OutOfFuel(rules)
    else match ExpandRule(rules[i], ev)
      case Err(e) => Failed(e)
      case Ok(res) => Walk(rules[i := res.0] + res.1, i + 1, fuel - 1, ev)
  }

  /** The root node: its list of rules, which `processRules` rewrites. */
  class Root {
    var rules: seq<Rule>

    constructor(rules: seq<Rule>)
      ensures this.rules == rules
    {
      this.rules := rules;
    }

    /** `processRules(root)`, visiting at most `fuel` rules. */
    method ProcessRules(ev: Evaluator, fuel: nat) returns (outcome: Walked)
      modifies this
      ensures outcome == Walk(old(rules), 0, fuel, ev)
      ensures !outcome.Failed? ==> rules == outcome.rules
    {
      var i := 0;
      var f := fuel;
      while i < |rules| && f > 0
        invariant Walk(old(rules), 0, fuel, ev) == Walk(rules, i, f, ev)
        decreases f
      {
        var res := ProcessRule(rules[i], ev);
        if res.Err? {
          return Failed(res.error);
        }
        rules := rules[i := res.value.0] + res.value.1;
        i := i + 1;
        f := f - 1;
      }
      if i >= |rules| {
        return Done(rules);
      }
      return OutOfFuel(rules);
    }
  }

  // ---------------------------------------------------------------- what a rule expands to

  /** The variation values of one declaration: None when it is not themed. */
  function Themed(d: Decl, ev: Evaluator): (r: Result<Option<Variants>>)
  {
    if !HasThemify(d.value) then Ok(None)
    else
      var vm :- ev.values(d.value, CssVar);
      Ok(Some(vm))
  }

  /** The variation values of every declaration; the first declaration that fails decides the error. */
  function ResolveAll(ds: seq<Decl>, ev: Evaluator): (r: Result<seq<Option<Variants>>>)
    ensures r.Ok? ==> |r.value| == |ds|
  {
    if ds == [] then Ok([])
    else
      var rs :- ResolveAll(ds[..|ds| - 1], ev);
      var x :- Themed(ds[|ds| - 1], ev);
      Ok(rs + [x])
  }

  /** ResolveAll succeeds exactly when every declaration does, and then lists their values; otherwise it reports the first failure. */
  lemma {:induction false} ResolveAllSpec(ds: seq<Decl>, ev: Evaluator)
    ensures ResolveAll(ds, ev).Ok? <==> forall i | 0 <= i < |ds| :: Themed(ds[i], ev).Ok?
    ensures ResolveAll(ds, ev).Ok? ==> forall i | 0 <= i < |ds| :: Themed(ds[i], ev) == Ok(ResolveAll(ds, ev).value[i])
    ensures ResolveAll(ds, ev).Err? ==> exists i | 0 <= i < |ds| ::
      Themed(ds[i], ev) == Err(ResolveAll(ds, ev).error) && forall k | 0 <= k < i :: Themed(ds[k], ev).Ok?
  {
    if ds != [] {
      var init := ds[..|ds| - 1];
      ResolveAllSpec(init, ev);
      assert forall i | 0 <= i < |init| :: init[i] == ds[i];
      var r := ResolveAll(ds, ev);
      if ResolveAll(init, ev).Err? {
        var i :| 0 <= i < |init| &&
          Themed(init[i], ev) == Err(ResolveAll(init, ev).error) && forall k | 0 <= k < i :: Themed(init[k], ev).Ok?;
        assert Themed(ds[i], ev) == Err(r.error);
      } else if Themed(ds[|ds| - 1], ev).Err? {
        assert Themed(ds[|ds| - 1], ev) == Err(r.error);
      }
    }
  }

  /** A declaration after the walk: a themed one takes its light value. */
  function NewDecl(d: Decl, x: Option<Variants>): Decl
  {
    if x.Some? then Decl(d.prop, x.value[Light]) else d
  }

  function NewDecls(ds: seq<Decl>, rs: seq<Option<Variants>>): (r: seq<Decl>)
    requires |ds| == |rs|
    ensures |r| == |ds|
    ensures forall i | 0 <= i < |ds| :: r[i] == NewDecl(ds[i], rs[i])
  {
    seq(|ds|, i requires 0 <= i < |ds| => NewDecl(ds[i], rs[i]))
  }

  /** Some themed declaration has the same value for dark as for light. */
  predicate SomeSame(rs: seq<Option<Variants>>)
  {
    exists i | 0 <= i < |rs| :: rs[i].Some? && rs[i].value[Dark] == rs[i].value[Light]
  }

  /** The dark declarations of the themed declarations whose dark value differs, in order. */
  function DarkDecls(ds: seq<Decl>, rs: seq<Option<Variants>>): seq<Decl>
    requires |ds| == |rs|
  {
    if ds == [] then []
    else
      var n := |ds| - 1;
      DarkDecls(ds[..n], rs[..n]) +
        (if rs[n].Some? && rs[n].value[Dark] != rs[n].value[Light] then [Decl(ds[n].prop, rs[n].value[Dark])] else [])
  }

  /** The state of the declaration walk after the first `k` declarations, as a function of their variation values. */
  function Summary(rule: Rule, k: nat, rs: seq<Option<Variants>>, prefix: string): RuleState
    requires k <= |rule.decls| && |rs| == k
  {
    var ds := rule.decls[..k];
    var dark := DarkDecls(ds, rs);
    RuleState(
      NewDecls(ds, rs) + rule.decls[k..],
      if SomeSame(rs) then {Dark} else {},
      if SomeSame(rs) then [SelectorName(rule, prefix, Dark)] else [],
      if dark != [] then map[Dark := 0] else map[],
      if dark != [] then [Rule(PrefixSelectors(rule.selectors, prefix, Dark), dark)] else [])
  }

  /** Some declaration among one more has the same values exactly when one of the earlier ones does or the new one does. */
  lemma SomeSameSnoc(rs: seq<Option<Variants>>, x: Option<Variants>)
    ensures SomeSame(rs + [x]) <==> SomeSame(rs) || (x.Some? && x.value[Dark] == x.value[Light])
  {
    var rs' := rs + [x];
    if SomeSame(rs') {
      var i :| 0 <= i < |rs'| && rs'[i].Some? && rs'[i].value[Dark] == rs'[i].value[Light];
      if i < |rs| { assert rs[i] == rs'[i]; }
    }
    if SomeSame(rs) {
      var i :| 0 <= i < |rs| && rs[i].Some? && rs[i].value[Dark] == rs[i].value[Light];
      assert rs'[i] == rs[i];
    }
    if x.Some? && x.value[Dark] == x.value[Light] {
      assert rs'[|rs|] == x;
    }
  }

  /** The declarations of a summary with one more declaration: that one is replaced in place. */
  lemma NewDeclsSnoc(rule: Rule, k: nat, rs: seq<Option<Variants>>, x: Option<Variants>)
    requires k < |rule.decls| && |rs| == k
    ensures NewDecls(rule.decls[..k + 1], rs + [x]) + rule.decls[k + 1..] ==
      (NewDecls(rule.decls[..k], rs) + rule.decls[k..])[k := NewDecl(rule.decls[k], x)]
  {
    var ds, ds', rs' := rule.decls[..k], rule.decls[..k + 1], rs + [x];
    var a, a' := NewDecls(ds, rs), NewDecls(ds', rs');
    var l := a' + rule.decls[k + 1..];
    var r := (a + rule.decls[k..])[k := NewDecl(rule.decls[k], x)];
    assert |l| == |r|;
    forall i | 0 <= i < |l| ensures l[i] == r[i] {
      if i < k {
        assert l[i] == a'[i] == NewDecl(ds'[i], rs'[i]);
        assert r[i] == a[i] == NewDecl(ds[i], rs[i]);
      } else if i == k {
        assert l[i] == a'[k] == NewDecl(ds'[k], rs'[k]);
      } else {
        assert l[i] == rule.decls[i];
      }
    }
    assert l == r;
  }

  /** The dark declarations of a summary with one more declaration: its dark one is added when it differs. */
  lemma DarkDeclsSnoc(rule: Rule, k: nat, rs: seq<Option<Variants>>, x: Option<Variants>)
    requires k < |rule.decls| && |rs| == k
    ensures DarkDecls(rule.decls[..k + 1], rs + [x]) == DarkDecls(rule.decls[..k], rs) +
      if x.Some? && x.value[Dark] != x.value[Light] then [Decl(rule.decls[k].prop, x.value[Dark])] else []
  {
    var ds, ds' := rule.decls[..k], rule.decls[..k + 1];
    var rs' := rs + [x];
    assert ds'[..k] == ds && rs'[..k] == rs;
    assert ds'[k] == rule.decls[k] && rs'[k] == x;
  }

  lemma SummaryStepPlain(rule: Rule, k: nat, rs: seq<Option<Variants>>, prefix: string)
    requires k < |rule.decls| && |rs| == k
    ensures Summary(rule, k + 1, rs + [None], prefix) == Summary(rule, k, rs, prefix)
  {
    NewDeclsSnoc(rule, k, rs, None);
    DarkDeclsSnoc(rule, k, rs, None);
    SomeSameSnoc(rs, None);
    var st := Summary(rule, k, rs, prefix);
    var next := Summary(rule, k + 1, rs + [None], prefix);
    assert st.decls[k := rule.decls[k]] == st.decls;
    assert next.decls == st.decls;
    assert DarkDecls(rule.decls[..k], rs) + [] == DarkDecls(rule.decls[..k], rs);
  }

  lemma SummaryStepThemed(rule: Rule, k: nat, rs: seq<Option<Variants>>, vm: Variants, prefix: string)
    requires k < |rule.decls| && |rs| == k
    ensures ValidState(Summary(rule, k, rs, prefix))
    ensures
      var st := Summary(rule, k, rs, prefix);
      var st1 := st.(decls := st.decls[k := Decl(rule.decls[k].prop, vm[Light])]);
      ValidState(st1) &&
      Summary(rule, k + 1, rs + [Some(vm)], prefix) == VariationStep(st1, rule, rule.decls[k].prop, vm, Dark, prefix)
  {
    NewDeclsSnoc(rule, k, rs, Some(vm));
    DarkDeclsSnoc(rule, k, rs, Some(vm));
    SomeSameSnoc(rs, Some(vm));
    var d := rule.decls[k];
    var st := Summary(rule, k, rs, prefix);
    var st1 := st.(decls := st.decls[k := Decl(d.prop, vm[Light])]);
    var next := Summary(rule, k + 1, rs + [Some(vm)], prefix);
    assert next.decls == st1.decls;
    var selectors := PrefixSelectors(rule.selectors, prefix, Dark);
    var dark := DarkDecls(rule.decls[..k], rs);
    if vm[Dark] == vm[Light] {
      assert dark + [] == dark;
      assert next.variant == st.variant && next.created == st.created;
      if !SomeSame(rs) {
        assert st.aggregatedFor + {Dark} == {Dark};
        assert st.aggregated + [SelectorName(rule, prefix, Dark)] == [SelectorName(rule, prefix, Dark)];
      }
    } else if dark == [] {
      assert CreateRuleWithVariation(rule, prefix, Dark) == Rule(selectors, []);
      assert next.created == [Rule(selectors, [] + [Decl(d.prop, vm[Dark])])];
    } else {
      assert st.created == [Rule(selectors, dark)];
      assert next.created == [Rule(selectors, dark + [Decl(d.prop, vm[Dark])])];
    }
  }

  /** One declaration step on a summary gives the summary with that declaration's variation values added. */
  lemma DeclStepIsSummaryStep(rule: Rule, k: nat, rs: seq<Option<Variants>>, ev: Evaluator)
    requires k < |rule.decls| && |rs| == k
    ensures ValidState(Summary(rule, k, rs, ev.prefix))
    ensures
      var r := DeclStep(Summary(rule, k, rs, ev.prefix), rule, k, ev);
      var t := Themed(rule.decls[k], ev);
      (r.Ok? <==> t.Ok?) &&
      (r.Err? ==> r.error == t.error) &&
      (r.Ok? ==> r.value == Summary(rule, k + 1, rs + [t.value], ev.prefix))
  {
    var d := rule.decls[k];
    var st := Summary(rule, k, rs, ev.prefix);
    SummaryStepThemed(rule, k, rs, map[Dark := "", Light := ""], ev.prefix);
    if !HasThemify(d.value) {
      SummaryStepPlain(rule, k, rs, ev.prefix);
    } else if ev.values(d.value, CssVar).Ok? {
      var vm := ev.values(d.value, CssVar).value;
      SummaryStepThemed(rule, k, rs, vm, ev.prefix);
      var st1 := st.(decls := st.decls[k := Decl(d.prop, vm[Light])]);
      assert NonDefaultVariations[..0] == [];
      assert VariationsFold(st1, rule, d.prop, vm, NonDefaultVariations, ev.prefix)
          == VariationStep(st1, rule, d.prop, vm, Dark, ev.prefix);
    }
  }

  /** ResolveAll on one more declaration: the earlier ones' values, then this one's. */
  lemma ResolveAllSnoc(rule: Rule, k: nat, ev: Evaluator)
    requires 0 < k <= |rule.decls|
    ensures var ra, t := ResolveAll(rule.decls[..k - 1], ev), Themed(rule.decls[k - 1], ev);
      ResolveAll(rule.decls[..k], ev) ==
        if ra.Err? then Err(ra.error) else if t.Err? then Err(t.error) else Ok(ra.value + [t.value])
  {
    var ds := rule.decls[..k];
    assert ds[..k - 1] == rule.decls[..k - 1];
    assert ds[k - 1] == rule.decls[k - 1];
  }

  /** The declaration walk computes the summary of the declarations' variation values. */
  lemma {:induction false} DeclsFoldIsSummary(rule: Rule, k: nat, ev: Evaluator)
    requires k <= |rule.decls|
    ensures DeclsFold(rule, k, ev).Ok? <==> ResolveAll(rule.decls[..k], ev).Ok?
    ensures DeclsFold(rule, k, ev).Err? ==> DeclsFold(rule, k, ev).error == ResolveAll(rule.decls[..k], ev).error
    ensures DeclsFold(rule, k, ev).Ok? ==>
      DeclsFold(rule, k, ev).value == Summary(rule, k, ResolveAll(rule.decls[..k], ev).value, ev.prefix)
  {
    if k == 0 {
      assert rule.decls[..0] == [] && rule.decls[0..] == rule.decls;
    } else {
      DeclsFoldIsSummary(rule, k - 1, ev);
      ResolveAllSnoc(rule, k, ev);
      var prev := DeclsFold(rule, k - 1, ev);
      if prev.Ok? {
        DeclStepIsSummaryStep(rule, k - 1, ResolveAll(rule.decls[..k - 1], ev).value, ev);
        assert DeclsFold(rule, k, ev) == DeclStep(prev.value, rule, k - 1, ev);
      } else {
        assert DeclsFold(rule, k, ev) == Err(prev.error);
      }
    }
  }

  /**
   * What one callback of `processRules` does to a rule: it fails exactly when
   * some themed declaration fails, with the first such error; otherwise every
   * themed declaration takes its light value, the dark selector name is added
   * once if some declaration's dark value equals its light one, and a single
   * dark rule holding every differing dark declaration, in order, is created
   * when there is one.
   */
  lemma ExpandRuleSpec(rule: Rule, ev: Evaluator)
    ensures ExpandRule(rule, ev).Ok? <==> ResolveAll(rule.decls, ev).Ok?
    ensures ExpandRule(rule, ev).Err? ==> ExpandRule(rule, ev).error == ResolveAll(rule.decls, ev).error
    ensures ExpandRule(rule, ev).Ok? ==>
      var rs := ResolveAll(rule.decls, ev).value;
      var dark := DarkDecls(rule.decls, rs);
      ExpandRule(rule, ev).value ==
        (Rule(rule.selectors + (if SomeSame(rs) then [SelectorName(rule, ev.prefix, Dark)] else []),
              NewDecls(rule.decls, rs)),
         if dark != [] then [Rule(PrefixSelectors(rule.selectors, ev.prefix, Dark), dark)] else [])
  {
    DeclsFoldIsSummary(rule, |rule.decls|, ev);
    assert rule.decls[..|rule.decls|] == rule.decls;
    assert rule.decls[|rule.decls|..] == [];
    if ExpandRule(rule, ev).Ok? {
      var rs := ResolveAll(rule.decls, ev).value;
      assert NewDecls(rule.decls, rs) + [] == NewDecls(rule.decls, rs);
    }
  }

  /** No declaration of the rule is themed. */
  predicate Unthemed(rule: Rule)
  {
    forall k | 0 <= k < |rule.decls| :: !HasThemify(rule.decls[k].value)
  }

  /** A rule without a themed declaration comes out as it went in, and creates nothing. */
  lemma ExpandPlainRule(rule: Rule, ev: Evaluator)
    requires Unthemed(rule)
    ensures ExpandRule(rule, ev) == Ok((rule, []))
  {
    ExpandRuleSpec(rule, ev);
    ResolveAllSpec(rule.decls, ev);
    var rs := ResolveAll(rule.decls, ev).value;
    assert forall i | 0 <= i < |rs| :: rs[i].None?;
    assert NewDecls(rule.decls, rs) == rule.decls;
    assert DarkDecls(rule.decls, rs) == [] by {
      DarkDeclsOfPlain(rule.decls, rs);
    }
    assert rule.selectors + [] == rule.selectors;
  }

  lemma {:induction false} DarkDeclsOfPlain(ds: seq<Decl>, rs: seq<Option<Variants>>)
    requires |ds| == |rs| && forall i | 0 <= i < |rs| :: rs[i].None?
    ensures DarkDecls(ds, rs) == []
  {
    if ds != [] {
      DarkDeclsOfPlain(ds[..|ds| - 1], rs[..|rs| - 1]);
    }
  }

  /** Rules from index `i` on without a themed declaration are left alone, given one visit per rule. */
  lemma {:induction false} WalkPlainRoot(rules: seq<Rule>, i: nat, fuel: nat, ev: Evaluator)
    requires forall j | i <= j < |rules| :: Unthemed(rules[j])
    requires i <= |rules| && fuel >= |rules| - i
    ensures Walk(rules, i, fuel, ev) == Done(rules)
    decreases |rules| - i
  {
    if i < |rules| {
      ExpandPlainRule(rules[i], ev);
      assert rules[i := rules[i]] + [] == rules;
      WalkPlainRoot(rules, i + 1, fuel - 1, ev);
    }
  }

  // ---------------------------------------------------------------- a whole root

  /** The rules an expansion creates have no themed declaration. */
  predicate CreatesUnthemed(rule: Rule, ev: Evaluator)
    requires ExpandRule(rule, ev).Ok?
  {
    forall m | 0 <= m < |ExpandRule(rule, ev).value.1| :: Unthemed(ExpandRule(rule, ev).value.1[m])
  }

  /** The first `n` rules as their expansions rewrite them. */
  function Rewritten(rules: seq<Rule>, n: nat, ev: Evaluator): (r: seq<Rule>)
    requires n <= |rules| && forall j | 0 <= j < n :: ExpandRule(rules[j], ev).Ok?
    ensures |r| == n
  {
    seq(n, j requires 0 <= j < n => ExpandRule(rules[j], ev).value.0)
  }

  /** The rules the first `n` rules create, in the order they are appended to the root. */
  function Created(rules: seq<Rule>, n: nat, ev: Evaluator): seq<Rule>
    requires n <= |rules| && forall j | 0 <= j < n :: ExpandRule(rules[j], ev).Ok?
  {
    if n == 0 then [] else Created(rules, n - 1, ev) + ExpandRule(rules[n - 1], ev).value.1
  }

  /** The root once the walk has visited its first `i` rules. */
  function Midway(rules: seq<Rule>, i: nat, ev: Evaluator): seq<Rule>
    requires i <= |rules| && forall j | 0 <= j < i :: ExpandRule(rules[j], ev).Ok?
  {
    Rewritten(rules, i, ev) + rules[i..] + Created(rules, i, ev)
  }

  /** A rule creates at most one rule: the one for the dark variation. */
  lemma CreatesAtMostOne(rule: Rule, ev: Evaluator)
    requires ExpandRule(rule, ev).Ok?
    ensures |ExpandRule(rule, ev).value.1| <= 1
  {
    ExpandRuleSpec(rule, ev);
  }

  lemma {:induction false} CreatedShape(rules: seq<Rule>, n: nat, ev: Evaluator)
    requires n <= |rules|
    requires forall j | 0 <= j < |rules| :: ExpandRule(rules[j], ev).Ok? && CreatesUnthemed(rules[j], ev)
    ensures |Created(rules, n, ev)| <= n
    ensures forall m | 0 <= m < |Created(rules, n, ev)| :: Unthemed(Created(rules, n, ev)[m])
  {
    if n > 0 {
      CreatedShape(rules, n - 1, ev);
      CreatesAtMostOne(rules[n - 1], ev);
      var a := Created(rules, n - 1, ev);
      var b := ExpandRule(rules[n - 1], ev).value.1;
      assert CreatesUnthemed(rules[n - 1], ev);
      forall m | 0 <= m < |a + b| ensures Unthemed((a + b)[m]) {
        if m < |a| { assert (a + b)[m] == a[m]; } else { assert (a + b)[m] == b[m - |a|]; }
      }
    }
  }

  /** Visiting rule `i` rewrites it in place and appends what it creates. */
  lemma MidwayStep(rules: seq<Rule>, i: nat, ev: Evaluator)
    requires i < |rules| && forall j | 0 <= j <= i :: ExpandRule(rules[j], ev).Ok?
    ensures i < |Midway(rules, i, ev)| && Midway(rules, i, ev)[i] == rules[i]
    ensures var res := ExpandRule(rules[i], ev).value;
      Midway(rules, i, ev)[i := res.0] + res.1 == Midway(rules, i + 1, ev)
  {
    var res := ExpandRule(rules[i], ev).value;
    var a := Rewritten(rules, i, ev);
    var c := Created(rules, i, ev);
    var m := Midway(rules, i, ev);
    assert m[i] == rules[i];
    assert Rewritten(rules, i + 1, ev) == a + [res.0];
    assert m[i := res.0] == a + [res.0] + rules[i + 1..] + c;
  }

  lemma {:induction false} WalkFirstPass(rules: seq<Rule>, i: nat, fuel: nat, ev: Evaluator)
    requires i <= |rules| && forall j | 0 <= j < |rules| :: ExpandRule(rules[j], ev).Ok?
    requires fuel >= |rules| - i
    ensures Walk(Midway(rules, i, ev), i, fuel, ev) ==
      Walk(Midway(rules, |rules|, ev), |rules|, fuel - (|rules| - i), ev)
    decreases |rules| - i
  {
    if i < |rules| {
      MidwayStep(rules, i, ev);
      WalkFirstPass(rules, i + 1, fuel - 1, ev);
    }
  }

  /**
   * A whole root, given one visit per rule and per created rule: every rule is
   * replaced in place by its expansion, and the created rules follow, in the
   * order of the rules that created them.
   */
  lemma WalkThemedRoot(rules: seq<Rule>, fuel: nat, ev: Evaluator)
    requires forall j | 0 <= j < |rules| :: ExpandRule(rules[j], ev).Ok? && CreatesUnthemed(rules[j], ev)
    requires fuel >= 2 * |rules|
    ensures Walk(rules, 0, fuel, ev) == Done(Rewritten(rules, |rules|, ev) + Created(rules, |rules|, ev))
  {
    var n := |rules|;
    assert Midway(rules, 0, ev) == rules;
    WalkFirstPass(rules, 0, fuel, ev);
    var created := Created(rules, n, ev);
    var m := Midway(rules, n, ev);
    assert m == Rewritten(rules, n, ev) + created;
    CreatedShape(rules, n, ev);
    assert forall j | n <= j < |m| :: m[j] == created[j - n];
    WalkPlainRoot(m, n, fuel - n, ev);
  }
}
