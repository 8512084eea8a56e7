# themify, modelled in Dafny

themify is a PostCSS plugin for colour themes. A stylesheet writes a colour as a
`themify(...)` macro whose argument is JSON mapping each variation (`dark`, `light`)
to a palette colour name, optionally with an alpha:
`color: themify({"light": "primary-100", "dark": ["primary-700", 0.5]})`.

The plugin runs in two passes. The first pass (`processRules`) has two effects:

- It rewrites every themed declaration to the default (`light`) variation, as a CSS
  custom-property reference.
- For each other variation it either adds a prefixed selector to the rule (when the
  value is the same there) or appends a separate variant rule.

For legacy browsers (`screwIE11: false`), the second pass (`processFallbackRules`)
collects destination rules outside the tree:

- plain colours for a fallback CSS file;
- `%[variation, name, alpha]%` placeholder tokens, per variation, for a JSON file.

In the browser, `handleUnSupportedBrowsers` replaces those tokens with the colours of
a custom theme deep-merged into the palette (`mergeDeep`). A second plugin
(`initThemify`) prepends the palette's CSS variables (`generateVars`).

## Modules

- `base.dfy`, `Base`: `Option`, `Result` and one `Error` constructor per exception
  message of the code.
- `strings.dfy`, `Strings`: the string operations the code uses:
  - `indexOf`;
  - `replace` with a string, and with a character class;
  - `split`, `join`;
  - decimal printing.
- `js.dfy`, `Js`: JSON values. An object is an ordered list of entries, read by the
  first matching key (`Get`) and assigned in place (`Put`).
- `colors.dfy`, `Colors`:
  - `hexToRGB`, with `parseInt(·, 16)` modelled in full;
  - `normalizeRgb`, `normalizeColor`, `isHex`, `isRgb`;
  - `getRgbaNumbers`.
- `macro.dfy`, `Macro`:
  - options and variations;
  - the tokenizer of `/themify\(([^)]+)\)/gi`;
  - `normalize`, `translateColor`, `getThemifyValue`;
  - the rule helpers: `hasThemify`, `createRuleWithVariation`, `getSelectorName`,
    `cloneEmptyRule`.
- `expander.dfy`, `Expander`: `processRules`. The root is a class `Root` whose rule
  list the walk rewrites. The walk's callbacks are methods proved equal to a
  specification fold. The fold is then characterised outright.
- `fallback.dfy`, `Fallback`: `processFallbackRules`. The methods are proved equal to
  folds. The folds are proved equal to a reference description of what each rule adds.
- `vars.dfy`, `Vars`: `generateVars`.
- `runtime.dfy`, `Runtime`:
  - `generateNewVariables`;
  - `mergeDeep`, as a class `JsObject` whose value is merged in place;
  - the token scanner of `/%\[(.*?)\]%/gi`;
  - `handleUnSupportedBrowsers`.

  Its module `RuntimeExamples` holds the runtime tests' custom-theme examples.
- `plugin.dfy`, `Plugin`: the `themify` and `init` plugin entry points.
- `roundtrip.dfy`, `RoundTrip`: the build and the browser agree. A DYNAMIC_EXPRESSION
  token, decoded in the browser against the palette, equals the CSS_COLOR output.

## Choices worth knowing when reading the model

- JavaScript objects whose key order is observable are lists of entries: the palette,
  a custom theme, parsed JSON.
- `JSON.parse` is a parameter `parse: string -> Option<Json>`, with `None` where it
  throws. JSON numbers are kept as their printed text.
- `rule.toString()` is the parameter `serialize`. `postcss.parse` is the parameter
  `parseCss`. `JSToSass(pallete)` is the parameter `sass`.
- postcss's `walkRules` also visits rules appended during the walk, and
  `processRules` appends such rules. So `Walk` carries a `fuel` bound on the number of
  visits. `WalkPlainRoot` shows that the walk finishes with the fuel of one visit per
  rule when no declaration is themed. `WalkThemedRoot` shows that two visits per rule
  are enough when the rules the walk creates have no themed declaration. Then every rule
  is rewritten in place and the created rules follow, in order.
- `processFallbackRules` holds its destination rules by reference. The model holds
  them by their index in the output's lists, kept in `ruleModeMap`.
  - `Good` states that every recorded index names an existing rule.
  - `ModeStepGood`, `ModesFoldGood` and `DeclStepGood` prove the walk keeps `Good`.
  - So `AddTo`'s guard against an index that names no rule is never taken.
- Several heavy functions are passed as function-valued parameters so proofs about
  the surrounding layout do not unfold them. Each entry point passes the real one:
  - `Evaluator.values`, for `getThemifyValue`;
  - `numbers`, for `getRgbaNumbers`;
  - `normalize`, for `normalizeColor`;
  - `decode`, for the token callback;
  - `block`, for a palette entry's CSS block;
  - `text`, for one variation's recoloured fallback text.
- The code pushes each rule's CSS_COLOR destinations in `variationValues` order, and
  that order is `dark` then `light`. So the fallback CSS has the dark rule first
  (`FallbackRuleSpec`).

## Model

| member | source | states |
|---|---|---|
| Colors.NormalizeColor | src/utils.ts:157-167 | a colour with '#' becomes its three decimal channels; otherwise one with `rgb` is unwrapped by normalizeRgb; any other colour is returned unchanged |
| Colors.NormalizeRgbUnwraps | src/utils.ts:148-150 | normalizeRgb of `rgb(t)` is `t` when `t` has no ')' |
| Colors.NormalizeHexRgb | src/utils.ts:148-150 | normalizeRgb undoes hexToRGB without alpha: it gives back exactly the three channels |
| Colors.ParseTwoHexDigits | src/utils.ts:194-196 | `parseInt` in base 16 of two hexadecimal digits is the byte they spell |
| Colors.HexColorChannels | src/utils.ts:193-201 | each channel hexToRGB reads from a well-formed `#RRGGBB` colour is the byte of its digit pair |
| Colors.FormatHexChannels | src/utils.ts:194-196 | the channels read from the `#rrggbb` spelling of three bytes are those bytes (decoder inverts encoder) |
| Colors.TripleOfFormatHex | src/utils.ts:193-201 | the printed channels of the `#rrggbb` spelling of three bytes are those bytes in decimal |
| Colors.HexToRgbOfFormatHex | src/utils.ts:193-201 | hexToRGB of a spelled colour prints its bytes: `rgba(r, g, b, a)` with a truthy alpha, `rgb(r, g, b)` with none or an empty one |
| Colors.GetRgbaNumbers | src/themify.ts:95-99 | the `rgba(…, 1)` form with `rgba(` and `, 1)` removed is exactly the three channels |
| Colors.StripRgbaPrefix | src/themify.ts:97 | removing the first `rgba(` from the alpha-1 form leaves the channels followed by `, 1)` |
| Colors.StripAlphaSuffix | src/themify.ts:98 | removing the first `, 1)` from that leaves the channels, which hold no `)` |
| Macro.BuildOptions | src/themify.ts:63-74 | fails with the options error exactly when there are no options, with the palette error exactly when the palette is missing, and otherwise succeeds with each user option over its default (createVars true, prefix empty, screwIE11 true) |
| Macro.Without | src/themify.ts:106 | the filtered list holds exactly the elements other than the excluded one |
| Macro.NonDefaultIsFiltered | src/themify.ts:100-106 | the non-default variations are the variations with the default filtered out |
| Macro.MatchEndSpec | src/themify.ts:111 | the match end found is a match of `themify\(([^)]+)\)` (any letter case, a non-empty argument without ')'), and none is found exactly when there is no match |
| Macro.TokenizeRoundTrip | src/themify.ts:111 | the scan of the global pattern loses nothing: its pieces spell the value again |
| Macro.TokenizeWellFormed | src/themify.ts:111 | every call the scan reports is a genuine match of the pattern |
| Macro.TokenizeWithoutParen | src/themify.ts:111 | a value with no '(' is all text and no call |
| Macro.TokenizeCall | src/themify.ts:111 | a value starting with the keyword in any case, `(`, a non-empty argument without ')' and `)` is read as that one call, and the scan resumes right after the `)` |
| Macro.TokenizePrefix | src/themify.ts:111 | text in which no `themify(` starts, in any case, in front of a value whose first seven characters are not '(' is kept as text, character by character; it may hold '(', as `linear-gradient(to right, ` does |
| Macro.TokenizeFirstCall | src/themify.ts:111 | text in which no call starts, then a call, is read as that text followed by the call and the scan of the rest |
| Macro.ParenFreeHasNoCall | src/themify.ts:111 | text without '(' holds no start of a match |
| Macro.TokenizeWithoutCall | src/themify.ts:111 | text in which no call starts is all text and no call |
| Macro.GradientHeadHasNoCall | src/themify.ts:111 | no call starts in `linear-gradient(to right, `, although it holds a '(' |
| Macro.TokenizeTwoCalls | src/themify.ts:111 | two calls with call-free text before, between and after them are read as exactly those two calls and that text |
| Macro.NormalizeSpec | src/themify.ts:146-170 | normalize fails to parse exactly when JSON.parse throws; it throws "has one variation" exactly when the variation's entry is missing or falsy; it throws "empty color" exactly when the array form is empty or starts falsy; a bare value becomes the pair of it and 1; an array gives its first two items |
| Macro.PaletteColorSpec | src/themify.ts:195-199 | the palette lookup throws a TypeError exactly when the variation has no colour map; it succeeds exactly when the name has a non-empty colour, and then returns that colour; otherwise it fails naming the variable |
| Macro.TranslateFailsAlike | src/themify.ts:192-199 | translateColor fails exactly when the palette lookup does, with its error, and identically in every mode |
| Macro.TranslateModes | src/themify.ts:201-216 | CSS_VAR gives `rgba(var(--name), alpha)`; DYNAMIC_EXPRESSION gives `%[variation, name, alpha]%`; CSS_COLOR with an alpha other than '1' gives `rgba(channels, alpha)` |
| Macro.CssColorRawIff | src/themify.ts:202-209 | for a '#' palette colour, CSS_COLOR returns the raw palette colour if and only if the alpha is the string '1' (the number 1 of a bare name does not count) |
| Macro.CssColorIsHexToRgb | src/themify.ts:207-209 | CSS_COLOR with any other non-empty alpha is hexToRGB of the palette colour with that alpha |
| Macro.RemoveQuotes | src/themify.ts:143 | the result holds no single quote, and every other character as often as the value does |
| Macro.RemoveQuotesPiecewise | src/themify.ts:143 | quote removal works character by character: a quote is dropped and any other character is kept, so the order of the kept characters is the value's |
| Macro.RenderConcat | src/themify.ts:175-180 | replacement is piecewise: each macro call is translated independently and the leftmost failing call decides the error |
| Macro.RenderText | src/themify.ts:175 | text outside macro calls is kept unchanged |
| Macro.NoCallKeepsText | src/themify.ts:141-184 | a value without '(' comes out as itself minus its quotes, in every variation and mode |
| Macro.RenderFirstCall | src/themify.ts:175-180 | text, then a call, then more pieces: the text, then the call's translation, then the rest, the first failure winning |
| Macro.ApplyCall | src/themify.ts:141-184 | the first call of the quote-stripped value, after text in which no call starts (it may hold other functions' parentheses), is replaced by the translation of its own argument, with the text before it kept and the rest replaced in turn; the call's failure comes before the rest's |
| Macro.ApplySingleCall | src/themify.ts:141-184 | a value with one call, and no other call starting before or after it, becomes the text before the call, the call's translation and the text after it; if the translation throws, that is the error |
| Macro.RenderWithoutCall | src/themify.ts:175 | text in which no call starts renders as itself |
| Macro.ApplyTwoCalls | src/themify.ts:141-184 | both calls of a value with two calls are replaced independently by their own translations and the text around them is kept; otherwise the first call's error, then the second's |
| Macro.ApplyGradient | __tests__/utils.spec.ts:21-22 | `linear-gradient(to right, themify(…), themify(…))`, whose translations the tests' fallback text shows, becomes the gradient with each call's translation in its place |
| Macro.RenderWithoutParen | src/themify.ts:175 | text without '(' renders as itself |
| Macro.MapVariationsSpec | src/themify.ts:172-181 | the per-variation map succeeds iff every variation does, then maps each variation to its value and has exactly the variations as keys; otherwise it fails with the first failing variation's error |
| Macro.ThemifyValueSpec | src/themify.ts:141-184 | getThemifyValue gives one entry per variation, each the quote-stripped value with every call replaced, and fails with dark's error before light's |
| Macro.SameColorsSameCssVar | src/themify.ts:213-215 | CSS_VAR output does not depend on the variation: when every call names the same colour for dark and light, both renderings agree |
| Macro.PrefixSelectors | src/themify.ts:395-401 | one selector per input selector, each behind `.prefix+variation ` |
| Macro.SelectorNameSplits | src/themify.ts:395-403 | the comma-joined selector name splits back into exactly the prefixed selectors (no commas in the parts) |
| Macro.CreateRuleWithVariation | src/themify.ts:385-388 | an empty rule with one prefixed selector per selector of the rule |
| Expander.VariationStep | src/themify.ts:245-267 | a variation step keeps every recorded variant rule index valid and leaves the declarations alone |
| Expander.DeclStep | src/themify.ts:234-269 | a declaration step that succeeds keeps the walk state valid and the declaration count |
| Expander.WalkDecl | src/themify.ts:234-269 | the `walkDecls` callback computes exactly the declaration step |
| Expander.DeclsFoldFailureSticks | src/themify.ts:234-269 | once a declaration throws, later declarations do not change the outcome |
| Expander.ProcessRule | src/themify.ts:225-279 | the `walkRules` callback's loop computes exactly the rule expansion |
| Expander.ResolveAllSpec | src/themify.ts:234-243 | the declarations' variation values succeed iff each declaration's does, and otherwise give the first failure |
| Expander.DeclsFoldIsSummary | src/themify.ts:234-269 | the declaration walk is the summary of the declarations' values: themed ones replaced, dark selectors aggregated once, one dark rule collecting the differing values |
| Expander.ExpandRuleSpec | src/themify.ts:224-280 | each themed declaration takes its light value in place; the dark selector is aggregated once iff some dark value equals its light one; exactly one dark rule holds every differing dark declaration in order, and none if there is none; errors are the first declaration's |
| Expander.ExpandPlainRule | src/themify.ts:236-237 | a rule with no themed declaration is left as it is and creates nothing |
| Expander.Root.constructor | src/themify.ts:124 | the root holds the given rules |
| Expander.Root.ProcessRules | src/themify.ts:224-280 | the walk over the root (created rules appended and visited in turn) computes `Walk`, and the root holds its rules unless a declaration threw |
| Expander.WalkPlainRoot | src/themify.ts:224-280 | rules from some index on with no themed declaration are left unchanged, with one visit each |
| Expander.CreatesAtMostOne | src/themify.ts:258-262 | a rule creates at most one rule, the dark variation's |
| Expander.CreatedShape | src/themify.ts:275-278 | the rules created by the first n rules are at most n, and have no themed declaration when no created rule of any rule has one |
| Expander.MidwayStep | src/themify.ts:225-275 | visiting a rule rewrites it in place and appends the rules it creates to the end of the root |
| Expander.WalkFirstPass | src/themify.ts:224-280 | the walk over the original rules rewrites each one in place and appends each one's created rules, in order |
| Expander.WalkThemedRoot | src/themify.ts:224-280 | when every rule expands without throwing and creates no themed rule, two visits per rule suffice, and the root ends as every rule replaced by its expansion followed by all created rules in the order of the rules that created them |
| Fallback.NewDest | src/themify.ts:317-321 | a freshly created destination has no declaration |
| Fallback.CreateModeDests | src/themify.ts:313-333 | the lazy creation loop pushes one destination per variation onto that mode's list and records where |
| Fallback.AppendModeDecls | src/themify.ts:338-342 | the declaration is appended to each variation's destination of the mode |
| Fallback.FallbackMode | src/themify.ts:311-342 | one `execModes` callback computes exactly the mode step |
| Fallback.FallbackDecl | src/themify.ts:305-344 | one `walkDecls` callback computes exactly the declaration step; unthemed declarations are skipped |
| Fallback.FallbackRule | src/themify.ts:302-345 | one `walkRules` callback, starting from an empty `ruleModeMap`, computes exactly the rule fold |
| Fallback.ProcessFallbackRules | src/themify.ts:290-366 | the walk from empty per-variation lists either throws the first error of the fold or emits exactly what the fold's output gives |
| Fallback.CreateDestsGood | src/themify.ts:313-333 | lazy creation keeps every recorded destination valid and records one per variation |
| Fallback.ModeStepGood | src/themify.ts:311-342 | a mode step keeps every recorded destination valid |
| Fallback.ModesFoldGood | src/themify.ts:311-343 | so do both modes of a declaration |
| Fallback.DeclStepGood | src/themify.ts:305-344 | so does a declaration step |
| Fallback.RuleFoldFailureSticks | src/themify.ts:305-344 | once a declaration throws, later declarations do not change the outcome |
| Fallback.RulesFoldFailureSticks | src/themify.ts:302-345 | once a rule throws, later rules do not change the outcome |
| Fallback.ResolveFallbackSpec | src/themify.ts:305-336 | the declarations' fallback values succeed iff each one does, otherwise the first failure, CSS_COLOR before DYNAMIC_EXPRESSION |
| Fallback.CssStep | src/themify.ts:311-342 | the CSS_COLOR pass creates the rule's two destinations once and appends the declaration to both |
| Fallback.DynStep | src/themify.ts:311-342 | the DYNAMIC_EXPRESSION pass creates one destination per variation's list once and appends the declaration to both |
| Fallback.RuleFoldIsSummary | src/themify.ts:305-344 | the declaration walk over a rule is the placement of its fills, or the first failure |
| Fallback.FallbackRuleSpec | src/themify.ts:302-345 | a rule adds nothing unless a declaration is themed; otherwise it adds the dark CSS_COLOR destination (prefixed) and then the light one (an empty clone), plus one destination on each dynamic list, each collecting one declaration per themed declaration in order; errors are the first failure |
| Fallback.ModeDeclsProps | src/themify.ts:338-342 | every destination of a rule holds the same properties, those of its themed declarations in order |
| Fallback.RulesFoldIsReference | src/themify.ts:302-345 | the whole walk equals the rule-by-rule reference placement |
| Fallback.AnyThemedIff | src/themify.ts:305-307 | a rule gets destinations iff one of its declarations is themed |
| Fallback.ReferenceShape | src/themify.ts:290-345 | the output has exactly the two dynamic lists; each themed rule contributes two CSS_COLOR destinations and one per dynamic list, so at most one per (rule, mode, variation) |
| Fallback.Emit | src/themify.ts:347-365 | files are written iff the CSS_COLOR list is non-empty; the CSS is the joined CSS_COLOR rules; the JSON holds each variation in order with its joined dynamic rules stripped of line breaks |
| Vars.VariantRulesUnderVarsBlock | src/themify.ts:385-403 | every selector of a dark rule, whether created or aggregated, is the selector of the dark variables block (src/themify.ts:452), a space, and the original selector |
| Vars.VarDecls | src/themify.ts:463-467 | one `--name: channels;` per colour, in key order |
| Vars.VarsFoldOk | src/themify.ts:451-458 | the fold succeeds iff every variation has a colour map |
| Vars.VarsFoldFails | src/themify.ts:455-458 | a failure names the first variation without a colour map |
| Vars.VarsFoldBlocks | src/themify.ts:451-473 | otherwise the output is each variation's block in palette order, and nothing else |
| Vars.VarsFoldFailureSticks | src/themify.ts:451-458 | once a variation throws, later variations do not change the outcome |
| Vars.GenerateVars | src/themify.ts:446-478 | the loop throws the fold's error, or returns its blocks followed by the `$pallete` Sass statement |
| Vars.VarDeclOfHex | src/themify.ts:463-466 | the custom property of a six-digit colour lists its three bytes in decimal |
| Runtime.VariationOutputDecls | src/utils.ts:63-66 | a variation's output is one declaration per variable in key order, and nothing else |
| Runtime.NewVariablesBlocks | src/utils.ts:56-70 | the output is one block per theme variation in key order, and nothing else |
| Runtime.NewVariablesConcat | src/utils.ts:56-70 | the output of two themes side by side is the two outputs side by side |
| Runtime.MergeEntriesGet | src/utils.ts:213-222 | after the key loop, each source key has its merged value and every other key keeps the target's |
| Runtime.MergeSpec | src/utils.ts:209-225 | a non-object side changes nothing; an absent key keeps the target's value; a non-object value overwrites; an object value merges into the target's truthy value or into a new `{}`; a truthy non-object target value stays and the source subtree is dropped |
| Runtime.PutPut | src/utils.ts:216-217 | assigning `{}` and then the merge result to one key is assigning the merge result |
| Runtime.JsObject.constructor | src/utils.ts:209 | the object holds the given value |
| Runtime.JsObject.MergeDeep | src/utils.ts:209-225 | the target is changed in place to the sources merged in one after another |
| Runtime.JsObject.MergeObject | src/utils.ts:213-222 | the key loop changes the target in place to the merge of the source into it |
| Runtime.CloseAt | src/utils.ts:124 | the lazy body closes at the first `]%`, with no line terminator before it, or not at all |
| Runtime.CloseAtNone | src/utils.ts:124 | when it does not close, every later `]%` is behind a line terminator |
| Runtime.CloseAtFirst | src/utils.ts:124 | the body closes at the first `]%` reached without crossing a line terminator |
| Runtime.ChunksRoundTrip | src/utils.ts:124-128 | the scan of the global pattern loses nothing: its chunks spell the text again |
| Runtime.ChunksWithoutPercent | src/utils.ts:124-128 | a text with no '%' has no token |
| Runtime.TokenChunk | src/utils.ts:124-128 | a token whose body has no `]` and no line terminator is read as one token, whatever follows |
| Runtime.TokenFieldsOf | src/utils.ts:129 | a body `v, name, a` of plain fields destructures into those three fields |
| Runtime.RenderChunksConcat | src/utils.ts:128-133 | substitution is piecewise, and the leftmost token that throws decides the error |
| Runtime.SubstitutePlain | src/utils.ts:128 | text without '%' is unchanged |
| Runtime.SubstituteToken | src/utils.ts:128-133 | the text before a token is kept, the token is replaced by its own decoding, and the rest is substituted in turn |
| Runtime.MergedColor | src/utils.ts:125-130 | in the merged palette a colour is the custom theme's own when it has one, and otherwise the palette's |
| Runtime.RecolorOk | src/utils.ts:127-136 | the reduce succeeds iff every custom-theme variation's text does |
| Runtime.RecolorFails | src/utils.ts:127-136 | otherwise it throws the error of the first variation that throws |
| Runtime.RecolorValue | src/utils.ts:127-136 | the output is the custom theme's variations' recoloured texts, in its key order, and nothing else |
| Runtime.HandleUnSupportedBrowsers | src/utils.ts:123-140 | the palette is merged with the custom theme in place, and the result is the recolouring of each custom variation's fallback text against the merged palette |
| RuntimeExamples.Purple | __tests__/utils.spec.ts:3-7 | `#c333d3` normalises to `195, 51, 211` |
| RuntimeExamples.Red | __tests__/utils.spec.ts:8-10 | `#ff0000` normalises to `255, 0, 0` |
| RuntimeExamples.WhitelabelLayout | __tests__/utils.spec.ts:28-36 | the tests' themes lay out as expected for any normaliser giving the tests' channels |
| RuntimeExamples.WhitelabelVariables | __tests__/utils.spec.ts:28-36 | generateNewVariables gives exactly the tests' expected texts for the two-variation and the dark-only theme |
| RoundTrip.OverrideSelectorMatchesBuild | src/utils.ts:68 | the browser's override block for a variation has the selector of the build's variables block (src/themify.ts:452) if and only if the variation is light or the class prefix is empty |
| RoundTrip.PaletteJsonColor | src/utils.ts:130 | a palette colour is found in the palette's object under its variation and name |
| RoundTrip.TokenDecodes | src/utils.ts:128-132 | a token of clean fields substitutes to the callback on exactly those fields |
| Runtime.ArrayColorPrintsNaN | src/utils.ts:193-201 | an array colour such as `["#c333d3"]` does not throw: its slices past the first item are empty, so it prints `rgba(NaN, NaN, NaN, alpha)` |
| RoundTrip.DecodeFieldsFound | src/utils.ts:129-131 | the callback gives hexToRGB of the colour found: of its text for a string, of the array's slices for an array, and a TypeError for any other colour, which has no `slice` |
| RoundTrip.DynamicDecodesToCssColor | src/themify.ts:201-212 | for an alpha other than '1', the DYNAMIC_EXPRESSION token, substituted in the browser against the build's palette, is exactly the CSS_COLOR output |
| RoundTrip.MergedPaletteColor | src/utils.ts:125-130 | in the palette merged with a custom theme, a colour is the theme's when it has one and the palette's otherwise |
| RoundTrip.DynamicDecodesWithTheme | src/utils.ts:123-140 | with a custom theme merged in, a token takes the theme's colour when it has one (decoded from its text for a string, from its slices for an array, and throwing otherwise) and otherwise again matches CSS_COLOR |
| Js.PutKeepsKeys | src/utils.ts:219 | assigning an existing key keeps every key in its place |
| Js.PutAppends | src/utils.ts:216 | assigning a new key appends it, the place JavaScript gives a new key that is not an array index |
| Js.PutDistinct | src/utils.ts:216-219 | assignment keeps an object's keys distinct |
| Plugin.Themify | src/themify.ts:108-132 | options are built first and may throw; the fallback is computed from the original rules only when screwIE11 is false, and its throw stops the run before any rule changes; then the rules are rewritten by the walk |
| Plugin.InitThemify | src/themify.ts:417-426 | options are built; generateVars either throws, leaving the root alone, or its parsed output is prepended to the root's rules |

## Left out

- DOM and network operations are not modelled because they have no model here:
  - `loadScript`, `loadCSS`, `injectStyle`;
  - `hasNativeCSSProperties`;
  - `loadCSSVariablesFallback` and its cached JSON fetch;
  - `replaceColors`.

  `HandleUnSupportedBrowsers` returns the text `injectStyle` would receive.
- `writeToFile` and the two asynchronous fallback writes are left out. `Emit` returns
  the CSS file's text and the entries of the JSON object instead.
- Fallback.Emit: `JSON.stringify` of that object (src/themify.ts:362) is not modelled. The
  model stops at the object's entries, in variation order.
- postcss's own behaviour is not modelled:
  - the rule tree, nesting, at-rules, selector parsing;
  - `rule.toString()` and `postcss.parse`, which are parameters.

  Rules are a flat list of selector lists and declarations.
- `JSToSass` is the opaque parameter `sass`.
- `JSON.parse` is a parameter. Floating-point numbers are not interpreted: a JSON
  number is its printed text.
- Expander.Walk, Expander.Root.ProcessRules, Plugin.Themify: the visits of `walkRules` are
  bounded by `fuel`. The source has no bound. A root whose created rules keep
  spawning rules is reported as `OutOfFuel` rather than looping.
- `createVars` is kept in the options but nothing in the modelled code reads it.
- Colors.GetRgbaNumbers: the `hex-to-rgba` library behind `getRgbaNumbers` is modelled
  by the same six-digit slice decoder as `hexToRGB`. Its 3-, 4- and 8-digit forms are
  not modelled, nor its six-digit colours without '#': the library strips an optional
  leading '#', so `c333d3` gives `195, 51, 211` there, while the model reads the slices
  from index 1 and gives `51, 61, 3`. This reaches `generateVars` (src/themify.ts:465)
  and CSS_COLOR with an alpha other than '1' (src/themify.ts:208).
- Macro.PaletteColor: a palette variation that is present but is a falsy or
  non-object value other than `null`/`undefined` is not represented. A colour map is
  either absent (reading from it throws) or a list of string colours. Names inherited
  from `Object.prototype` (`toString`, `constructor`, ...) are read as missing. In the
  source they are truthy, so `themify({"light": "toString", "dark": "toString"})` in
  CSS_VAR mode gives `rgba(var(--toString), 1)` there and an error here.
- Macro.PaletteColorSpec: its "fails naming the variable" case covers names inherited
  from `Object.prototype`, for which the source's lookup at src/themify.ts:195 finds a
  truthy value and does not throw.
- Js.Put: keys are taken to be strings that are not array indices. JavaScript lists
  array-index keys such as `"100"` first, in ascending order, ahead of the other keys in
  creation order; so `Object.assign(target, {"100": {}})` (src/utils.ts:216) puts `"100"`
  first, where `Put` appends it. Js.PutAppends, Runtime.JsObject.MergeDeep and
  Runtime.JsObject.MergeObject append such keys too, so the entry order they state
  differs from the source's whenever a custom theme adds an array-index key.
- Js.PutAppends: holds in the source only for a new key that is not an array index.
- Runtime.JsObject.MergeObject: the entry order it states is the source's only when every
  key the source adds is not an array index.
- Runtime.HandleUnSupportedBrowsers: the merged palette's entry order is the source's only
  when the custom theme adds no array-index key; the recoloured text does not depend on it.
- Js.Get: a key absent from an object's own entries reads as `undefined`, also when the
  key names a property inherited from `Object.prototype`.
- Runtime.DecodeFields: reading a property of a string or array (for example,
  `length`) is modelled as `undefined`.
- Runtime.JsObject.MergeDeep: the merge builds a new value for each nested object.
  Aliasing between the target's nested objects and other references is not captured.
  `for … in` over inherited keys is not modelled. `!target[key]` (src/utils.ts:216) is
  false in the source for a key inherited from `Object.prototype`, such as `toString`.
  The model reads that key as missing and merges into a new `{}`. A new array-index key
  is appended (see Js.Put), where the source lists it first.
- Runtime.MergeEntries: the same reading of inherited keys as missing applies.
- A throw leaves the state as it was at the throw in the source; the model returns the
  error and states nothing more about partly changed state.
- RoundTrip.DynamicDecodesToCssColor: the round trip is proved for token fields that
  read back as written, that is, with no white space, comma or `]`, and for an alpha
  that prints non-empty. Other fields are split or stripped by the browser's callback
  and do not round-trip.
- RoundTrip.DynamicDecodesWithTheme: the same clean-field condition applies to its
  tokens.
- RoundTrip.DynamicDecodesToCssColor: the build side uses the `hex-to-rgba` library and
  the browser side uses `hexToRGB`. The model decodes both with the six-digit slice
  decoder. So in the source the round trip holds only for six-digit `#rrggbb` palette
  colours. The two differ for `#fff` with alpha 0.5, for colours without `#`, and for
  4- and 8-digit forms.
- RoundTrip.DynamicDecodesWithTheme: the same six-digit-only caveat applies to it.
- The full `fallbackJSON` example of the runtime tests is not proved; only the
  `generateNewVariables` examples are. It depends on a palette of many colours and on
  white-space removal of the whole output.
