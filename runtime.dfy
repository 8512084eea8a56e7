/**
 * The browser side of src/utils.ts: the CSS variables a custom theme
 * overrides (`generateNewVariables`), the deep merge of a custom theme into
 * the palette (`mergeDeep`), and the fallback for browsers without CSS
 * variables (`handleUnSupportedBrowsers`), which replaces every `%[...]%`
 * token the build left in the fallback CSS by the colour it names.
 */
module Runtime {
  import opened Base
  import opened Strings
  import opened Js
  import opened Colors
  import opened Macro

  // ---------------------------------------------------------------- generateNewVariables

  /** A `Theme`: for each variation, in key order, its variables and their colours. */
  type Theme = seq<(string, seq<(string, string)>)>

  /** `:root` for the light variation, `.variation` otherwise (no class prefix here). */
  function ThemeSelector(v: string): (r: string)
    ensures v == Light ==> r == ":root"
    ensures v != Light ==> r == "." + v
  {
    if v == Light then ":root" else "." + v
  }

  /**
   * `--variable: value;` with the colour normalised by `normalize` (the page
   * uses normalizeColor; it is a parameter so that reasoning about the layout
   * does not unfold the colour decoder).
   */
  function ColorVar(variable: string, color: string, normalize: string -> string): string
  {
    "--" + variable + ": " + normalize(color) + ";"
  }

  /** The inner reduce: the declarations of the first `n` variables. */
  function VariationOutput(colors: seq<(string, string)>, normalize: string -> string, n: nat): string
    requires n <= |colors|
  {
    if n == 0 then "" else VariationOutput(colors, normalize, n - 1) + ColorVar(colors[n - 1].0, colors[n - 1].1, normalize)
  }

  /** `${selector}{${variationOutput}}` for one variation. */
  function ThemeBlock(v: string, colors: seq<(string, string)>, normalize: string -> string): string
  {
    ThemeSelector(v) + "{" + VariationOutput(colors, normalize, |colors|) + "}"
  }

  /** The outer reduce: the blocks of the first `n` variations. */
  function NewVariables(theme: Theme, normalize: string -> string, n: nat): string
    requires n <= |theme|
  {
    if n == 0 then "" else NewVariables(theme, normalize, n - 1) + ThemeBlock(theme[n - 1].0, theme[n - 1].1, normalize)
  }

  /** `generateNewVariables(customTheme)`. */
  function GenerateNewVariables(theme: Theme): string
  {
    NewVariables(theme, NormalizeColor, |theme|)
  }

  /** The declarations of each variable, in key order. */
  function ColorVars(colors: seq<(string, string)>, normalize: string -> string): (r: seq<string>)
    ensures |r| == |colors|
    ensures forall i | 0 <= i < |colors| :: r[i] == ColorVar(colors[i].0, colors[i].1, normalize)
  {
    seq(|colors|, i requires 0 <= i < |colors| => ColorVar(colors[i].0, colors[i].1, normalize))
  }

  /** The block of each variation, in key order. */
  function ThemeBlocks(theme: Theme, normalize: string -> string): (r: seq<string>)
    ensures |r| == |theme|
    ensures forall i | 0 <= i < |theme| :: r[i] == ThemeBlock(theme[i].0, theme[i].1, normalize)
  {
    seq(|theme|, i requires 0 <= i < |theme| => ThemeBlock(theme[i].0, theme[i].1, normalize))
  }

  /** A variation's output is one declaration per variable, in key order, and nothing else. */
  lemma {:induction false} VariationOutputDecls(colors: seq<(string, string)>, normalize: string -> string, n: nat)
    requires n <= |colors|
    ensures VariationOutput(colors, normalize, n) == Concat(ColorVars(colors[..n], normalize))
  {
    if n > 0 {
      VariationOutputDecls(colors, normalize, n - 1);
      var ds := ColorVars(colors[..n], normalize);
      assert ds[..n - 1] == ColorVars(colors[..n - 1], normalize);
    }
  }

  /** The output is one block per variation of the theme, in key order, and nothing else. */
  lemma {:induction false} NewVariablesBlocks(theme: Theme, normalize: string -> string, n: nat)
    requires n <= |theme|
    ensures NewVariables(theme, normalize, n) == Concat(ThemeBlocks(theme[..n], normalize))
  {
    if n > 0 {
      NewVariablesBlocks(theme, normalize, n - 1);
      var bs := ThemeBlocks(theme[..n], normalize);
      assert bs[..n - 1] == ThemeBlocks(theme[..n - 1], normalize);
    }
  }

  lemma ThemeBlocksConcat(a: Theme, b: Theme, normalize: string -> string)
    ensures ThemeBlocks(a + b, normalize) == ThemeBlocks(a, normalize) + ThemeBlocks(b, normalize)
  {
    var ab := a + b;
    var xs, ys, zs := ThemeBlocks(a, normalize), ThemeBlocks(b, normalize), ThemeBlocks(ab, normalize);
    forall i | 0 <= i < |zs| ensures zs[i] == (xs + ys)[i] {
      if i < |a| { assert ab[i] == a[i]; } else { assert ab[i] == b[i - |a|]; }
    }
  }

  /** Themes concatenate: the variables of two themes side by side are the two outputs side by side. */
  lemma NewVariablesConcat(a: Theme, b: Theme, normalize: string -> string)
    ensures NewVariables(a + b, normalize, |a + b|) == NewVariables(a, normalize, |a|) + NewVariables(b, normalize, |b|)
  {
    var ab := a + b;
    NewVariablesBlocks(ab, normalize, |ab|);
    NewVariablesBlocks(a, normalize, |a|);
    NewVariablesBlocks(b, normalize, |b|);
    assert ab[..|ab|] == ab && a[..|a|] == a && b[..|b|] == b;
    ThemeBlocksConcat(a, b, normalize);
    ConcatAppend(ThemeBlocks(a, normalize), ThemeBlocks(b, normalize));
  }

  // ---------------------------------------------------------------- mergeDeep

  /** `isObject(value)`: `Object.prototype.toString` says `[object Object]` for plain objects only (not arrays, not null). */
  predicate IsObject(j: Json)
  {
    j.JObj?
  }

  /** What `target[key]` is merged into: itself when truthy, a fresh `{}` when it is falsy or missing. */
  function MergeBase(cur: Option<Json>): Json
  {
    if cur.Some? && Truthy(cur.value) then cur.value else JObj([])
  }

  /** The value `key` ends up with when the source gives it `v` and the target had `cur`. */
  function MergedValue(cur: Option<Json>, v: Json): Json
    decreases v, 2
  {
    if IsObject(v) then Merge(MergeBase(cur), v) else v
  }

  /**
   * `mergeDeep(target, source)` on values: when both are plain objects every
   * key of the source is merged into the target, in the source's key order;
   * otherwise the target is returned as it is.
   */
  function Merge(target: Json, source: Json): Json
    decreases source, 1
  {
    if IsObject(target) && IsObject(source) then JObj(MergeEntries(target.entries, source.entries, source))
    else target
  }

  /** The `for (const key in source)` loop over the entries `se`, all of them parts of `src`. */
  function MergeEntries(te: seq<(string, Json)>, se: seq<(string, Json)>, ghost src: Json): seq<(string, Json)>
    requires forall i | 0 <= i < |se| :: se[i].1 < src
    decreases src, 0, |se|
  {
    if se == [] then te
    else
      var key, v := se[0].0, se[0].1;
      MergeEntries(Put(te, key, MergedValue(Get(te, key), v)), se[1..], src)
  }

  /** `mergeDeep(target, ...sources)`: the sources merged in one after the other. */
  function MergeAll(target: Json, sources: seq<Json>): Json
    decreases |sources|
  {
    if sources == [] then target else MergeAll(Merge(target, sources[0]), sources[1..])
  }

  /** Each key of the loop gets its merged value; any other key keeps what the target had. */
  lemma {:induction false} MergeEntriesGet(te: seq<(string, Json)>, se: seq<(string, Json)>, src: Json, k: string)
    requires forall i | 0 <= i < |se| :: se[i].1 < src
    requires DistinctKeys(se)
    decreases |se|
    ensures Get(MergeEntries(te, se, src), k) ==
      if Get(se, k).None? then Get(te, k) else Some(MergedValue(Get(te, k), Get(se, k).value))
  {
    if se != [] {
      var key, v := se[0].0, se[0].1;
      var next := Put(te, key, MergedValue(Get(te, key), v));
      assert DistinctKeys(se[1..]);
      MergeEntriesGet(next, se[1..], src, k);
      if k == key {
        assert Get(se[1..], k).None?;
      }
    }
  }

  /**
   * Merging a source object into a target object (the keys of an object being
   * distinct): a key the source lacks keeps the target's value; a key whose
   * source value is not an object takes that value; a key whose source value
   * is an object is merged into the target's value, or into a new empty object
   * when the target's value is missing or falsy. When the target's value is
   * truthy but not an object, the merge leaves it as it is and the source's
   * subtree is dropped. Merging anything other than two objects changes nothing.
   */
  lemma MergeSpec(target: Json, source: Json, k: string)
    requires source.JObj? ==> DistinctKeys(source.entries)
    ensures !IsObject(target) || !IsObject(source) ==> Merge(target, source) == target
    ensures IsObject(target) && IsObject(source) ==>
      var cur, v := Get(target.entries, k), Get(source.entries, k);
      && Merge(target, source).JObj?
      && (v.None? ==> Get(Merge(target, source).entries, k) == cur)
      && (v.Some? && !IsObject(v.value) ==> Get(Merge(target, source).entries, k) == v)
      && (v.Some? && IsObject(v.value) && (cur.None? || !Truthy(cur.value)) ==>
            Get(Merge(target, source).entries, k) == Some(Merge(JObj([]), v.value)))
      && (v.Some? && IsObject(v.value) && cur.Some? && Truthy(cur.value) ==>
            Get(Merge(target, source).entries, k) == Some(Merge(cur.value, v.value)))
      && (v.Some? && IsObject(v.value) && cur.Some? && Truthy(cur.value) && !IsObject(cur.value) ==>
            Get(Merge(target, source).entries, k) == cur)
  {
    if IsObject(target) && IsObject(source) {
      MergeEntriesGet(target.entries, source.entries, source, k);
    }
  }

  /** The shape of a `Theme` object: each variation an object of colours that are not objects, keys distinct at both levels. */
  predicate ThemeShaped(theme: seq<(string, Json)>)
  {
    DistinctKeys(theme) &&
    (forall i | 0 <= i < |theme| :: theme[i].1.JObj? && DistinctKeys(theme[i].1.entries)) &&
    forall i, j | 0 <= i < |theme| && theme[i].1.JObj? && 0 <= j < |theme[i].1.entries| :: !IsObject(theme[i].1.entries[j].1)
  }

  /**
   * Looking a colour up in a palette with a custom theme merged in: the custom
   * theme's colour when it has one for that variation and name; otherwise the
   * palette's colour, when the palette's variation is an object (a missing or
   * falsy one becomes an empty object, where every colour is missing).
   */
  lemma MergedColor(palette: Json, custom: seq<(string, Json)>, v: string, name: string)
    requires palette.JObj? && ThemeShaped(custom)
    ensures var merged := Merge(palette, JObj(custom));
      var pv, cv := Get(palette.entries, v), Get(custom, v);
      && merged.JObj?
      && (cv.None? ==> Get(merged.entries, v) == pv)
      && (cv.Some? ==> Get(merged.entries, v).Some?)
      && (cv.Some? && (pv.None? || !Truthy(pv.value) || IsObject(pv.value)) ==>
            Get(merged.entries, v).value.JObj? &&
            Get(Get(merged.entries, v).value.entries, name) ==
              if Get(cv.value.entries, name).Some? then Get(cv.value.entries, name)
              else if pv.Some? && Truthy(pv.value) then Get(pv.value.entries, name)
              else None)
  {
    var merged := Merge(palette, JObj(custom));
    var pv, cv := Get(palette.entries, v), Get(custom, v);
    MergeSpec(palette, JObj(custom), v);
    if cv.Some? {
      var i :| 0 <= i < |custom| && custom[i] == (v, cv.value);
      assert cv.value.JObj? && DistinctKeys(cv.value.entries);
      var c := Get(cv.value.entries, name);
      if c.Some? {
        var j :| 0 <= j < |cv.value.entries| && cv.value.entries[j] == (name, c.value);
        assert !IsObject(custom[i].1.entries[j].1);
      }
      if (pv.None? || !Truthy(pv.value)) {
        MergeSpec(JObj([]), cv.value, name);
      } else if IsObject(pv.value) {
        MergeSpec(pv.value, cv.value, name);
      }
    }
  }

  /** Putting twice under one key is putting the second value. */
  lemma {:induction false} PutPut<V>(es: seq<(string, V)>, k: string, a: V, b: V)
    ensures Put(Put(es, k, a), k, b) == Put(es, k, b)
  {
    if es != [] && es[0].0 != k {
      PutPut(es[1..], k, a, b);
    }
  }

  /** A mutable JavaScript value, the way `mergeDeep` sees its target. */
  class JsObject {
    var value: Json

    constructor (v: Json)
      ensures value == v
    {
      value := v;
    }

    /** `mergeDeep(this, ...sources)`: the target is changed in place and returned. */
    method MergeDeep(sources: seq<Json>)
      modifies this
      ensures value == MergeAll(old(value), sources)
    {
      var i := 0;
      while i < |sources|
        invariant 0 <= i <= |sources|
        invariant MergeAll(old(value), sources) == MergeAll(value, sources[i..])
      {
        var source := sources[i];
        assert sources[i..][1..] == sources[i + 1..];
        if IsObject(value) && IsObject(source) {
          MergeObject(source);
        }
        i := i + 1;
      }
    }

    /** The body of `mergeDeep` once target and source are both objects: the loop over the source's keys. */
    method MergeObject(source: Json)
      requires IsObject(value) && IsObject(source)
      modifies this
      ensures value == Merge(old(value), source)
    {
      ghost var te := value.entries;
      var se := source.entries;
      var j := 0;
      while j < |se|
        invariant 0 <= j <= |se|
        invariant value.JObj?
        invariant MergeEntries(value.entries, se[j..], source) == MergeEntries(te, se, source)
      {
        var key, v := se[j].0, se[j].1;
        ghost var before := value.entries;
        assert se[j..][1..] == se[j + 1..];
        if IsObject(v) {
          var cur := Get(value.entries, key);
          if !(cur.Some? && Truthy(cur.value)) {
            value := JObj(Put(value.entries, key, JObj([])));
          }
          value := JObj(Put(value.entries, key, Merge(Get(value.entries, key).value, v)));
          PutPut(before, key, JObj([]), Merge(JObj([]), v));
        } else {
          value := JObj(Put(value.entries, key, v));
        }
        j := j + 1;
      }
    }
  }

  // ---------------------------------------------------------------- handleUnSupportedBrowsers

  /**
   * Where the lazy `(.*?)\]%` of `/%\[(.*?)\]%/gi` closes when the body
   * starts at `j`: the first `]%` reached before a line terminator (which
   * `.` does not match), or -1 when there is none.
   */
  function CloseAt(s: string, j: nat): (r: int)
    requires j <= |s|
    ensures r == -1 || (j <= r && OccursAt(s, "]%", r))
    ensures r >= 0 ==> forall k | j <= k < r :: s[k] !in LineTerminators && !OccursAt(s, "]%", k)
    decreases |s| - j
  {
    if OccursAt(s, "]%", j) then j
    else if j == |s| || s[j] in LineTerminators then -1
    else CloseAt(s, j + 1)
  }

  /** When there is no close, no `]%` is reached from `j` without crossing a line terminator. */
  lemma {:induction false} CloseAtNone(s: string, j: nat, e: nat)
    requires j <= |s| && CloseAt(s, j) == -1
    requires j <= e && OccursAt(s, "]%", e)
    ensures exists k | j <= k < e :: s[k] in LineTerminators
    decreases |s| - j
  {
    if s[j] !in LineTerminators {
      CloseAtNone(s, j + 1, e);
    }
  }

  /** The fallback CSS read as characters it keeps and the bodies of the tokens it replaces. */
  datatype Chunk = Char(c: char) | Token(body: string)

  /** Where a match of the token pattern starting at index 0 of `s` ends its body, if one does. */
  function TokenAt(s: string): (r: int)
    ensures r >= 0 ==> 2 <= r && r + 2 <= |s|
  {
    if OccursAt(s, "%[", 0) then CloseAt(s, 2) else -1
  }

  /** The matches of the global pattern, scanning left to right and resuming after each match. */
  function Chunks(s: string): seq<Chunk>
    decreases |s|
  {
    if s == [] then []
    else
      var e := TokenAt(s);
      if e >= 0 then [Token(s[2..e])] + Chunks(s[e + 2..])
      else [Char(s[0])] + Chunks(s[1..])
  }

  /** The text a chunk was read from. */
  function ChunkText(c: Chunk): string
  {
    match c
    case Char(ch) => [ch]
    case Token(b) => "%[" + b + "]%"
  }

  function Unchunk(cs: seq<Chunk>): string
  {
    if cs == [] then "" else ChunkText(cs[0]) + Unchunk(cs[1..])
  }

  lemma UnchunkCons(c: Chunk, cs: seq<Chunk>)
    ensures Unchunk([c] + cs) == ChunkText(c) + Unchunk(cs)
  {
    assert ([c] + cs)[1..] == cs;
  }

  /** A token spelled out again, followed by the rest of the text, is the text. */
  lemma TokenReassembles(s: string, e: int)
    requires s != [] && e == TokenAt(s) && e >= 0
    ensures ChunkText(Token(s[2..e])) + s[e + 2..] == s
  {
    assert s[..2] == "%[" && s[e..e + 2] == "]%";
    assert s == s[..2] + s[2..e] + s[e..e + 2] + s[e + 2..];
  }

  /** Scanning loses nothing: the chunks spell the text again. */
  lemma {:induction false} ChunksRoundTrip(s: string)
    ensures Unchunk(Chunks(s)) == s
    decreases |s|
  {
    if s != [] {
      var e := TokenAt(s);
      if e >= 0 {
        ChunksRoundTrip(s[e + 2..]);
        UnchunkCons(Token(s[2..e]), Chunks(s[e + 2..]));
        TokenReassembles(s, e);
      } else {
        ChunksRoundTrip(s[1..]);
        UnchunkCons(Char(s[0]), Chunks(s[1..]));
        assert [s[0]] + s[1..] == s;
      }
    }
  }

  /** A text with no `%` has no token: every character is kept. */
  lemma {:induction false} ChunksWithoutPercent(s: string)
    requires forall i | 0 <= i < |s| :: s[i] != '%'
    ensures Chunks(s) == seq(|s|, i requires 0 <= i < |s| => Char(s[i]))
    decreases |s|
  {
    if s != [] {
      assert !OccursAt(s, "%[", 0) by { assert s[0] != '%'; }
      assert TokenAt(s) == -1;
      assert Chunks(s) == [Char(s[0])] + Chunks(s[1..]);
      ChunksWithoutPercent(s[1..]);
      assert seq(|s|, i requires 0 <= i < |s| => Char(s[i])) ==
        [Char(s[0])] + seq(|s[1..]|, i requires 0 <= i < |s[1..]| => Char(s[1..][i]));
    }
  }

  /** A token whose body has no `]` and no line terminator is read as one chunk, whatever follows it. */
  lemma TokenChunk(body: string, rest: string)
    requires forall i | 0 <= i < |body| :: body[i] != ']' && body[i] !in LineTerminators
    ensures Chunks("%[" + body + "]%" + rest) == [Token(body)] + Chunks(rest)
  {
    var s := "%[" + body + "]%" + rest;
    assert s[..2] == "%[";
    var e := 2 + |body|;
    assert s[e..e + 2] == "]%";
    forall k | 2 <= k < e ensures s[k] !in LineTerminators && !OccursAt(s, "]%", k) {
      assert s[k] == body[k - 2];
    }
    CloseAtFirst(s, 2, e);
    assert s[2..e] == body;
    assert s[e + 2..] == rest;
  }

  /** The lazy body closes at the first `]%` when no line terminator comes before it. */
  lemma {:induction false} CloseAtFirst(s: string, j: nat, e: nat)
    requires j <= e && e + 2 <= |s| && OccursAt(s, "]%", e)
    requires forall k | j <= k < e :: s[k] !in LineTerminators && !OccursAt(s, "]%", k)
    ensures CloseAt(s, j) == e
    decreases e - j
  {
    if j < e {
      CloseAtFirst(s, j + 1, e);
    }
  }

  /** `o[k]`: a TypeError when `o` is `undefined` or `null`; `undefined` when `o` is not an object or lacks `k`. */
  function Prop(o: Option<Json>, k: string): Result<Option<Json>>
  {
    if o.None? || o.value.JNull? then Err(TypeError)
    else if o.value.JObj? then Ok(Get(o.value.entries, k))
    else Ok(None)
  }

  /** The destructured `[variation, variable, opacity]` of a token; a missing one is `undefined`. */
  datatype Fields = Fields(variation: string, variable: string, opacity: Option<string>)

  /**
   * `value.replace(/\s/g, '').split(',')`, destructured. A missing variable
   * is `undefined`, which as a property key is the string "undefined".
   */
  function TokenFields(body: string): Fields
  {
    var parts := Split(RemoveWhitespace(body), ',');
    Fields(parts[0], if |parts| >= 2 then parts[1] else "undefined", if |parts| >= 3 then Some(parts[2]) else None)
  }

  /** A field without white space or commas. */
  predicate Plain(f: string)
  {
    forall i | 0 <= i < |f| :: f[i] !in JsWhitespace && f[i] != ','
  }

  lemma StripCommaSpace(drop: set<char>)
    requires ' ' in drop && ',' !in drop
    ensures Strip(", ", drop) == ","
  {
    assert ", "[1..] == " ";
    assert Strip(" ", drop) == "" by { assert " "[1..] == ""; }
  }

  /** Removing a set of characters that holds the space (and not the comma) from `v, name, a` leaves `v,name,a`. */
  lemma StripFields(v: string, name: string, a: string, drop: set<char>)
    requires ' ' in drop && ',' !in drop
    requires forall i | 0 <= i < |v| :: v[i] !in drop
    requires forall i | 0 <= i < |name| :: name[i] !in drop
    requires forall i | 0 <= i < |a| :: a[i] !in drop
    ensures Strip(v + ", " + name + ", " + a, drop) == v + "," + name + "," + a
  {
    var p1 := v + ", ";
    var p2 := p1 + name;
    var p3 := p2 + ", ";
    StripCommaSpace(drop);
    StripConcat(v, ", ", drop);
    assert Strip(p1, drop) == v + ",";
    StripConcat(p1, name, drop);
    assert Strip(p2, drop) == v + "," + name;
    StripConcat(p2, ", ", drop);
    assert Strip(p3, drop) == v + "," + name + ",";
    StripConcat(p3, a, drop);
  }

  /** Splitting `v,name,a` on commas gives the three fields back when none has a comma. */
  lemma SplitFields(v: string, name: string, a: string)
    requires Lacks(v, ',') && Lacks(name, ',') && Lacks(a, ',')
    ensures Split(v + "," + name + "," + a, ',') == [v, name, a]
  {
    assert Join([v, name, a], [',']) == v + "," + name + "," + a by {
      assert [v, name, a][1..] == [name, a];
      assert [name, a][1..] == [a];
      assert Join([name, a], [',']) == name + "," + a;
      assert v + "," + (name + "," + a) == v + "," + name + "," + a;
    }
    SplitJoin([v, name, a], ',');
  }

  /** A token written as `variation, variable, opacity` with plain fields reads back as those three fields. */
  lemma TokenFieldsOf(v: string, name: string, a: string)
    requires Plain(v) && Plain(name) && Plain(a)
    ensures TokenFields(v + ", " + name + ", " + a) == Fields(v, name, Some(a))
  {
    assert ' ' in JsWhitespace && ',' !in JsWhitespace;
    StripFields(v, name, a, JsWhitespace);
    SplitFields(v, name, a);
  }

  /**
   * The replacement callback: `hexToRGB(merged[variation][variable], opacity)`.
   * A colour without a `slice` method (anything but a string or an array) throws.
   */
  function DecodeToken(body: string, merged: Json): Result<string>
  {
    DecodeFields(TokenFields(body), merged)
  }

  /** The callback once the token's fields are read. */
  function DecodeFields(f: Fields, merged: Json): Result<string>
  {
    var colors :- Prop(Some(merged), f.variation);
    var color :- Prop(colors, f.variable);
    if color.Some? && color.value.JStr? then Ok(HexToRgb(color.value.s, f.opacity))
    else if color.Some? && color.value.JArr? then Ok(ArrayToRgb(color.value.items, f.opacity))
    else Err(TypeError)
  }

  /** An array element as `Array.prototype.join` prints it: `null` is empty, an object is `[object Object]`. */
  function ElementText(j: Json): string
    decreases j, 1
  {
    match j
    case JNull => ""
    case JBool(b) => if b then "true" else "false"
    case JNum(repr) => repr
    case JStr(s) => s
    case JArr(items) => JoinItems(items)
    case JObj(_) => "[object Object]"
  }

  /** `items.join(',')`, which is also `String(items)`. */
  function JoinItems(items: seq<Json>): string
    decreases items, 0
  {
    if items == [] then ""
    else if |items| == 1 then ElementText(items[0])
    else ElementText(items[0]) + "," + JoinItems(items[1..])
  }

  /** `items.slice(start, end)` for non-negative bounds, which are clamped to the length. */
  function SliceItems(items: seq<Json>, start: nat, end: nat): (r: seq<Json>)
    ensures |r| <= if end >= start then end - start else 0
  {
    if start >= |items| || start >= end then [] else items[start..if end <= |items| then end else |items|]
  }

  /** `parseInt(items.slice(i, i + 2), 16)`: the slice is converted to its text first. */
  function ArrayChannel(items: seq<Json>, i: nat): JsNumber
  {
    ParseIntHex(JoinItems(SliceItems(items, i, i + 2)))
  }

  /** `hexToRGB` given an array, which has a `slice` method too. */
  function ArrayToRgb(items: seq<Json>, alpha: Option<string>): string
  {
    RgbText(NumberToString(ArrayChannel(items, 1)) + ", " + NumberToString(ArrayChannel(items, 3)) + ", " +
      NumberToString(ArrayChannel(items, 5)), alpha)
  }

  /** A colour wrapped in an array does not throw: every slice past the first item is empty, so each channel is NaN. */
  lemma ArrayColorPrintsNaN(hex: string, alpha: string)
    requires alpha != ""
    ensures ArrayToRgb([JStr(hex)], Some(alpha)) == "rgba(NaN, NaN, NaN, " + alpha + ")"
  {
    var items := [JStr(hex)];
    assert JoinItems([]) == "";
    EmptyChannelIsNaN(items, 1);
    EmptyChannelIsNaN(items, 3);
    EmptyChannelIsNaN(items, 5);
    assert NumberToString(NaN) == "NaN";
  }

  /** A slice that starts past the end of the array reads as NaN. */
  lemma EmptyChannelIsNaN(items: seq<Json>, i: nat)
    requires |items| <= i
    ensures ArrayChannel(items, i) == NaN
  {
    assert SliceItems(items, i, i + 2) == [];
    assert JoinItems([]) == "";
    assert TrimStart("") == "";
    assert HexPrefix("") == "";
  }

  /** The replacement callback over the merged palette. */
  function Decoder(merged: Json): string -> Result<string>
  {
    body => DecodeToken(body, merged)
  }

  /**
   * A kept character stays, a token is decoded by `decode` (Substitute passes
   * the callback; it is a parameter so that reasoning about the scan does not
   * unfold the decoding).
   */
  function RenderChunk(c: Chunk, decode: string -> Result<string>): Result<string>
  {
    match c
    case Char(ch) => Ok([ch])
    case Token(b) => decode(b)
  }

  /** The chunks with every token decoded; the leftmost token that throws decides the error. */
  function RenderChunks(cs: seq<Chunk>, decode: string -> Result<string>): Result<string>
  {
    if cs == [] then Ok("")
    else AppendResults(RenderChunk(cs[0], decode), RenderChunks(cs[1..], decode))
  }

  /** `text.replace(themifyRegExp, callback)`. */
  function Substitute(text: string, merged: Json): Result<string>
  {
    RenderChunks(Chunks(text), Decoder(merged))
  }

  lemma {:induction false} RenderChars(s: string, decode: string -> Result<string>)
    ensures RenderChunks(seq(|s|, i requires 0 <= i < |s| => Char(s[i])), decode) == Ok(s)
  {
    if s != [] {
      var cs := seq(|s|, i requires 0 <= i < |s| => Char(s[i]));
      assert cs[1..] == seq(|s[1..]|, i requires 0 <= i < |s[1..]| => Char(s[1..][i]));
      RenderChars(s[1..], decode);
      assert [s[0]] + s[1..] == s;
    }
  }

  lemma {:induction false} RenderChunksConcat(a: seq<Chunk>, b: seq<Chunk>, decode: string -> Result<string>)
    ensures RenderChunks(a + b, decode) == AppendResults(RenderChunks(a, decode), RenderChunks(b, decode))
  {
    if a == [] {
      assert a + b == b;
      var rb := RenderChunks(b, decode);
      if rb.Ok? {
        assert "" + rb.value == rb.value;
      }
    } else {
      assert (a + b)[0] == a[0];
      assert (a + b)[1..] == a[1..] + b;
      RenderChunksConcat(a[1..], b, decode);
      AppendResultsAssoc(RenderChunk(a[0], decode), RenderChunks(a[1..], decode), RenderChunks(b, decode));
    }
  }

  /** Text without a `%` comes out unchanged. */
  lemma SubstitutePlain(s: string, merged: Json)
    requires forall i | 0 <= i < |s| :: s[i] != '%'
    ensures Substitute(s, merged) == Ok(s)
  {
    ChunksWithoutPercent(s);
    RenderChars(s, Decoder(merged));
  }

  /**
   * The text before a token is kept, the token is replaced by its decoding on
   * its own, and the rest is substituted in turn; the first throw wins.
   */
  lemma SubstituteToken(pre: string, body: string, rest: string, merged: Json)
    requires forall i | 0 <= i < |pre| :: pre[i] != '%'
    requires forall i | 0 <= i < |body| :: body[i] != ']' && body[i] !in LineTerminators
    ensures Substitute(pre + "%[" + body + "]%" + rest, merged) ==
      AppendResults(Ok(pre), AppendResults(DecodeToken(body, merged), Substitute(rest, merged)))
  {
    var tail := "%[" + body + "]%" + rest;
    assert pre + "%[" + body + "]%" + rest == pre + tail;
    TokenChunk(body, rest);
    ChunksPrefix(pre, tail);
    var lits := seq(|pre|, i requires 0 <= i < |pre| => Char(pre[i]));
    RenderChunksConcat(lits, [Token(body)] + Chunks(rest), Decoder(merged));
    RenderChars(pre, Decoder(merged));
    assert ([Token(body)] + Chunks(rest))[1..] == Chunks(rest);
  }

  /** A prefix without `%` is read character by character before the scan reaches the rest. */
  lemma {:induction false} ChunksPrefix(pre: string, tail: string)
    requires forall i | 0 <= i < |pre| :: pre[i] != '%'
    ensures Chunks(pre + tail) == seq(|pre|, i requires 0 <= i < |pre| => Char(pre[i])) + Chunks(tail)
    decreases |pre|
  {
    if pre != [] {
      var s := pre + tail;
      assert !OccursAt(s, "%[", 0) by { assert s[0] == pre[0]; }
      assert s[1..] == pre[1..] + tail;
      ChunksPrefix(pre[1..], tail);
    } else {
      assert pre + tail == tail;
    }
  }

  /** The text of one variation: `JSONFallback[variation]` with its tokens replaced; it must be a string. */
  function VariationCss(variation: string, fallback: Json, merged: Json): Result<string>
  {
    var text :- Prop(Some(fallback), variation);
    if text.Some? && text.value.JStr? then Substitute(text.value.s, merged) else Err(TypeError)
  }

  /** The page's text of a variation, as the reduce below takes it. */
  function Recoloring(fallback: Json, merged: Json): string -> Result<string>
  {
    v => VariationCss(v, fallback, merged)
  }

  /**
   * The reduce over `Object.keys(customTheme)`: the first `n` variations'
   * texts, concatenated. `text` gives one variation's text (the page's is
   * VariationCss against the fallback and the merged palette; it is a
   * parameter so that reasoning about the reduce does not unfold the
   * substitution).
   */
  function Recolor(custom: seq<(string, Json)>, text: string -> Result<string>, n: nat): Result<string>
    requires n <= |custom|
  {
    if n == 0 then Ok("")
    else
      var acc :- Recolor(custom, text, n - 1);
      var value :- text(custom[n - 1].0);
      Ok(acc + value)
  }

  /** Only the custom theme's variations are emitted: the reduce succeeds exactly when the text of each of them does. */
  lemma {:induction false} RecolorOk(custom: seq<(string, Json)>, text: string -> Result<string>, n: nat)
    requires n <= |custom|
    ensures Recolor(custom, text, n).Ok? <==> forall i | 0 <= i < n :: text(custom[i].0).Ok?
  {
    if n > 0 {
      RecolorOk(custom, text, n - 1);
    }
  }

  /** When it throws, it throws the error of the first variation whose text throws. */
  lemma {:induction false} RecolorFails(custom: seq<(string, Json)>, text: string -> Result<string>, n: nat)
    requires n <= |custom| && Recolor(custom, text, n).Err?
    ensures exists i | 0 <= i < n ::
      text(custom[i].0) == Err(Recolor(custom, text, n).error) && forall k | 0 <= k < i :: text(custom[k].0).Ok?
  {
    var acc := Recolor(custom, text, n - 1);
    if acc.Err? {
      RecolorFails(custom, text, n - 1);
    } else {
      RecolorOk(custom, text, n - 1);
      var i := n - 1;
      assert text(custom[i].0) == Err(Recolor(custom, text, n).error);
    }
  }

  /** The texts of the custom theme's variations, in its key order. */
  function VariationTexts(custom: seq<(string, Json)>, text: string -> Result<string>): (r: seq<string>)
    requires forall i | 0 <= i < |custom| :: text(custom[i].0).Ok?
    ensures |r| == |custom|
    ensures forall i | 0 <= i < |custom| :: Ok(r[i]) == text(custom[i].0)
  {
    seq(|custom|, i requires 0 <= i < |custom| => text(custom[i].0).value)
  }

  /** Otherwise the output is those texts concatenated in the custom theme's key order, and nothing else. */
  lemma {:induction false} RecolorValue(custom: seq<(string, Json)>, text: string -> Result<string>, n: nat)
    requires n <= |custom|
    requires forall i | 0 <= i < n :: text(custom[i].0).Ok?
    ensures Recolor(custom, text, n) == Ok(Concat(VariationTexts(custom[..n], text)))
  {
    if n > 0 {
      RecolorValue(custom, text, n - 1);
      var ts := VariationTexts(custom[..n], text);
      assert ts[..n - 1] == VariationTexts(custom[..n - 1], text);
    }
  }

  /**
   * `handleUnSupportedBrowsers(customTheme, pallete, JSONFallback)`: the custom
   * theme is merged into the palette in place, and then every variation of the
   * custom theme has its fallback text recoloured from the merged palette.
   */
  method HandleUnSupportedBrowsers(custom: seq<(string, Json)>, palette: JsObject, fallback: Json) returns (r: Result<string>)
    modifies palette
    ensures palette.value == Merge(old(palette.value), JObj(custom))
    ensures r == Recolor(custom, Recoloring(fallback, palette.value), |custom|)
  {
    palette.MergeDeep([JObj(custom)]);
    assert MergeAll(old(palette.value), [JObj(custom)]) == MergeAll(Merge(old(palette.value), JObj(custom)), []);
    r := Recolor(custom, Recoloring(fallback, palette.value), |custom|);
  }
}

/** The examples of the runtime's tests: the CSS variables of a custom theme. */
module RuntimeExamples {
  import opened Base
  import opened Strings
  import opened Colors
  import opened Runtime

  /** A colour with a leading '#' is a hex colour for normalizeColor. */
  lemma HashIsHex(h: string)
    requires |h| >= 1 && h[0] == '#'
    ensures NormalizeColor(h) == Triple(h)
  {
    assert OccursAt(h, "#", 0) by { assert h[0..1] == "#"; }
  }

  lemma SpellPurple()
    ensures FormatHex(195, 51, 211) == "#c333d3"
  {
  }

  lemma SpellRed()
    ensures FormatHex(255, 0, 0) == "#ff0000"
  {
  }

  lemma PurpleDigits()
    ensures NatToString(195) + ", " + NatToString(51) + ", " + NatToString(211) == "195, 51, 211"
  {
    assert NatToString(195) == "195" by { assert NatToString(19) == "19"; }
    assert NatToString(211) == "211" by { assert NatToString(21) == "21"; }
  }

  lemma RedDigits()
    ensures NatToString(255) + ", " + NatToString(0) + ", " + NatToString(0) == "255, 0, 0"
  {
    assert NatToString(255) == "255" by { assert NatToString(25) == "25"; }
  }

  lemma PurpleTriple(h: string)
    requires h == FormatHex(195, 51, 211)
    ensures Triple(h) == "195, 51, 211"
  {
    TripleOfFormatHex(195, 51, 211);
    PurpleDigits();
  }

  lemma RedTriple(h: string)
    requires h == FormatHex(255, 0, 0)
    ensures Triple(h) == "255, 0, 0"
  {
    TripleOfFormatHex(255, 0, 0);
    RedDigits();
  }

  /** `#c333d3` normalises to `195, 51, 211`. */
  lemma Purple(h: string)
    requires h == "#c333d3"
    ensures NormalizeColor(h) == "195, 51, 211"
  {
    HashIsHex(h);
    SpellPurple();
    PurpleTriple(h);
  }

  /** `#ff0000` normalises to `255, 0, 0`. */
  lemma Red(h: string)
    requires h == "#ff0000"
    ensures NormalizeColor(h) == "255, 0, 0"
  {
    HashIsHex(h);
    SpellRed();
    RedTriple(h);
  }

  /** A theme of two variations is the two blocks. */
  lemma TwoBlocks(x: (string, seq<(string, string)>), y: (string, seq<(string, string)>), normalize: string -> string)
    ensures NewVariables([x, y], normalize, 2) == ThemeBlock(x.0, x.1, normalize) + ThemeBlock(y.0, y.1, normalize)
    ensures NewVariables([x], normalize, 1) == ThemeBlock(x.0, x.1, normalize)
  {
    var bx := ThemeBlock(x.0, x.1, normalize);
    assert "" + bx == bx;
    assert NewVariables([x, y], normalize, 1) == bx;
  }

  /** A variation of one variable is its declaration in braces. */
  lemma OneVar(v: string, a: (string, string), normalize: string -> string)
    ensures ThemeBlock(v, [a], normalize) == ThemeSelector(v) + "{" + ColorVar(a.0, a.1, normalize) + "}"
  {
    var d := ColorVar(a.0, a.1, normalize);
    assert "" + d == d;
    assert VariationOutput([a], normalize, 1) == d;
  }

  /** A variation of two variables is their declarations in braces. */
  lemma TwoVars(v: string, a: (string, string), b: (string, string), normalize: string -> string)
    ensures ThemeBlock(v, [a, b], normalize) ==
      ThemeSelector(v) + "{" + ColorVar(a.0, a.1, normalize) + ColorVar(b.0, b.1, normalize) + "}"
  {
    var d := ColorVar(a.0, a.1, normalize);
    assert "" + d == d;
    assert VariationOutput([a, b], normalize, 1) == d;
  }

  /** A variation of two variables, given its selector and what the normaliser makes of their colours. */
  lemma TwoVarsAre(v: string, a: (string, string), b: (string, string), normalize: string -> string, sel: string, da: string, db: string)
    requires ThemeSelector(v) == sel
    requires "--" + a.0 + ": " + normalize(a.1) + ";" == da && "--" + b.0 + ": " + normalize(b.1) + ";" == db
    ensures ThemeBlock(v, [a, b], normalize) == sel + "{" + da + db + "}"
  {
    TwoVars(v, a, b, normalize);
  }

  lemma DarkClass() ensures ThemeSelector("dark") == ".dark" {}
  lemma Decl1() ensures "--" + "primary-100" + ": " + "195, 51, 211" + ";" == "--primary-100: 195, 51, 211;" {}
  lemma Decl2() ensures "--" + "primary-200" + ": " + "195, 51, 211" + ";" == "--primary-200: 195, 51, 211;" {}

  lemma DarkLayout(normalize: string -> string)
    requires normalize("#c333d3") == "195, 51, 211"
    ensures ThemeBlock("dark", [("primary-100", "#c333d3"), ("primary-200", "#c333d3")], normalize) ==
      ".dark{--primary-100: 195, 51, 211;--primary-200: 195, 51, 211;}"
  {
    DarkClass();
    Decl1();
    Decl2();
    TwoVarsAre("dark", ("primary-100", "#c333d3"), ("primary-200", "#c333d3"), normalize,
      ".dark", "--primary-100: 195, 51, 211;", "--primary-200: 195, 51, 211;");
    DarkGlue();
  }

  // One concatenation of literals at a time: a chain of them is beyond the solver in one step.
  lemma Glue1() ensures ".dark" + "{" == ".dark{" {}
  lemma Glue2() ensures ".dark{" + "--primary-100: 195, 51, 211;" == ".dark{--primary-100: 195, 51, 211;" {}
  lemma Glue3() ensures ".dark{--primary-100: 195, 51, 211;" + "--primary-200: 195, 51, 211;" == ".dark{--primary-100: 195, 51, 211;--primary-200: 195, 51, 211;" {}
  lemma Glue4() ensures ".dark{--primary-100: 195, 51, 211;--primary-200: 195, 51, 211;" + "}" == ".dark{--primary-100: 195, 51, 211;--primary-200: 195, 51, 211;}" {}

  lemma DarkGlue()
    ensures ".dark" + "{" + "--primary-100: 195, 51, 211;" + "--primary-200: 195, 51, 211;" + "}" ==
      ".dark{--primary-100: 195, 51, 211;--primary-200: 195, 51, 211;}"
  {
    Glue1(); Glue2(); Glue3(); Glue4();
  }

  lemma LightLayout(normalize: string -> string)
    requires normalize("#ff0000") == "255, 0, 0"
    ensures ThemeBlock("light", [("accent-300", "#ff0000")], normalize) == ":root{--accent-300: 255, 0, 0;}"
  {
    OneVar("light", ("accent-300", "#ff0000"), normalize);
  }

  /** The layout of the tests' custom themes for any colour normaliser that gives the tests' channels. */
  lemma WhitelabelLayout(normalize: string -> string)
    requires normalize("#c333d3") == "195, 51, 211" && normalize("#ff0000") == "255, 0, 0"
    ensures NewVariables([("dark", [("primary-100", "#c333d3"), ("primary-200", "#c333d3")]),
                          ("light", [("accent-300", "#ff0000")])], normalize, 2) ==
      ".dark{--primary-100: 195, 51, 211;--primary-200: 195, 51, 211;}" + ":root{--accent-300: 255, 0, 0;}"
    ensures NewVariables([("dark", [("primary-100", "#c333d3"), ("primary-200", "#c333d3")])], normalize, 1) ==
      ".dark{--primary-100: 195, 51, 211;--primary-200: 195, 51, 211;}"
  {
    var x := ("dark", [("primary-100", "#c333d3"), ("primary-200", "#c333d3")]);
    var y := ("light", [("accent-300", "#ff0000")]);
    TwoBlocks(x, y, normalize);
    DarkLayout(normalize);
    LightLayout(normalize);
  }

  /**
   * The tests' custom theme: the dark variables under `.dark`, the light ones
   * under `:root`, each colour as its decimal channels; and the same theme with
   * the dark variation alone.
   */
  lemma WhitelabelVariables()
    ensures GenerateNewVariables([("dark", [("primary-100", "#c333d3"), ("primary-200", "#c333d3")]),
                                  ("light", [("accent-300", "#ff0000")])]) ==
      ".dark{--primary-100: 195, 51, 211;--primary-200: 195, 51, 211;}" + ":root{--accent-300: 255, 0, 0;}"
    ensures GenerateNewVariables([("dark", [("primary-100", "#c333d3"), ("primary-200", "#c333d3")])]) ==
      ".dark{--primary-100: 195, 51, 211;--primary-200: 195, 51, 211;}"
  {
    Purple("#c333d3");
    Red("#ff0000");
    WhitelabelLayout(NormalizeColor);
  }
}
