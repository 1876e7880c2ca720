/** components/editor/theme-generator.ts: the stylesheet of a theme from
    the theme registry. A theme carries three groups of CSS variables —
    shared, light and dark — each an object whose entries keep their
    insertion order. Light and dark colour values written as a bare HSL
    triplet are wrapped in `hsl(...)`; the shared group is written as it
    is. The registry itself is a parameter. */
module ThemeGenerator {
  import opened Wrappers
  import opened Strings
  import opened OrderedMaps

  /** A variable group: CSS variable names (without `--`) to values. */
  type Vars = Entries<string, string>

  datatype CssVars = CssVars(theme: Option<Vars>, light: Option<Vars>, dark: Option<Vars>)

  /** A registry item; `labelText` is its `label` and `kind` its `type`. */
  datatype Item = Item(name: string, labelText: Option<string>, kind: string, cssVars: CssVars)

  /** The variables that are never wrapped in a colour function. */
  const NonColorKeys: set<string> := {
    "radius", "font-sans", "font-serif", "font-mono", "spacing",
    "tracking-normal", "tracking-tighter", "tracking-tight", "tracking-wide",
    "tracking-wider", "tracking-widest", "letter-spacing",
    "shadow-color", "shadow-opacity", "shadow-blur", "shadow-spread",
    "shadow-offset-x", "shadow-offset-y", "shadow-x", "shadow-y",
    "shadow-2xs", "shadow-xs", "shadow-sm", "shadow", "shadow-md",
    "shadow-lg", "shadow-xl", "shadow-2xl"
  }

  // ---------------------------------------------------------------------
  // The bare HSL triplet `/^\d+(\s+\d+%){2}$/`
  // ---------------------------------------------------------------------

  /** The length of the run of digits `t` starts with. */
  function DigitRun(t: string): (n: nat)
    ensures n <= |t|
    decreases |t|
  {
    if t != [] && IsDigit(t[0]) then 1 + DigitRun(t[1..]) else 0
  }

  /** The length of the run of white space `t` starts with. */
  function SpaceRun(t: string): (n: nat)
    ensures n <= |t|
    decreases |t|
  {
    if t != [] && IsSpace(t[0]) then 1 + SpaceRun(t[1..]) else 0
  }

  /** `t` is `n` repetitions of white space, digits and `%`, and nothing
      more. Digits, white space and `%` are disjoint classes, so taking each
      run whole is the only way the pattern can match. */
  predicate Percents(t: string, n: nat)
    decreases n
  {
    if n == 0 then t == []
    else
      var w := SpaceRun(t);
      w > 0 &&
      var d := DigitRun(t[w..]);
      d > 0 && w + d < |t| && t[w + d] == '%' && Percents(t[w + d + 1..], n - 1)
  }

  /** `/^\d+(\s+\d+%){2}$/.test(t)` */
  predicate HslTriplet(t: string) {
    DigitRun(t) > 0 && Percents(t[DigitRun(t)..], 2)
  }

  predicate AllDigits(s: string) {
    forall i :: 0 <= i < |s| ==> IsDigit(s[i])
  }

  /** The pieces of a bare HSL triplet: digits, white space, digits, `%`,
      white space, digits, `%`. */
  datatype Triplet = Triplet(h: string, gap1: string, s: string, gap2: string, l: string)
  {
    predicate WellFormed() {
      |h| > 0 && |s| > 0 && |l| > 0 && |gap1| > 0 && |gap2| > 0
      && AllDigits(h) && AllDigits(s) && AllDigits(l) && AllSpace(gap1) && AllSpace(gap2)
    }

    function Text(): string {
      h + (Group(gap1, s) + Group(gap2, l))
    }
  }

  /** White space, digits and `%`. */
  function Group(gap: string, digits: string): string {
    gap + digits + "%"
  }

  lemma {:induction false} DigitRunOf(a: string, rest: string)
    requires forall i :: 0 <= i < |a| ==> IsDigit(a[i])
    requires rest == [] || !IsDigit(rest[0])
    ensures DigitRun(a + rest) == |a|
    decreases |a|
  {
    if a == [] {
      assert a + rest == rest;
    } else {
      assert (a + rest)[1..] == a[1..] + rest;
      DigitRunOf(a[1..], rest);
    }
  }

  lemma {:induction false} SpaceRunOf(a: string, rest: string)
    requires AllSpace(a)
    requires rest == [] || !IsSpace(rest[0])
    ensures SpaceRun(a + rest) == |a|
    decreases |a|
  {
    if a == [] {
      assert a + rest == rest;
    } else {
      assert (a + rest)[1..] == a[1..] + rest;
      SpaceRunOf(a[1..], rest);
    }
  }

  lemma PercentsUnfold(t: string, n: nat, w: nat, d: nat)
    requires w == SpaceRun(t) && w > 0 && w + d < |t|
    requires d == DigitRun(t[w..]) && d > 0
    requires t[w + d] == '%' && Percents(t[w + d + 1..], n)
    ensures Percents(t, n + 1)
  {
  }

  /** The runs of white space and digits in one group are taken whole. */
  lemma GroupRuns(gap: string, d: string, rest: string)
    requires AllSpace(gap) && forall i :: 0 <= i < |d| ==> IsDigit(d[i])
    ensures SpaceRun(gap + d + "%" + rest) == |gap|
    ensures DigitRun((gap + d + "%" + rest)[|gap|..]) == |d|
  {
    var t := gap + d + "%" + rest;
    var after := d + "%" + rest;
    assert t == gap + after;
    assert SpaceRun(t) == |gap| by {
      if d != [] {
        assert IsDigit(after[0]);
      }
      SpaceRunOf(gap, after);
    }
    assert t[|gap|..] == after;
    assert after == d + ("%" + rest);
    DigitRunOf(d, "%" + rest);
  }

  /** One white-space, digits, `%` group followed by `rest`. */
  lemma PercentGroup(gap: string, d: string, rest: string, n: nat)
    requires |gap| > 0 && AllSpace(gap) && |d| > 0
    requires forall i :: 0 <= i < |d| ==> IsDigit(d[i])
    requires Percents(rest, n)
    ensures Percents(gap + d + "%" + rest, n + 1)
  {
    var t := gap + d + "%" + rest;
    GroupRuns(gap, d, rest);
    assert t[|gap| + |d|] == '%' && t[|gap| + |d| + 1..] == rest;
    PercentsUnfold(t, n, |gap|, |d|);
  }

  lemma HslTripletOf(t: string, a: nat)
    requires a == DigitRun(t) && a > 0 && Percents(t[a..], 2)
    ensures HslTriplet(t)
  {
  }

  /** The pieces of a triplet together match the pattern. */
  lemma TripletMatches(p: Triplet)
    requires p.WellFormed()
    ensures HslTriplet(p.Text())
  {
    var tail2 := Group(p.gap2, p.l);
    assert Percents(tail2, 1) by {
      PercentGroup(p.gap2, p.l, [], 0);
      assert p.gap2 + p.l + "%" + [] == tail2;
    }
    var tail := Group(p.gap1, p.s) + tail2;
    assert Percents(tail, 2) by {
      PercentGroup(p.gap1, p.s, tail2, 1);
    }
    var t := p.Text();
    assert DigitRun(t) == |p.h| by {
      assert IsSpace(tail[0]);
      DigitRunOf(p.h, tail);
    }
    assert t[|p.h|..] == tail;
    HslTripletOf(t, |p.h|);
  }

  lemma RunDigits(t: string)
    ensures forall i :: 0 <= i < DigitRun(t) ==> IsDigit(t[i])
    ensures DigitRun(t) < |t| ==> !IsDigit(t[DigitRun(t)])
  {
    if t != [] && IsDigit(t[0]) {
      RunDigits(t[1..]);
      forall i | 0 <= i < DigitRun(t) ensures IsDigit(t[i]) {
        if i > 0 {
          assert t[i] == t[1..][i - 1];
        }
      }
    }
  }

  lemma RunSpaces(t: string)
    ensures AllSpace(t[..SpaceRun(t)])
  {
    if t != [] && IsSpace(t[0]) {
      RunSpaces(t[1..]);
      assert t[..SpaceRun(t)] == [t[0]] + t[1..][..SpaceRun(t[1..])];
    }
  }

  /** The first group of a match, taken apart. */
  lemma PercentsHead(t: string, n: nat) returns (gap: string, digits: string, rest: string)
    requires Percents(t, n + 1)
    ensures |gap| > 0 && AllSpace(gap) && |digits| > 0 && AllDigits(digits)
    ensures t == Group(gap, digits) + rest && Percents(rest, n)
  {
    var w := SpaceRun(t);
    var d := DigitRun(t[w..]);
    RunSpaces(t);
    RunDigits(t[w..]);
    gap, digits, rest := t[..w], t[w..][..d], t[w + d + 1..];
    SliceAround(t, w, d);
    assert [t[w + d]] == "%";
  }

  lemma SliceAround<T>(t: seq<T>, w: nat, d: nat)
    requires w + d < |t|
    ensures t == t[..w] + t[w..][..d] + [t[w + d]] + t[w + d + 1..]
  {
    assert t[..w] + t[w..][..d] == t[..w + d];
  }

  /** Whatever matches the pattern is a triplet. */
  lemma MatchIsTriplet(t: string)
    requires HslTriplet(t)
    ensures exists p: Triplet :: p.WellFormed() && p.Text() == t
  {
    var a := DigitRun(t);
    var h, t1 := t[..a], t[a..];
    assert AllDigits(h) && |h| > 0 && t == h + t1 && Percents(t1, 2) by {
      RunDigits(t);
    }
    var gap1, s, t2 := PercentsHead(t1, 1);
    var gap2, l, t3 := PercentsHead(t2, 0);
    var p := Triplet(h, gap1, s, gap2, l);
    assert t2 == Group(gap2, l) by {
      assert t3 == [];
    }
    assert t1 == Group(gap1, s) + Group(gap2, l);
    assert p.WellFormed();
    assert t == p.Text();
  }

  /** A value passes the pattern exactly when its trimmed text is a triplet. */
  lemma HslTripletIff(t: string)
    ensures HslTriplet(t) <==> exists p: Triplet :: p.WellFormed() && p.Text() == t
  {
    if HslTriplet(t) {
      MatchIsTriplet(t);
    }
    if exists p: Triplet :: p.WellFormed() && p.Text() == t {
      var p: Triplet :| p.WellFormed() && p.Text() == t;
      TripletMatches(p);
    }
  }

  // ---------------------------------------------------------------------
  // formatValue
  // ---------------------------------------------------------------------

  /** `formatValue(key, value)`: a colour value written as a bare HSL
      triplet is wrapped in `hsl(...)`; anything else is kept. */
  function Format(key: string, value: string): (r: string)
    ensures r == value || r == "hsl(" + value + ")"
  {
    if key in NonColorKeys then value
    else if Contains(value, "(") then value
    else if StartsWith(value, "#") then value
    else if HslTriplet(Trim(value)) then "hsl(" + value + ")"
    else value
  }

  lemma ContainsParen(value: string)
    ensures Contains("hsl(" + value + ")", "(")
  {
    assert OccursAt("hsl(" + value + ")", "(", 3);
  }

  /** The wrapping happens exactly for a colour key whose value is a bare
      triplet with neither `(` nor a leading `#`. */
  lemma FormatWraps(key: string, value: string)
    ensures Format(key, value) != value <==>
              key !in NonColorKeys && !Contains(value, "(") && !StartsWith(value, "#")
              && exists p: Triplet :: p.WellFormed() && p.Text() == Trim(value)
  {
    HslTripletIff(Trim(value));
    ContainsParen(value);
    assert |"hsl(" + value + ")"| != |value|;
  }

  /** Formatting a formatted value changes nothing more. */
  lemma FormatIdempotent(key: string, value: string)
    ensures Format(key, Format(key, value)) == Format(key, value)
  {
    ContainsParen(value);
  }

  /** A colour value such as `0 0% 100%` comes out as `hsl(0 0% 100%)`,
      and white space around it is kept inside the parentheses. */
  lemma FormatTriplet(key: string, value: string, p: Triplet)
    requires key !in NonColorKeys && p.WellFormed() && Trim(value) == p.Text()
    requires !Contains(value, "(") && !StartsWith(value, "#")
    ensures Format(key, value) == "hsl(" + value + ")"
  {
    TripletMatches(p);
  }

  // ---------------------------------------------------------------------
  // getThemeCss
  // ---------------------------------------------------------------------

  /** `  --key: value;` */
  function VarLine(key: string, value: string): string {
    "  --" + key + ": " + value + ";"
  }

  /** The lines of a variable group, in entry order; colour groups format
      their values, the shared group does not. */
  function VarLines(vars: Vars, format: bool): (lines: seq<string>)
    ensures |lines| == |vars|
    ensures forall k :: 0 <= k < |vars| ==>
              lines[k] == VarLine(vars[k].0, if format then Format(vars[k].0, vars[k].1) else vars[k].1)
    decreases |vars|
  {
    if vars == [] then []
    else [VarLine(vars[0].0, if format then Format(vars[0].0, vars[0].1) else vars[0].1)] + VarLines(vars[1..], format)
  }

  const DestructiveLine: string := "  --destructive-foreground: hsl(0 0% 98%);"

  /** The fallback appended to a colour group without a
      `destructive-foreground` variable. */
  function DestructiveFallback(vars: Option<Vars>): string {
    if vars.Some? && "destructive-foreground" in Keys(vars.value) then "" else "\n" + DestructiveLine
  }

  /** `sharedVars ? sharedVars + "\n" : ""` */
  function SharedPart(shared: Option<Vars>): string {
    if shared.None? then ""
    else
      var text := Join(VarLines(shared.value, false), "\n");
      if text == "" then "" else text + "\n"
  }

  /** A selector line, the body text and a closing `}` line. */
  function Block(head: string, body: string): string {
    head + "\n" + body + "\n}"
  }

  function RootBlock(vars: CssVars): string {
    Block(":root {", SharedPart(vars.theme) + Join(VarLines(vars.light.GetOr([]), true), "\n")
                     + DestructiveFallback(vars.light))
  }

  function DarkBlock(vars: CssVars): string {
    Block(".dark {", Join(VarLines(vars.dark.GetOr([]), true), "\n") + DestructiveFallback(vars.dark))
  }

  /** The fixed rules every stylesheet ends with. */
  const BaseRules: string :=
    "*,\n*::before,\n*::after {\n  border-color: var(--border);\n  outline-color: var(--ring);\n}\n\n"
    + "body {\n  background-color: var(--background);\n  color: var(--foreground);\n"
    + "  font-family: var(--font-sans, \"Inter\", system-ui, -apple-system, BlinkMacSystemFont, \"Segoe UI\", sans-serif);\n"
    + "  letter-spacing: var(--tracking-normal, 0em);\n}\n"

  /** The stylesheet of one registry item. */
  function ItemCss(item: Item): string {
    RootBlock(item.cssVars) + "\n\n" + DarkBlock(item.cssVars) + "\n\n" + BaseRules
  }

  /** `registry.items.find(item => item.name === name)` */
  function Find(registry: seq<Item>, name: string): (r: Option<Item>)
    ensures r.None? <==> forall k :: 0 <= k < |registry| ==> registry[k].name != name
    ensures r.Some? ==> exists k :: 0 <= k < |registry| && registry[k] == r.value
                          && r.value.name == name
                          && forall j :: 0 <= j < k ==> registry[j].name != name
    decreases |registry|
  {
    if registry == [] then None
    else if registry[0].name == name then Some(registry[0])
    else
      var r := Find(registry[1..], name);
      assert forall k :: 0 < k < |registry| ==> registry[k] == registry[1..][k - 1];
      r
  }

  /** `getThemeCss(name)`. An unknown name falls back to `"default"`; when
      the registry has no `"default"` either, the source recurses without
      end, modelled as `None`. */
  function ThemeCss(registry: seq<Item>, name: string): Option<string> {
    var found := Find(registry, name);
    if found.Some? then Some(ItemCss(found.value))
    else
      var fallback := Find(registry, "default");
      if fallback.Some? then Some(ItemCss(fallback.value)) else None
  }

  /** `DEFAULT_GLOBAL_CSS` */
  function DefaultGlobalCss(registry: seq<Item>): Option<string> {
    ThemeCss(registry, "default")
  }

  predicate Named(registry: seq<Item>, name: string) {
    exists k :: 0 <= k < |registry| && registry[k].name == name
  }

  /** A name the registry lacks gives the default stylesheet; the result is
      defined exactly when the name or `"default"` is in the registry. */
  lemma UnknownThemeIsDefault(registry: seq<Item>, name: string)
    ensures !Named(registry, name) ==> ThemeCss(registry, name) == DefaultGlobalCss(registry)
    ensures ThemeCss(registry, name).Some? <==> Named(registry, name) || Named(registry, "default")
  {
  }

  /** A known name gives the stylesheet of the first item of that name. */
  lemma KnownTheme(registry: seq<Item>, k: nat)
    requires k < |registry| && forall j :: 0 <= j < k ==> registry[j].name != registry[k].name
    ensures ThemeCss(registry, registry[k].name) == Some(ItemCss(registry[k]))
  {
    var r := Find(registry, registry[k].name);
    var i :| 0 <= i < |registry| && registry[i] == r.value && r.value.name == registry[k].name
               && forall j :: 0 <= j < i ==> registry[j].name != registry[k].name;
    assert i == k;
  }

  // ---------------------------------------------------------------------
  // The lines of the stylesheet
  // ---------------------------------------------------------------------

  /** No name or value holds a line break. */
  predicate OneLine(vars: Option<Vars>) {
    vars.Some? ==> forall k :: 0 <= k < |vars.value| ==> Free(vars.value[k].0, '\n') && Free(vars.value[k].1, '\n')
  }

  lemma VarLineFree(key: string, value: string)
    requires Free(key, '\n') && Free(value, '\n')
    ensures Free(VarLine(key, value), '\n')
  {
    var line := VarLine(key, value);
    forall i | 0 <= i < |line| ensures line[i] != '\n' {
      if 4 <= i < 4 + |key| {
        assert line[i] == key[i - 4];
      } else if 6 + |key| <= i < 6 + |key| + |value| {
        assert line[i] == value[i - 6 - |key|];
      }
    }
  }

  lemma WrapFree(value: string)
    requires Free(value, '\n')
    ensures Free("hsl(" + value + ")", '\n')
  {
    var r := "hsl(" + value + ")";
    forall i | 0 <= i < |r| ensures r[i] != '\n' {
      if 4 <= i < 4 + |value| {
        assert r[i] == value[i - 4];
      }
    }
  }

  lemma FormatFree(key: string, value: string)
    requires Free(value, '\n')
    ensures Free(Format(key, value), '\n')
  {
    WrapFree(value);
  }

  lemma VarLinesFree(vars: Vars, format: bool)
    requires OneLine(Some(vars))
    ensures forall k :: 0 <= k < |vars| ==> Free(VarLines(vars, format)[k], '\n')
  {
    forall k | 0 <= k < |vars| ensures Free(VarLines(vars, format)[k], '\n') {
      if format {
        FormatFree(vars[k].0, vars[k].1);
      }
      VarLineFree(vars[k].0, if format then Format(vars[k].0, vars[k].1) else vars[k].1);
    }
  }

  /** Variable lines, or one blank line when there are none, then the
      fallback line when `missing`. */
  function WithFallback(lines: seq<string>, missing: bool): (r: seq<string>)
    ensures r != []
  {
    (if lines == [] then [""] else lines) + (if missing then [DestructiveLine] else [])
  }

  /** The lines of a colour group. */
  function GroupLines(vars: Option<Vars>): seq<string> {
    WithFallback(VarLines(vars.GetOr([]), true), DestructiveFallback(vars) != "")
  }

  lemma JoinWithFallback(lines: seq<string>, missing: bool)
    ensures Join(WithFallback(lines, missing), "\n")
            == Join(lines, "\n") + (if missing then "\n" + DestructiveLine else "")
  {
    var head := if lines == [] then [""] else lines;
    if missing {
      JoinAppend(head, [DestructiveLine], "\n");
    } else {
      assert WithFallback(lines, missing) == head;
    }
  }

  lemma FreeLines(lines: seq<string>, missing: bool)
    requires forall k :: 0 <= k < |lines| ==> Free(lines[k], '\n')
    ensures forall k :: 0 <= k < |WithFallback(lines, missing)| ==> Free(WithFallback(lines, missing)[k], '\n')
  {
  }

  /** A block `head {`, its lines and `}` splits into exactly those lines. */
  lemma BlockJoin(head: string, body: seq<string>)
    requires |body| > 0
    ensures Join([head] + body + ["}"], "\n") == Block(head, Join(body, "\n"))
  {
    var top := Join([head] + body, "\n");
    assert top == head + "\n" + Join(body, "\n") by {
      JoinAppend([head], body, "\n");
    }
    assert Join([head] + body + ["}"], "\n") == top + "\n" + "}" by {
      JoinAppend([head] + body, ["}"], "\n");
    }
    BlockGlue(head, Join(body, "\n"));
  }

  lemma BlockGlue(head: string, j: string)
    ensures head + "\n" + j + "\n" + "}" == Block(head, j)
  {
    assert "\n" + "}" == "\n}";
  }

  lemma BlockFree(head: string, body: seq<string>)
    requires Free(head, '\n')
    requires forall k :: 0 <= k < |body| ==> Free(body[k], '\n')
    ensures forall k :: 0 <= k < |[head] + body + ["}"]| ==> Free(([head] + body + ["}"])[k], '\n')
  {
    var lines := [head] + body + ["}"];
    forall k | 0 <= k < |lines| ensures Free(lines[k], '\n') {
      if 0 < k <= |body| {
        assert lines[k] == body[k - 1];
      } else if k > |body| {
        assert lines[k] == "}";
      }
    }
  }

  lemma BlockLines(head: string, body: seq<string>)
    requires |body| > 0 && Free(head, '\n')
    requires forall k :: 0 <= k < |body| ==> Free(body[k], '\n')
    ensures Split(Block(head, Join(body, "\n")), '\n') == [head] + body + ["}"]
  {
    BlockJoin(head, body);
    BlockFree(head, body);
    SplitJoin([head] + body + ["}"], '\n');
  }

  /** The shared text: nothing, or the shared lines each followed by a
      line break. */
  lemma SharedJoin(shared: seq<string>, group: seq<string>)
    requires |group| > 0 && forall k :: 0 <= k < |shared| ==> shared[k] != ""
    ensures Join(shared + group, "\n")
            == (if Join(shared, "\n") == "" then "" else Join(shared, "\n") + "\n") + Join(group, "\n")
  {
    if shared == [] {
      assert shared + group == group;
    } else {
      assert |Join(shared, "\n")| >= |shared[0]| by {
        if |shared| > 1 {
          assert Join(shared, "\n") == shared[0] + "\n" + Join(shared[1..], "\n");
        }
      }
      JoinAppend(shared, group, "\n");
    }
  }

  lemma GroupFree(vars: Option<Vars>)
    requires OneLine(vars)
    ensures forall k :: 0 <= k < |GroupLines(vars)| ==> Free(GroupLines(vars)[k], '\n')
  {
    var lines := VarLines(vars.GetOr([]), true);
    if vars.Some? {
      VarLinesFree(vars.value, true);
    }
    FreeLines(lines, DestructiveFallback(vars) != "");
  }

  lemma GroupJoin(vars: Option<Vars>)
    ensures Join(GroupLines(vars), "\n") == Join(VarLines(vars.GetOr([]), true), "\n") + DestructiveFallback(vars)
  {
    JoinWithFallback(VarLines(vars.GetOr([]), true), DestructiveFallback(vars) != "");
  }

  lemma SharedFree(vars: Option<Vars>)
    requires OneLine(vars)
    ensures forall k :: 0 <= k < |VarLines(vars.GetOr([]), false)| ==>
              Free(VarLines(vars.GetOr([]), false)[k], '\n') && VarLines(vars.GetOr([]), false)[k] != ""
  {
    if vars.Some? {
      VarLinesFree(vars.value, false);
    }
  }

  lemma ConcatFree(a: seq<string>, b: seq<string>)
    requires forall k :: 0 <= k < |a| ==> Free(a[k], '\n')
    requires forall k :: 0 <= k < |b| ==> Free(b[k], '\n')
    ensures forall k :: 0 <= k < |a + b| ==> Free((a + b)[k], '\n')
  {
  }

  lemma VarLinesNonEmpty(vars: Vars, format: bool)
    ensures forall k :: 0 <= k < |vars| ==> VarLines(vars, format)[k] != ""
  {
  }

  lemma RootBody(vars: CssVars)
    ensures Join(VarLines(vars.theme.GetOr([]), false) + GroupLines(vars.light), "\n")
            == SharedPart(vars.theme) + Join(VarLines(vars.light.GetOr([]), true), "\n") + DestructiveFallback(vars.light)
  {
    var shared := VarLines(vars.theme.GetOr([]), false);
    var group := GroupLines(vars.light);
    var text := Join(VarLines(vars.light.GetOr([]), true), "\n") + DestructiveFallback(vars.light);
    assert Join(group, "\n") == text by {
      GroupJoin(vars.light);
    }
    assert Join(shared + group, "\n") == SharedPart(vars.theme) + Join(group, "\n") by {
      VarLinesNonEmpty(vars.theme.GetOr([]), false);
      SharedJoin(shared, group);
    }
  }

  /** The `:root` block, line by line: the shared variables unformatted
      and first, then the light variables formatted (a blank line when
      there are none), then the `destructive-foreground` fallback exactly
      when the light group lacks it. */
  lemma RootLines(vars: CssVars)
    requires OneLine(vars.theme) && OneLine(vars.light)
    ensures Split(RootBlock(vars), '\n')
            == [":root {"] + (VarLines(vars.theme.GetOr([]), false) + GroupLines(vars.light)) + ["}"]
  {
    var body := VarLines(vars.theme.GetOr([]), false) + GroupLines(vars.light);
    assert forall k :: 0 <= k < |body| ==> Free(body[k], '\n') by {
      SharedFree(vars.theme);
      GroupFree(vars.light);
      ConcatFree(VarLines(vars.theme.GetOr([]), false), GroupLines(vars.light));
    }
    assert RootBlock(vars) == Block(":root {", Join(body, "\n")) by {
      RootBody(vars);
    }
    BlockLines(":root {", body);
  }

  /** The `.dark` block, line by line: the dark variables formatted (a
      blank line when there are none), then the fallback exactly when the
      dark group lacks it. */
  lemma DarkLines(vars: CssVars)
    requires OneLine(vars.dark)
    ensures Split(DarkBlock(vars), '\n') == [".dark {"] + GroupLines(vars.dark) + ["}"]
  {
    GroupFree(vars.dark);
    GroupJoin(vars.dark);
    BlockLines(".dark {", GroupLines(vars.dark));
  }

  /** Three texts separated by blank lines split into their lines with a
      blank line between. */
  lemma SplitBlankLine(a: string, b: string)
    ensures Split(a + "\n\n" + b, '\n') == Split(a, '\n') + ([""] + Split(b, '\n'))
  {
    var nl := '\n';
    assert a + "\n\n" + b == a + [nl] + ([] + [nl] + b);
    SplitConcat(a, [] + [nl] + b, nl);
    SplitConcat([], b, nl);
  }

  lemma SplitParagraphs(a: string, b: string, c: string)
    ensures Split(a + "\n\n" + b + "\n\n" + c, '\n') == Split(a, '\n') + [""] + Split(b, '\n') + [""] + Split(c, '\n')
  {
    var bc := b + "\n\n" + c;
    assert a + "\n\n" + b + "\n\n" + c == a + "\n\n" + bc;
    SplitBlankLine(a, bc);
    SplitBlankLine(b, c);
    Regroup(Split(a, '\n'), [""], Split(b, '\n'), [""], Split(c, '\n'));
  }

  lemma Regroup<T>(p: seq<T>, q: seq<T>, r: seq<T>, s: seq<T>, t: seq<T>)
    ensures p + (q + (r + (s + t))) == p + q + r + s + t
  {
  }

  /** The whole stylesheet, line by line: the `:root` block, a blank
      line, the `.dark` block, a blank line, then the fixed rules. */
  lemma ItemCssLines(item: Item)
    requires OneLine(item.cssVars.theme) && OneLine(item.cssVars.light) && OneLine(item.cssVars.dark)
    ensures Split(ItemCss(item), '\n')
            == [":root {"] + (VarLines(item.cssVars.theme.GetOr([]), false) + GroupLines(item.cssVars.light)) + ["}"]
               + [""] + ([".dark {"] + GroupLines(item.cssVars.dark) + ["}"])
               + [""] + Split(BaseRules, '\n')
  {
    RootLines(item.cssVars);
    DarkLines(item.cssVars);
    SplitParagraphs(RootBlock(item.cssVars), DarkBlock(item.cssVars), BaseRules);
  }
}
