/** components/editor/ThemeSelector.tsx: the style picker of the editor.
    It decides which theme counts as current, builds the option list from
    the theme registry (one option per style, plus "Custom" when the
    current stylesheet matches no style), and derives each option's font
    and colour swatches from the registry's CSS variables.

    Two things the component calls are outside this model and come in as
    function parameters: `detectThemeFromCss`, which names the theme a
    stylesheet was generated from, and the oklch colour conversion, given
    the text inside `oklch(...)` and returning the three 0-255 channels. */
module ThemeSelector {
  import opened Wrappers
  import opened Strings
  import opened OrderedMaps
  import ThemeGenerator
  import Combobox

  type Item = ThemeGenerator.Item

  // ---------------------------------------------------------------------
  // Colour values
  // ---------------------------------------------------------------------

  /** `normalizeColorValue(value)`: trimmed and lower-cased. */
  function Normalize(value: string): string {
    Lower(Trim(value))
  }

  lemma LowerKeepsSpace(s: string, i: nat)
    requires i < |s|
    ensures IsSpace(Lower(s)[i]) <==> IsSpace(s[i])
  {
  }

  lemma LowerTwice(s: string)
    ensures Lower(Lower(s)) == Lower(s)
  {
  }

  /** Normalising twice is normalising once. */
  lemma NormalizeIdempotent(value: string)
    ensures Normalize(Normalize(value)) == Normalize(value)
  {
    var t := Trim(value);
    var n := Lower(t);
    assert IsTrimmed(n) by {
      if n != [] {
        LowerKeepsSpace(t, 0);
        LowerKeepsSpace(t, |t| - 1);
      }
    }
    TrimOfTrimmed(n);
    LowerTwice(t);
  }

  /** The index of the first `)` at or after `j`, or the length. */
  function CloseParen(t: string, j: nat): (k: nat)
    requires j <= |t|
    ensures j <= k <= |t| && (k < |t| ==> t[k] == ')')
    ensures forall i :: j <= i < k ==> t[i] != ')'
    decreases |t| - j
  {
    if j == |t| || t[j] == ')' then j else CloseParen(t, j + 1)
  }

  /** `/oklch\(([^)]+)\)/` tried at position `i`: the capture. */
  function OklchAt(t: string, i: nat): (m: Option<string>)
    ensures m.Some? ==> m.value != [] && ')' !in m.value
  {
    if OccursAt(t, "oklch(", i) then
      var j := CloseParen(t, i + 6);
      if j > i + 6 && j < |t| then Some(t[i + 6..j]) else None
    else None
  }

  /** The leftmost match at or after `i`. */
  function OklchMatch(t: string, i: nat): (m: Option<string>)
    ensures m.Some? ==> m.value != [] && ')' !in m.value
    decreases |t| - i
  {
    if i > |t| then None
    else if OklchAt(t, i).Some? then OklchAt(t, i)
    else OklchMatch(t, i + 1)
  }

  /** The colour `oklchToColor` writes for the converted channels. */
  function RgbText(rgb: (int, int, int)): (r: string)
    ensures StartsWith(r, "rgb(") && IsTrimmed(r)
  {
    var r := "rgb(" + IntToString(rgb.0) + ", " + IntToString(rgb.1) + ", " + IntToString(rgb.2) + ")";
    assert r[..4] == "rgb(";
    r
  }

  /** `extractColorFromValue(value)`. An `oklch(...)` value whose capture
      holds a number is converted; everything else comes back trimmed, and
      blank input gives white. */
  function ExtractColor(value: string, convert: string -> (int, int, int)): (r: string)
    ensures r != ""
    ensures AllSpace(value) ==> r == "#ffffff"
    ensures !AllSpace(value) && !StartsWith(Trim(value), "oklch(") ==> r == Trim(value)
    ensures StartsWith(Trim(value), "oklch(") ==>
              var m := OklchMatch(Trim(value), 0);
              r == if m.Some? && !AllSpace(m.value) then RgbText(convert(m.value)) else Trim(value)
  {
    TrimEmptyIffAllSpace(value);
    if value == "" then "#ffffff"
    else
      var t := Trim(value);
      var m := if StartsWith(t, "oklch(") then OklchMatch(t, 0) else None;
      if m.Some? && !AllSpace(m.value) then RgbText(convert(m.value))
      else if StartsWith(t, "#") then t
      else if StartsWith(t, "hsl(") || StartsWith(t, "rgb(") then t
      else if t != "" then t
      else "#ffffff"
  }

  /** Hex, `hsl(` and `rgb(` values come back trimmed and otherwise as
      they are. */
  lemma PlainColorsKept(value: string, convert: string -> (int, int, int))
    requires StartsWith(Trim(value), "#") || StartsWith(Trim(value), "hsl(") || StartsWith(Trim(value), "rgb(")
    ensures ExtractColor(value, convert) == Trim(value)
  {
    var t := Trim(value);
    TrimEmptyIffAllSpace(value);
    assert t != [] && t[0] != 'o';
    assert !StartsWith(t, "oklch(") by { assert "oklch("[0] == 'o'; }
  }

  /** A literal fallback colour is its own extraction. */
  lemma LiteralColor(c: string, convert: string -> (int, int, int))
    requires |c| > 0 && c[0] == '#' && !IsSpace(c[|c| - 1])
    ensures ExtractColor(c, convert) == c
  {
    assert IsTrimmed(c);
    TrimOfTrimmed(c);
    assert !AllSpace(c) by { assert !IsSpace(c[0]); }
    assert !StartsWith(c, "oklch(") by { assert "oklch("[0] == 'o'; }
  }

  /** Extracting an extracted colour changes nothing. */
  lemma ExtractIdempotent(value: string, convert: string -> (int, int, int))
    ensures ExtractColor(ExtractColor(value, convert), convert) == ExtractColor(value, convert)
  {
    var r := ExtractColor(value, convert);
    var t := Trim(value);
    if AllSpace(value) {
      LiteralColor("#ffffff", convert);
    } else if r == t {
      TrimEmptyIffAllSpace(value);
      TrimOfTrimmed(t);
      assert !AllSpace(t) by { assert !IsSpace(t[0]); }
    } else {
      var m := OklchMatch(t, 0);
      assert r == RgbText(convert(m.value));
      TrimOfTrimmed(r);
      assert !AllSpace(r) by { assert r[0] == 'r'; }
      assert !StartsWith(r, "oklch(") by { assert r[0] == 'r'; }
    }
  }

  // ---------------------------------------------------------------------
  // Registry lookups
  // ---------------------------------------------------------------------

  /** The light variables of a theme, `{}` when missing. */
  function LightVars(item: Item): ThemeGenerator.Vars {
    item.cssVars.light.GetOr([])
  }

  /** The four swatches of `ThemePreview` and its title. */
  datatype Swatches = Swatches(title: string, primary: string, secondary: string, accent: string, destructive: string)

  function PrimarySwatch(light: ThemeGenerator.Vars, convert: string -> (int, int, int)): string {
    ExtractColor(OrElse(Get(light, "primary"), "#000000"), convert)
  }

  function SecondarySwatch(light: ThemeGenerator.Vars, convert: string -> (int, int, int)): string {
    ExtractColor(OrElse(Get(light, "secondary"), OrElse(Get(light, "muted"), "#f5f5f5")), convert)
  }

  function AccentSwatch(light: ThemeGenerator.Vars, primary: string, convert: string -> (int, int, int)): string {
    ExtractColor(OrElse(Get(light, "accent"), primary), convert)
  }

  function DestructiveSwatch(light: ThemeGenerator.Vars, convert: string -> (int, int, int)): string {
    ExtractColor(OrElse(Get(light, "destructive"), "#ef4444"), convert)
  }

  /** `ThemePreview({ themeName })`: `None` stands for the four grey
      placeholder dots shown for a name the registry lacks. */
  function Preview(registry: seq<Item>, themeName: string, convert: string -> (int, int, int)): Option<Swatches> {
    var found := ThemeGenerator.Find(registry, themeName);
    if found.None? then None
    else
      var light := LightVars(found.value);
      var primary := PrimarySwatch(light, convert);
      Some(Swatches(OrElse(found.value.labelText, themeName), primary, SecondarySwatch(light, convert),
                    AccentSwatch(light, primary, convert), DestructiveSwatch(light, convert)))
  }

  /** A key that is missing or empty. */
  predicate Blank(vars: ThemeGenerator.Vars, key: string) {
    var v := Get(vars, key);
    v.None? || v.value == ""
  }

  /** The swatch fallbacks: black primary, secondary from muted and then
      light grey, accent equal to the primary swatch, red destructive. */
  lemma SwatchFallbacks(light: ThemeGenerator.Vars, convert: string -> (int, int, int))
    ensures Blank(light, "primary") ==> PrimarySwatch(light, convert) == "#000000"
    ensures Blank(light, "secondary") && Blank(light, "muted") ==> SecondarySwatch(light, convert) == "#f5f5f5"
    ensures Blank(light, "accent") ==> AccentSwatch(light, PrimarySwatch(light, convert), convert) == PrimarySwatch(light, convert)
    ensures Blank(light, "destructive") ==> DestructiveSwatch(light, convert) == "#ef4444"
  {
    Fallback(Get(light, "primary"), "#000000", convert);
    SecondaryFallback(light, convert);
    AccentFallback(light, convert);
    Fallback(Get(light, "destructive"), "#ef4444", convert);
  }

  lemma SecondaryFallback(light: ThemeGenerator.Vars, convert: string -> (int, int, int))
    ensures Blank(light, "secondary") && Blank(light, "muted") ==> SecondarySwatch(light, convert) == "#f5f5f5"
  {
    if Blank(light, "secondary") && Blank(light, "muted") {
      assert OrElse(Get(light, "secondary"), OrElse(Get(light, "muted"), "#f5f5f5")) == "#f5f5f5";
      LiteralColor("#f5f5f5", convert);
    }
  }

  lemma AccentFallback(light: ThemeGenerator.Vars, convert: string -> (int, int, int))
    ensures Blank(light, "accent") ==> AccentSwatch(light, PrimarySwatch(light, convert), convert) == PrimarySwatch(light, convert)
  {
    var p := PrimarySwatch(light, convert);
    if Blank(light, "accent") {
      assert OrElse(Get(light, "accent"), p) == p;
      ExtractIdempotent(OrElse(Get(light, "primary"), "#000000"), convert);
    }
  }

  /** The preview exists exactly for the names the registry has, and its
      swatches are those of the first item of that name. */
  lemma PreviewSpec(registry: seq<Item>, themeName: string, convert: string -> (int, int, int))
    ensures Preview(registry, themeName, convert).None? <==> !ThemeGenerator.Named(registry, themeName)
    ensures var p := Preview(registry, themeName, convert);
            p.Some? ==>
              var light := LightVars(ThemeGenerator.Find(registry, themeName).value);
              p.value.primary == PrimarySwatch(light, convert)
              && p.value.accent == AccentSwatch(light, p.value.primary, convert)
  {
  }

  /** A missing or empty value falls back to a literal colour, which
      extraction keeps. */
  lemma Fallback(v: Option<string>, c: string, convert: string -> (int, int, int))
    requires |c| > 0 && c[0] == '#' && !IsSpace(c[|c| - 1])
    ensures v.None? || v.value == "" ==> ExtractColor(OrElse(v, c), convert) == c
  {
    LiteralColor(c, convert);
  }

  /** Removes every `'` and `"`: `.replace(/['"]/g, '')`. */
  function StripQuotes(s: string): (r: string)
    ensures |r| <= |s|
    ensures forall c :: c in r <==> c in s && c != '\'' && c != '"'
  {
    if s == [] then []
    else
      var rest := StripQuotes(s[1..]);
      assert forall c :: c in s <==> c == s[0] || c in s[1..];
      if s[0] == '\'' || s[0] == '"' then rest else [s[0]] + rest
  }

  /** `getThemeFont(themeName)`: the shared `font-sans`, else the light
      one, without quotes. */
  function ThemeFont(registry: seq<Item>, themeName: string): Option<string> {
    var found := ThemeGenerator.Find(registry, themeName);
    if found.None? then None
    else
      var shared := found.value.cssVars.theme.GetOr([]);
      var font := OrElse(Get(shared, "font-sans"), OrElse(Get(LightVars(found.value), "font-sans"), ""));
      if font != "" then Some(StripQuotes(font)) else None
  }

  /** The shared font wins over the light one; there is no font exactly
      when the theme is unknown or both are missing or empty. */
  lemma ThemeFontSpec(registry: seq<Item>, themeName: string)
    ensures var found := ThemeGenerator.Find(registry, themeName);
            var f := ThemeFont(registry, themeName);
            (f.None? <==> found.None? || (Blank(found.value.cssVars.theme.GetOr([]), "font-sans")
                                          && Blank(LightVars(found.value), "font-sans")))
            && (found.Some? && !Blank(found.value.cssVars.theme.GetOr([]), "font-sans") ==>
                  f == Some(StripQuotes(Get(found.value.cssVars.theme.GetOr([]), "font-sans").value)))
            && (found.Some? && Blank(found.value.cssVars.theme.GetOr([]), "font-sans")
                && !Blank(LightVars(found.value), "font-sans") ==>
                  f == Some(StripQuotes(Get(LightVars(found.value), "font-sans").value)))
            && (f.Some? ==> '\'' !in f.value && '"' !in f.value)
  {
  }

  /** `getPrimaryColor(themeName)`. */
  function PrimaryColor(registry: seq<Item>, themeName: string, convert: string -> (int, int, int)): Option<string> {
    var found := ThemeGenerator.Find(registry, themeName);
    if found.None? then None
    else
      var primary := Get(LightVars(found.value), "primary");
      if primary.Some? && primary.value != "" then Some(ExtractColor(primary.value, convert)) else None
  }

  /** An option's colour, when it has one, is the primary swatch of its
      preview. */
  lemma PrimaryColorIsSwatch(registry: seq<Item>, themeName: string, convert: string -> (int, int, int))
    ensures var c := PrimaryColor(registry, themeName, convert);
            c.Some? ==> Preview(registry, themeName, convert).Some?
                        && c.value == Preview(registry, themeName, convert).value.primary
  {
  }

  // ---------------------------------------------------------------------
  // The current theme and the options
  // ---------------------------------------------------------------------

  /** `effectiveTheme` (equal to `detectedTheme`): the detected theme of a
      non-empty stylesheet, else the theme the parent passed. */
  function Effective(globalCss: Option<string>, currentTheme: string, detect: string -> string): (t: string)
    ensures globalCss.None? || globalCss.value == "" ==> t == currentTheme
    ensures globalCss.Some? && globalCss.value != "" ==> t == detect(globalCss.value)
  {
    if globalCss.Some? && globalCss.value != "" then detect(globalCss.value) else currentTheme
  }

  /** `handleThemeSelect(value)`: the value passed to `onThemeChange`, if
      it is called. */
  function HandleThemeSelect(value: string, effective: string): (call: Option<string>)
    ensures call.None? <==> value == effective
    ensures call.Some? ==> call.value == value
  {
    if value == effective then None else Some(value)
  }

  /** The registry items of type `registry:style`, in registry order. */
  function Styles(registry: seq<Item>): (r: seq<Item>)
    ensures forall x :: x in r <==> x in registry && x.kind == "registry:style"
    decreases |registry|
  {
    if registry == [] then []
    else
      assert forall x :: x in registry <==> x == registry[0] || x in registry[1..];
      (if registry[0].kind == "registry:style" then [registry[0]] else []) + Styles(registry[1..])
  }

  /** Filtering keeps the order: it distributes over concatenation. */
  lemma {:induction false} StylesAppend(a: seq<Item>, b: seq<Item>)
    ensures Styles(a + b) == Styles(a) + Styles(b)
    decreases |a|
  {
    if a != [] {
      assert (a + b)[0] == a[0];
      assert (a + b)[1..] == a[1..] + b;
      StylesAppend(a[1..], b);
      var head := if a[0].kind == "registry:style" then [a[0]] else [];
      calc {
        Styles(a + b);
        head + Styles(a[1..] + b);
        head + (Styles(a[1..]) + Styles(b));
        (head + Styles(a[1..])) + Styles(b);
        Styles(a) + Styles(b);
      }
    } else {
      assert a + b == b;
    }
  }

  /** The option of one style item. */
  function OptionOf(registry: seq<Item>, item: Item, convert: string -> (int, int, int)): Combobox.Choice {
    Combobox.Choice(item.name, OrElse(item.labelText, item.name), true,
                    ThemeFont(registry, item.name), PrimaryColor(registry, item.name, convert))
  }

  function StyleOptions(registry: seq<Item>, items: seq<Item>, convert: string -> (int, int, int)): (opts: seq<Combobox.Choice>)
    ensures |opts| == |items|
    ensures forall k :: 0 <= k < |items| ==> opts[k] == OptionOf(registry, items[k], convert)
  {
    seq(|items|, k requires 0 <= k < |items| => OptionOf(registry, items[k], convert))
  }

  const CustomChoice: Combobox.Choice := Combobox.Choice("custom", "Custom", true, None, Some("#a855f7"))

  predicate HasValue(opts: seq<Combobox.Choice>, v: string) {
    exists k :: 0 <= k < |opts| && opts[k].value == v
  }

  /** `options`: the styles, then "Custom" when the current theme is
      `"custom"` and no style is named so. */
  function Options(registry: seq<Item>, effective: string, convert: string -> (int, int, int)): seq<Combobox.Choice> {
    WithCustom(StyleOptions(registry, Styles(registry), convert), effective)
  }

  function WithCustom(opts: seq<Combobox.Choice>, effective: string): seq<Combobox.Choice> {
    if effective == "custom" && !HasValue(opts, "custom") then opts + [CustomChoice] else opts
  }

  /** One option per style item, in order, labelled by its label or else
      its name, and "Custom" last exactly when the current theme is custom
      and no style already has that value. */
  lemma OptionsSpec(registry: seq<Item>, effective: string, convert: string -> (int, int, int))
    ensures var styles := Styles(registry);
            var opts := Options(registry, effective, convert);
            var added := effective == "custom" && !ThemeGenerator.Named(styles, "custom");
            |opts| == |styles| + (if added then 1 else 0)
            && (forall k :: 0 <= k < |styles| ==>
                  opts[k].value == styles[k].name && opts[k].labelText == OrElse(styles[k].labelText, styles[k].name))
            && (added ==> opts[|opts| - 1] == CustomChoice)
  {
    var styles := Styles(registry);
    var base := StyleOptions(registry, styles, convert);
    StyleValues(registry, styles, convert, "custom");
    var opts := Options(registry, effective, convert);
    if effective == "custom" && !HasValue(base, "custom") {
      assert opts == base + [CustomChoice];
      assert forall k :: 0 <= k < |styles| ==> opts[k] == base[k];
    } else {
      assert opts == base;
    }
  }

  /** The current theme is always among the options when it is custom, and
      "custom" then occurs once when "Custom" had to be added. */
  lemma CustomOptionSpec(registry: seq<Item>, effective: string, convert: string -> (int, int, int))
    ensures HasValue(Options(registry, effective, convert), "custom")
            <==> effective == "custom" || ThemeGenerator.Named(Styles(registry), "custom")
    ensures effective == "custom" && !ThemeGenerator.Named(Styles(registry), "custom")
            ==> AtMostOnce(Options(registry, effective, convert), "custom")
  {
    var styles := Styles(registry);
    var base := StyleOptions(registry, styles, convert);
    StyleValues(registry, styles, convert, "custom");
    CustomAdded(base, effective);
  }

  /** "Custom" is among the options exactly when the current theme is
      custom or a given option already has that value; once added it is
      the only one. */
  lemma CustomAdded(base: seq<Combobox.Choice>, effective: string)
    ensures HasValue(WithCustom(base, effective), "custom") <==> effective == "custom" || HasValue(base, "custom")
    ensures effective == "custom" && !HasValue(base, "custom") ==> AtMostOnce(WithCustom(base, effective), "custom")
  {
    if effective == "custom" && !HasValue(base, "custom") {
      AppendedOnce(base, CustomChoice);
    }
  }

  /** No two options carry the value `v`. */
  predicate AtMostOnce(opts: seq<Combobox.Choice>, v: string) {
    forall i, j :: 0 <= i < j < |opts| ==> !(opts[i].value == v && opts[j].value == v)
  }

  /** An option appended after options without its value is the only one
      with that value. */
  lemma AppendedOnce(base: seq<Combobox.Choice>, c: Combobox.Choice)
    requires !HasValue(base, c.value)
    ensures HasValue(base + [c], c.value)
    ensures AtMostOnce(base + [c], c.value)
  {
    var opts := base + [c];
    forall i, j | 0 <= i < j < |opts| ensures !(opts[i].value == c.value && opts[j].value == c.value) {
      assert opts[i] == base[i];
    }
    assert opts[|base|] == c;
  }

  /** A value is among the style options exactly when a style has that
      name. */
  lemma StyleValues(registry: seq<Item>, styles: seq<Item>, convert: string -> (int, int, int), v: string)
    ensures HasValue(StyleOptions(registry, styles, convert), v) <==> ThemeGenerator.Named(styles, v)
  {
    var base := StyleOptions(registry, styles, convert);
    if HasValue(base, v) {
      var k :| 0 <= k < |base| && base[k].value == v;
      assert styles[k].name == v;
    }
    if exists k :: 0 <= k < |styles| && styles[k].name == v {
      var k :| 0 <= k < |styles| && styles[k].name == v;
      assert base[k].value == v;
    }
  }

  // ---------------------------------------------------------------------
  // Picking a theme through the picker
  // ---------------------------------------------------------------------

  /** Picking option `option` in the picker whose value is the current
      theme: the picker reports `""` for the checked option, and the
      handler passes on whatever differs from the current theme. */
  function PickAsWritten(option: Combobox.Choice, effective: string): Option<string> {
    HandleThemeSelect(Combobox.Reported(option, Some(effective)), effective)
  }

  /** Re-picking the current theme is not a no-op: the parent is told to
      switch to the theme named `""`. */
  lemma RepickReportsEmpty(option: Combobox.Choice, effective: string)
    requires option.value == effective && effective != ""
    ensures PickAsWritten(option, effective) == Some("")
  {
  }

  /** The handler with the empty report, the picker's "deselect", ignored
      as well. */
  function HandleThemeSelectIntended(value: string, effective: string): (call: Option<string>)
    ensures call.None? <==> value == "" || value == effective
    ensures call.Some? ==> call.value == value
  {
    if value == "" || value == effective then None else Some(value)
  }

  function Pick(option: Combobox.Choice, effective: string): Option<string> {
    HandleThemeSelectIntended(Combobox.Reported(option, Some(effective)), effective)
  }

  /** Through the picker, the intended handler calls `onThemeChange` once,
      with the picked theme, exactly when a theme other than the current
      one is picked; it agrees with the code as written on every such
      pick. */
  lemma PickSpec(option: Combobox.Choice, effective: string)
    requires option.value != ""
    ensures Pick(option, effective).None? <==> option.value == effective
    ensures Pick(option, effective).Some? ==> Pick(option, effective).value == option.value
    ensures option.value != effective ==> Pick(option, effective) == PickAsWritten(option, effective)
  {
  }
}
