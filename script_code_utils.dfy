/** The code cleaning and validation shared by the seeding scripts
    (scripts/code-utils.ts): unwrapping a JSON-encoded string, stripping a
    markdown fence or an inline backtick pair, undoing CSV quote doubling,
    and flagging a likely unclosed JSX attribute quote. */
module ScriptCodeUtils {
  import opened Wrappers
  import opened Strings

  /** `JSON.parse(text)` as far as the cleaners use it: `Some(v)` when the
      text parses to the string `v`; `None` when it throws or parses to
      something other than a string. */
  type StringParser = string -> Option<string>

  // ---------------------------------------------------------------------
  // JSON string unwrapping
  // ---------------------------------------------------------------------

  /** The text starts and ends with the same kind of quote. */
  predicate QuoteWrapped(s: string) {
    (StartsWith(s, "\"") && EndsWith(s, "\"")) || (StartsWith(s, "'") && EndsWith(s, "'"))
  }

  /** Replaces quote-wrapped text by the string it decodes to, when it is a
      JSON string. */
  function UnwrapJsonString(s: string, parse: StringParser): string {
    if QuoteWrapped(s) then
      match parse(s)
      case Some(v) => v
      case None => s
    else s
  }

  // ---------------------------------------------------------------------
  // Markdown fence
  // ---------------------------------------------------------------------

  /** The alternative of `(?:typescript|tsx|ts|javascript|jsx|js)` the
      regular expression takes at `i`: the first one, in that order, that
      the text continues with, or "" when it skips the group. */
  function FenceTag(s: string, i: nat): (t: string)
    requires i <= |s|
    ensures StartsWith(s[i..], t)
    ensures forall k :: 0 <= k < |t| ==> 'a' <= t[k] <= 'z'
  {
    var x := s[i..];
    if StartsWith(x, "typescript") then "typescript"
    else if StartsWith(x, "tsx") then "tsx"
    else if StartsWith(x, "ts") then "ts"
    else if StartsWith(x, "javascript") then "javascript"
    else if StartsWith(x, "jsx") then "jsx"
    else if StartsWith(x, "js") then "js"
    else ""
  }

  /** `s.match(/^```(?:typescript|tsx|ts|javascript|jsx|js)?\n?([\s\S]*?)\n?```$/)`:
      the captured body when the whole text is a fenced block.  The tag is
      the first alternative that fits, the newline after it is taken when
      present, and the lazy body stops before a final "\n```" when there is
      one. */
  function FenceBody(s: string): (r: Option<string>)
    ensures r.Some? <==> |s| >= 6 && StartsWith(s, "```") && EndsWith(s, "```")
    ensures r.Some? ==> exists p, q :: 3 <= p <= q <= |s| - 3 && r.value == s[p..q]
  {
    if |s| >= 6 && StartsWith(s, "```") && EndsWith(s, "```") then
      // The alternatives are made of letters, so looking for them before
      // the closing backticks finds the same one as looking in the whole
      // text; likewise for the newline after the tag.
      var inner := s[..|s| - 3];
      var tag := FenceTag(inner, 3);
      var p0 := 3 + |tag|;
      var p := if p0 < |inner| && inner[p0] == '\n' then p0 + 1 else p0;
      var q := if |s| - 4 >= p && s[|s| - 4] == '\n' then |s| - 4 else |s| - 3;
      Some(s[p..q])
    else None
  }

  /** A text that differs from `u` at position `k` does not start with `u`. */
  lemma NotPrefixAt(x: string, u: string, k: nat)
    requires k < |u| && k < |x| && x[k] != u[k]
    ensures !StartsWith(x, u)
  {
    if |u| <= |x| { assert x[..|u|][k] == x[k]; }
  }

  /** Fencing any text with any of the accepted tags (or none) and
      newlines around the body is undone by `FenceBody`. */
  lemma FenceRoundTrip(tag: string, body: string)
    requires tag in ["", "typescript", "tsx", "ts", "javascript", "jsx", "js"]
    ensures FenceBody("```" + tag + "\n" + body + "\n```") == Some(body)
  {
    var s := "```" + tag + "\n" + body + "\n```";
    var inner := s[..|s| - 3];
    assert StartsWith(s, "```") && EndsWith(s, "```") by {
      assert s[..3] == "```" && s[|s| - 3..] == "```";
    }
    assert inner[3..][..|tag|] == tag && inner[3..][|tag|] == '\n' by {
      var x := tag + "\n" + body + "\n";
      assert s == "```" + x + "```";
      assert inner == "```" + x;
      assert inner[3..] == x;
    }
    TagChosen(inner, 3, tag);
    assert s[3 + |tag|] == '\n' && s[|s| - 4] == '\n';
    assert s[4 + |tag|..|s| - 4] == body;
    FenceBodyTaken(s, tag);
  }

  /** With the tag and both newlines present, the body lies between them. */
  lemma FenceBodyTaken(s: string, tag: string)
    requires |s| >= 6 && StartsWith(s, "```") && EndsWith(s, "```")
    requires FenceTag(s[..|s| - 3], 3) == tag && 4 + |tag| <= |s| - 4
    requires s[3 + |tag|] == '\n' && s[|s| - 4] == '\n'
    ensures FenceBody(s) == Some(s[4 + |tag|..|s| - 4])
  {
  }

  /** When the text at `i` is an accepted tag followed by a newline, the
      alternatives tried before that tag all fail, so that tag is taken. */
  lemma TagChosen(s: string, i: nat, tag: string)
    requires tag in ["", "typescript", "tsx", "ts", "javascript", "jsx", "js"]
    requires i + |tag| < |s| && s[i..][..|tag|] == tag && s[i..][|tag|] == '\n'
    ensures FenceTag(s, i) == tag
  {
    var x := s[i..];
    if tag == "tsx" {
      NotPrefixAt(x, "typescript", 1);
    } else if tag == "ts" {
      NotPrefixAt(x, "typescript", 1); NotPrefixAt(x, "tsx", 2);
    } else if tag != "typescript" {
      NotPrefixAt(x, "typescript", 0); NotPrefixAt(x, "tsx", 0); NotPrefixAt(x, "ts", 0);
      if tag == "jsx" {
        NotPrefixAt(x, "javascript", 1);
      } else if tag == "js" {
        NotPrefixAt(x, "javascript", 1); NotPrefixAt(x, "jsx", 2);
      } else if tag == "" {
        NotPrefixAt(x, "javascript", 0); NotPrefixAt(x, "jsx", 0); NotPrefixAt(x, "js", 0);
      }
    }
  }

  // ---------------------------------------------------------------------
  // Inline backtick pair
  // ---------------------------------------------------------------------

  /** Drops the surrounding backticks when the text starts and ends with
      one and `split('`')` yields three pieces. */
  function StripBacktickPair(s: string): string {
    if StartsWith(s, "`") && EndsWith(s, "`") && |Split(s, '`')| == 3 then s[1..|s| - 1] else s
  }

  /** A backtick at each end accounts for two of the text's backticks. */
  lemma CountWrapped(s: string)
    requires |s| >= 2 && s[0] == '`' && s[|s| - 1] == '`'
    ensures CountChar(s, '`') == CountChar(s[1..|s| - 1], '`') + 2
  {
    var m := s[1..|s| - 1];
    assert s == ([s[0]] + m) + [s[|s| - 1]];
    CountCharAppend([s[0]] + m, [s[|s| - 1]], '`');
    CountCharAppend([s[0]], m, '`');
  }

  /** `split('`')` yields three pieces exactly when the text holds two
      backticks. */
  lemma ThreePieces(s: string)
    ensures |Split(s, '`')| == 3 <==> CountChar(s, '`') == 2
  {
    SplitCount(s, '`');
  }

  /** The pair is stripped exactly when the text starts and ends with a
      backtick and holds no other backtick; what remains then holds none. */
  lemma StripBacktickPairSpec(s: string)
    ensures var r := StripBacktickPair(s);
            (r != s <==> |s| >= 2 && s[0] == '`' && s[|s| - 1] == '`' && CountChar(s, '`') == 2)
            && (r != s ==> r == s[1..|s| - 1] && CountChar(r, '`') == 0)
  {
    var wrapped := |s| >= 2 && s[0] == '`' && s[|s| - 1] == '`';
    var two := CountChar(s, '`') == 2;
    ThreePieces(s);
    TickEnds(s);
    if s == "`" {
      assert CountChar(s, '`') == 1;
      assert StripBacktickPair(s) == s;
      assert !wrapped;
    } else if wrapped && two {
      CountWrapped(s);
      assert StripBacktickPair(s) == s[1..|s| - 1];
      assert |s[1..|s| - 1]| != |s|;
    } else {
      assert StripBacktickPair(s) == s;
    }
  }

  /** Starting and ending with a backtick: a lone backtick, or a backtick
      at each end of a longer text. */
  lemma TickEnds(s: string)
    ensures StartsWith(s, "`") && EndsWith(s, "`")
            <==> s == "`" || (|s| >= 2 && s[0] == '`' && s[|s| - 1] == '`')
  {
    if |s| >= 1 {
      assert StartsWith(s, "`") <==> s[0] == '`' by { assert s[..1] == [s[0]]; }
      assert EndsWith(s, "`") <==> s[|s| - 1] == '`' by { assert s[|s| - 1..] == [s[|s| - 1]]; }
      if |s| == 1 {
        assert s[0] == '`' ==> s == "`" by { assert s == [s[0]]; }
      }
    }
  }

  // ---------------------------------------------------------------------
  // cleanCode
  // ---------------------------------------------------------------------

  /** `cleaned.replace(/""/g, '"')` */
  function UndoubleQuotes(s: string): string {
    ReplaceAll(s, "\"\"", "\"")
  }

  /** The steps of `cleanCode` before its final `trim()`, for non-empty
      input. */
  function CleanSteps(code: string, parse: StringParser): string {
    var cleaned := UnwrapJsonString(Trim(code), parse);
    var unfenced := match FenceBody(cleaned) case Some(body) => body case None => cleaned;
    UndoubleQuotes(StripBacktickPair(unfenced))
  }

  /** `cleanCode(code)`: "" for empty input, otherwise the cleaning steps
      followed by `trim()`. */
  function CleanCode(code: string, parse: StringParser): (r: string)
    ensures code == "" ==> r == ""
    ensures IsTrimmed(r)
  {
    if code == "" then "" else Trim(CleanSteps(code, parse))
  }

  /** Text that is already trimmed, unquoted, unfenced, not wrapped in
      backticks and free of `""` comes back unchanged. */
  lemma CleanCodeKeepsPlainCode(code: string, parse: StringParser)
    requires IsTrimmed(code) && !QuoteWrapped(code) && FenceBody(code).None?
    requires StripBacktickPair(code) == code && !Contains(code, "\"\"")
    ensures CleanCode(code, parse) == code
  {
    if code != "" {
      TrimOfTrimmed(code);
      ReplaceAllAbsent(code, "\"\"", "\"");
    }
  }

  /** Un-doubling is one left-to-right pass: four quotes become two, so a
      `""` can survive it. */
  lemma UndoubleIsSinglePass()
    ensures UndoubleQuotes("\"\"\"\"") == "\"\""
    ensures UndoubleQuotes("\"\"\"") == "\"\""
  {
    assert "\"\"\"\""[..2] == "\"\"" && "\"\"\"\""[2..] == "\"\"";
    assert "\"\"\""[..2] == "\"\"" && "\"\"\""[2..] == "\"";
  }

  /** `prepareCodeForStorage(code)` */
  function PrepareCodeForStorage(code: string, parse: StringParser): (r: string)
    ensures r == CleanCode(code, parse) && IsTrimmed(r)
  {
    CleanCode(code, parse)
  }

  /** `prepareCodeFromCSV(code)` */
  function PrepareCodeFromCsv(code: string, parse: StringParser): (r: string)
    ensures r == CleanCode(code, parse) && IsTrimmed(r)
  {
    CleanCode(code, parse)
  }

  // ---------------------------------------------------------------------
  // validateCode
  // ---------------------------------------------------------------------

  /** No character of `s[i..j]` is `c`. */
  predicate NoneOf(s: string, i: int, j: int, c: char)
    requires 0 <= i <= j <= |s|
  {
    forall k :: i <= k < j ==> s[k] != c
  }

  /** `\s*>` at position `i`. */
  predicate SpacesThenClose(s: string, i: nat) {
    exists r :: i <= r < |s| && AllSpace(s[i..r]) && s[r] == '>'
  }

  /** `[^=]*="\s*>` at position `i`. */
  predicate AttributeTail(s: string, i: nat) {
    exists q :: i <= q && q + 2 <= |s| && NoneOf(s, i, q, '=') && s[q] == '=' && s[q + 1] == '"'
                && SpacesThenClose(s, q + 2)
  }

  /** `<[^>]*\s+[^=]*="\s*>` matches starting at the `<` at position `a`;
      one white space character `s[w]` stands for `\s+`, since the rest of
      the run is absorbed by `[^>]*`. */
  predicate UnclosedQuoteAt(s: string, a: nat) {
    a < |s| && s[a] == '<'
    && exists w :: a < w < |s| && NoneOf(s, a + 1, w, '>') && IsSpace(s[w]) && AttributeTail(s, w + 1)
  }

  /** `/<[^>]*\s+[^=]*="\s*>/.test(code)` */
  predicate HasUnclosedQuote(s: string) {
    exists a :: 0 <= a < |s| && UnclosedQuoteAt(s, a)
  }

  /** `Component ${componentId} (${codeType}): ${issues.join(', ')}` */
  function IssueReport(componentId: string, codeType: string, issues: seq<string>): (m: string)
    ensures StartsWith(m, "Component " + componentId + " (" + codeType + "): ")
    ensures |issues| == 1 ==> EndsWith(m, issues[0])
  {
    var head := "Component " + componentId + " (" + codeType + "): ";
    var m := head + Join(issues, ", ");
    assert m[..|head|] == head;
    m
  }

  /** `validateCode(code, componentId, codeType)`: `None` for blank code,
      otherwise a message exactly when the unclosed-quote pattern matches. */
  function ValidateCode(code: string, componentId: string, codeType: string): (r: Option<string>)
    ensures Trim(code) == "" ==> r.None?
    ensures r.Some? <==> Trim(code) != "" && HasUnclosedQuote(code)
    ensures r.Some? ==> r.value == IssueReport(componentId, codeType, ["Possible unclosed quotes in JSX attributes"])
  {
    if code == [] || Trim(code) == [] then None
    else if HasUnclosedQuote(code) then
      Some(IssueReport(componentId, codeType, ["Possible unclosed quotes in JSX attributes"]))
    else None
  }

  /** Code without a `<` is never flagged. */
  lemma NoAngleNoWarning(code: string, componentId: string, codeType: string)
    requires '<' !in code
    ensures ValidateCode(code, componentId, codeType).None?
  {
    forall a | 0 <= a < |code| ensures !UnclosedQuoteAt(code, a) {
      assert code[a] in code;
    }
  }

  /** An attribute whose value is opened but closed only by `>` is flagged. */
  lemma UnclosedAttributeFlagged()
    ensures HasUnclosedQuote("<input value=\">")
  {
    var s := "<input value=\">";
    assert AllSpace(s[14..14]) && s[14] == '>';
    assert SpacesThenClose(s, 14);
    assert NoneOf(s, 7, 12, '=') && s[12] == '=' && s[13] == '"';
    assert AttributeTail(s, 7);
    assert NoneOf(s, 1, 6, '>') && IsSpace(s[6]) && s[0] == '<';
    assert UnclosedQuoteAt(s, 0);
  }
}
