/** Client-side checks on component code before it is stored
    (lib/code-utils.ts): a validator that reports errors and warnings, and
    the trimming done before storage. */
module LibCodeUtils {
  import opened Strings
  import ScriptCodeUtils

  /** The result of `validateCodeString`. */
  datatype Validation = Validation(isValid: bool, errors: seq<string>, warnings: seq<string>)

  const EmptyCodeError: string := "Code must be a non-empty string"
  const UnclosedQuotesError: string := "Found unclosed quotes in JSX attributes (check defaultValue and other attributes)"
  const DefaultValueError: string := "Found unclosed quote in defaultValue attribute"

  /** The three unclosed-quote patterns, tried in this order:
      `<[^>]*\s+\w+="\s*>`, `defaultValue=">` and `defaultValue='>`. */
  datatype QuotePattern = JsxAttribute | DefaultValueDouble | DefaultValueSingle

  const QuotePatterns: seq<QuotePattern> := [JsxAttribute, DefaultValueDouble, DefaultValueSingle]

  predicate AllWord(s: string, i: int, j: int)
    requires 0 <= i <= j <= |s|
  {
    forall k :: i <= k < j ==> IsWordChar(s[k])
  }

  /** `\w+="\s*>` at position `i`. */
  predicate WordAttributeTail(s: string, i: nat) {
    exists q :: i < q && q + 2 <= |s| && AllWord(s, i, q) && s[q] == '=' && s[q + 1] == '"'
                && ScriptCodeUtils.SpacesThenClose(s, q + 2)
  }

  /** `<[^>]*\s+\w+="\s*>` matches starting at the `<` at position `a`; one
      white space character `s[w]` stands for `\s+`, since white space is
      neither `>` nor a word character. */
  predicate JsxAttributeAt(s: string, a: nat) {
    a < |s| && s[a] == '<'
    && exists w :: a < w < |s| && ScriptCodeUtils.NoneOf(s, a + 1, w, '>') && IsSpace(s[w])
                   && WordAttributeTail(s, w + 1)
  }

  /** `pattern.test(code)` */
  predicate Test(p: QuotePattern, code: string) {
    match p
    case JsxAttribute => exists a :: 0 <= a < |code| && JsxAttributeAt(code, a)
    case DefaultValueDouble => Contains(code, "defaultValue=\">")
    case DefaultValueSingle => Contains(code, "defaultValue='>")
  }

  /** Some unclosed-quote pattern matches. */
  predicate AnyUnclosed(code: string) {
    exists p :: p in QuotePatterns && Test(p, code)
  }

  /** Contains `defaultValue=">` or `defaultValue='>`. */
  predicate HasOpenDefaultValue(code: string) {
    Contains(code, "defaultValue=\">") || Contains(code, "defaultValue='>")
  }

  /** `Possible mismatched brackets (${open} < vs ${close} >)` */
  function BracketWarning(open: nat, close: nat): string {
    "Possible mismatched brackets (" + NatToString(open) + " < vs " + NatToString(close) + " >)"
  }

  /** `validateCodeString(code)` */
  method ValidateCodeString(code: string) returns (v: Validation)
    ensures code == "" ==> v == Validation(false, [EmptyCodeError], [])
    ensures v.isValid <==> v.errors == []
    ensures code != "" ==> v.errors == (if AnyUnclosed(code) then [UnclosedQuotesError] else [])
                                       + (if HasOpenDefaultValue(code) then [DefaultValueError] else [])
    ensures code != "" ==> v.warnings == (if CountChar(code, '<') != CountChar(code, '>')
                                          then [BracketWarning(CountChar(code, '<'), CountChar(code, '>'))]
                                          else [])
  {
    var errors: seq<string> := [];
    var warnings: seq<string> := [];
    if code == "" {
      errors := errors + [EmptyCodeError];
      return Validation(false, errors, warnings);
    }
    var i := 0;
    while i < |QuotePatterns|
      invariant 0 <= i <= |QuotePatterns|
      invariant errors == []
      invariant forall j :: 0 <= j < i ==> !Test(QuotePatterns[j], code)
    {
      if Test(QuotePatterns[i], code) {
        errors := errors + [UnclosedQuotesError];
        break;
      }
      i := i + 1;
    }
    assert errors == (if AnyUnclosed(code) then [UnclosedQuotesError] else []);
    var openBrackets := CountChar(code, '<');
    var closeBrackets := CountChar(code, '>');
    if openBrackets != closeBrackets {
      warnings := warnings + [BracketWarning(openBrackets, closeBrackets)];
    }
    if HasOpenDefaultValue(code) {
      errors := errors + [DefaultValueError];
    }
    return Validation(|errors| == 0, errors, warnings);
  }

  /** An open `defaultValue` attribute is reported twice: once by the
      pattern loop and once by the dedicated check. */
  lemma OpenDefaultValueTwoErrors(code: string)
    requires HasOpenDefaultValue(code)
    ensures AnyUnclosed(code)
    ensures code != ""
  {
    if Contains(code, "defaultValue=\">") {
      assert Test(DefaultValueDouble, code) && DefaultValueDouble in QuotePatterns;
    } else {
      assert Test(DefaultValueSingle, code) && DefaultValueSingle in QuotePatterns;
    }
  }

  /** Code without `<` can only be flagged through `defaultValue`. */
  lemma NoAngleOnlyDefaultValue(code: string)
    requires '<' !in code
    ensures AnyUnclosed(code) <==> HasOpenDefaultValue(code)
  {
    forall a | 0 <= a < |code| ensures !JsxAttributeAt(code, a) {
      assert code[a] in code;
    }
    if HasOpenDefaultValue(code) {
      OpenDefaultValueTwoErrors(code);
    }
  }

  /** `prepareCodeForStorage(code)`: "" for empty input, otherwise the
      trimmed code. */
  function PrepareCodeForStorage(code: string): (r: string)
    ensures IsTrimmed(r)
    ensures code == "" ==> r == ""
    ensures |r| <= |code|
  {
    if code == "" then "" else Trim(code)
  }

  /** Preparing prepared code changes nothing. */
  lemma PrepareIdempotent(code: string)
    ensures PrepareCodeForStorage(PrepareCodeForStorage(code)) == PrepareCodeForStorage(code)
  {
    TrimIdempotent(code);
  }
}
