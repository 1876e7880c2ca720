/** `JSON.stringify` of an array of strings, as the dependency scripts
    store a package list in a CSV cell, following the string quoting of
    section 25.5.2.3 (QuoteJSONString) of ECMA-262, together with a decoder
    for JSON string arrays that undoes it. */
module Json {
  import opened Wrappers

  const Backspace: char := 8 as char
  const FormFeed: char := 12 as char

  /** The lowercase hexadecimal digit of `n`. */
  function HexDigit(n: nat): (c: char)
    requires n < 16
    ensures HexValue(c) == Some(n)
  {
    if n < 10 then ('0' as int + n) as char else ('a' as int + n - 10) as char
  }

  /** The value of a hexadecimal digit of either case. */
  function HexValue(c: char): (r: Option<nat>)
    ensures r.Some? ==> r.value < 16
  {
    if '0' <= c <= '9' then Some(c as int - '0' as int)
    else if 'a' <= c <= 'f' then Some(c as int - 'a' as int + 10)
    else if 'A' <= c <= 'F' then Some(c as int - 'A' as int + 10)
    else None
  }

  /** The text that stands for one character inside a JSON string. */
  function EscapeChar(c: char): (r: string)
    ensures |r| >= 1
    ensures r[0] == '\\' <==> (c == '"' || c == '\\' || c < ' ')
    ensures r[0] != '\\' ==> r == [c]
  {
    if c == '"' then "\\\""
    else if c == '\\' then "\\\\"
    else if c == Backspace then "\\b"
    else if c == FormFeed then "\\f"
    else if c == '\n' then "\\n"
    else if c == '\r' then "\\r"
    else if c == '\t' then "\\t"
    else if c < ' ' then "\\u00" + [HexDigit(c as int / 16), HexDigit(c as int % 16)]
    else [c]
  }

  /** The escaped body of a JSON string. */
  function Escape(s: string): (r: string)
    ensures |r| >= |s|
    decreases |s|
  {
    if s == [] then [] else EscapeChar(s[0]) + Escape(s[1..])
  }

  /** `JSON.stringify(s)` for a string. */
  function Quote(s: string): string {
    "\"" + Escape(s) + "\""
  }

  /** The items of the array text, separated by commas. */
  function Items(xs: seq<string>): string
    decreases |xs|
  {
    if xs == [] then ""
    else if |xs| == 1 then Quote(xs[0])
    else Quote(xs[0]) + "," + Items(xs[1..])
  }

  /** `JSON.stringify(xs)` for an array of strings: no whitespace. */
  function Stringify(xs: seq<string>): (r: string)
    ensures |r| >= 2 && r[0] == '[' && r[|r| - 1] == ']'
  {
    "[" + Items(xs) + "]"
  }

  // ---------------------------------------------------------------------
  // Decoding
  // ---------------------------------------------------------------------

  /** The character a `\u` escape with four hexadecimal digits names;
      surrogate halves are not decoded. */
  function UnicodeEscape(t: string): Option<char>
    requires |t| >= 4
  {
    match (HexValue(t[0]), HexValue(t[1]), HexValue(t[2]), HexValue(t[3]))
    case (Some(a), Some(b), Some(c), Some(d)) =>
      var v := ((a * 16 + b) * 16 + c) * 16 + d;
      if 0xD800 <= v < 0xE000 then None else Some(v as char)
    case _ => None
  }

  /** The character a one-letter escape names. */
  function ShortEscape(c: char): Option<char> {
    if c == '"' then Some('"')
    else if c == '\\' then Some('\\')
    else if c == '/' then Some('/')
    else if c == 'b' then Some(Backspace)
    else if c == 'f' then Some(FormFeed)
    else if c == 'n' then Some('\n')
    else if c == 'r' then Some('\r')
    else if c == 't' then Some('\t')
    else None
  }

  function Prepend(c: char, r: Option<(string, string)>): Option<(string, string)> {
    match r
    case Some((s, rest)) => Some(([c] + s, rest))
    case None => None
  }

  /** Reads the body of a JSON string up to its closing quote: the decoded
      text and what follows the quote. */
  function DecodeBody(t: string): Option<(string, string)>
    decreases |t|
  {
    if t == [] then None
    else if t[0] == '"' then Some(([], t[1..]))
    else if t[0] == '\\' then
      if |t| < 2 then None
      else if t[1] == 'u' then
        if |t| < 6 then None
        else match UnicodeEscape(t[2..6])
          case Some(c) => Prepend(c, DecodeBody(t[6..]))
          case None => None
      else match ShortEscape(t[1])
        case Some(c) => Prepend(c, DecodeBody(t[2..]))
        case None => None
    else if t[0] < ' ' then None
    else Prepend(t[0], DecodeBody(t[1..]))
  }

  /** Reads `"…"` items separated by commas up to the closing bracket. */
  function DecodeItems(t: string): Option<seq<string>>
    decreases |t|
  {
    if t == [] || t[0] != '"' then None
    else match DecodeBody(t[1..])
      case None => None
      case Some((s, rest)) =>
        if rest == "]" then Some([s])
        else if |rest| > 0 && rest[0] == ',' then
          DecodeItemsShorter(t[1..]);
          match DecodeItems(rest[1..])
          case Some(more) => Some([s] + more)
          case None => None
        else None
  }

  /** What is left after a string body is shorter than the text it was
      read from. */
  lemma {:induction false} DecodeItemsShorter(t: string)
    requires DecodeBody(t).Some?
    ensures |DecodeBody(t).value.1| < |t|
    decreases |t|
  {
    if t[0] != '"' {
      if t[0] == '\\' {
        if t[1] == 'u' { DecodeItemsShorter(t[6..]); } else { DecodeItemsShorter(t[2..]); }
      } else {
        DecodeItemsShorter(t[1..]);
      }
    }
  }

  /** `JSON.parse(t)` where `t` is an array of strings without whitespace. */
  function DecodeArray(t: string): Option<seq<string>> {
    if t == "[]" then Some([])
    else if |t| > 0 && t[0] == '[' then DecodeItems(t[1..])
    else None
  }

  // ---------------------------------------------------------------------
  // Round trip
  // ---------------------------------------------------------------------

  /** One escaped character decodes back to that character. */
  lemma EscapeCharDecodes(c: char, t: string)
    ensures DecodeBody(EscapeChar(c) + t) == Prepend(c, DecodeBody(t))
  {
    var e := EscapeChar(c);
    if c < ' ' && c != Backspace && c != FormFeed && c != '\n' && c != '\r' && c != '\t' {
      var hi := c as int / 16;
      var lo := c as int % 16;
      assert e == ['\\', 'u', '0', '0', HexDigit(hi), HexDigit(lo)];
      assert (e + t)[2..6] == ['0', '0', HexDigit(hi), HexDigit(lo)];
      assert (e + t)[6..] == t;
      assert ((0 * 16 + 0) * 16 + hi) * 16 + lo == c as int;
      assert UnicodeEscape((e + t)[2..6]) == Some(c);
    } else if e[0] == '\\' {
      assert (e + t)[2..] == t;
    } else {
      assert (e + t)[1..] == t;
    }
  }

  /** An escaped body followed by a quote decodes to the original text and
      what follows the quote. */
  lemma {:induction false} EscapeDecodes(s: string, rest: string)
    ensures DecodeBody(Escape(s) + "\"" + rest) == Some((s, rest))
    decreases |s|
  {
    if s == [] {
      assert Escape(s) + "\"" + rest == "\"" + rest;
    } else {
      assert Escape(s) + "\"" + rest == EscapeChar(s[0]) + (Escape(s[1..]) + "\"" + rest);
      EscapeCharDecodes(s[0], Escape(s[1..]) + "\"" + rest);
      EscapeDecodes(s[1..], rest);
      assert [s[0]] + s[1..] == s;
    }
  }

  /** A quoted string followed by the closing bracket decodes to a list of
      that string alone. */
  lemma QuotedLastDecodes(x: string)
    ensures DecodeItems("\"" + (Escape(x) + "\"" + "]")) == Some([x])
  {
    var t := "\"" + (Escape(x) + "\"" + "]");
    assert t[0] == '"' && t[1..] == Escape(x) + "\"" + "]";
    EscapeDecodes(x, "]");
  }

  /** A quoted string followed by a comma and more items decodes to that
      string followed by what the items decode to. */
  lemma QuotedMoreDecodes(x: string, more: string, ys: seq<string>)
    requires DecodeItems(more) == Some(ys)
    ensures DecodeItems("\"" + (Escape(x) + "\"" + ("," + more))) == Some([x] + ys)
  {
    var rest := "," + more;
    var t := "\"" + (Escape(x) + "\"" + rest);
    assert t[0] == '"' && t[1..] == Escape(x) + "\"" + rest;
    EscapeDecodes(x, rest);
    assert rest != "]" && rest[0] == ',' && rest[1..] == more;
  }

  /** What follows the first item of a non-empty list's text. */
  function AfterFirst(xs: seq<string>): string
    requires xs != []
  {
    if |xs| == 1 then "]" else "," + (Items(xs[1..]) + "]")
  }

  lemma ItemsShape(xs: seq<string>)
    requires xs != []
    ensures Items(xs) + "]" == "\"" + (Escape(xs[0]) + "\"" + AfterFirst(xs))
  {
    var e := Escape(xs[0]);
    assert Items(xs) + "]" == ("\"" + e + "\"") + AfterFirst(xs) by {
      if |xs| > 1 {
        Regroup(Quote(xs[0]), ",", Items(xs[1..]), "]");
      }
    }
    Regroup("\"", e, "\"", AfterFirst(xs));
  }

  lemma Regroup<T>(a: seq<T>, b: seq<T>, c: seq<T>, d: seq<T>)
    ensures a + b + c + d == a + (b + c + d)
  {
  }

  /** The items of a non-empty list, closed by a bracket, decode back to
      the list. */
  lemma {:induction false} ItemsDecode(xs: seq<string>)
    requires xs != []
    ensures DecodeItems(Items(xs) + "]") == Some(xs)
    decreases |xs|
  {
    ItemsShape(xs);
    if |xs| > 1 {
      ItemsDecode(xs[1..]);
      QuotedMoreDecodes(xs[0], Items(xs[1..]) + "]", xs[1..]);
    } else {
      QuotedLastDecodes(xs[0]);
    }
    HeadTail(xs);
  }

  lemma HeadTail<T>(xs: seq<T>)
    requires |xs| > 0
    ensures [xs[0]] + xs[1..] == xs
    ensures |xs| == 1 ==> xs == [xs[0]]
  {
  }

  /** `JSON.parse(JSON.stringify(xs))` gives back `xs`. */
  lemma StringifyDecodes(xs: seq<string>)
    ensures DecodeArray(Stringify(xs)) == Some(xs)
  {
    if xs != [] {
      var t := Stringify(xs);
      assert t[1..] == Items(xs) + "]" && t[0] == '[';
      assert t != "[]" by {
        assert Items(xs)[0] == '"';
        assert t[1] == '"';
      }
      ItemsDecode(xs);
    }
  }

  /** Two lists have the same text exactly when they are equal, so comparing
      the stored text compares the lists. */
  lemma StringifyInjective(xs: seq<string>, ys: seq<string>)
    ensures Stringify(xs) == Stringify(ys) <==> xs == ys
  {
    StringifyDecodes(xs);
    StringifyDecodes(ys);
  }
}
