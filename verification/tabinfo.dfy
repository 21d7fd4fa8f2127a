/**
 * The text rules of the info sidebar (src/ui/tab-info.js): the `jsonFilter` used when a value is
 * rendered as JSON, the cut of long string values, the HTML escape chain applied to every cell,
 * and the sentence terminator of the suggestion shown when nothing is selected.
 */
module TabInfo {
  import opened Nodes
  import opened Utils

  /** `value.substring(0,30)+" ..."` for strings over 30 characters, the string itself otherwise. */
  function Truncate(s: string): (r: string)
    ensures |s| <= 30 ==> r == s
    ensures |s| > 30 ==> |r| == 34 && r[..30] == s[..30] && r[30..] == " ..."
  {
    if |s| > 30 then s[..30] + " ..." else s
  }

  /**
   * `jsonFilter(key, value)`: the root (key "") passes through; arrays become "[array:N]",
   * objects and null "[object]", strings over 30 characters are cut; anything else passes.
   */
  function JsonFilter(key: string, value: Value): (r: Value)
    ensures key == "" ==> r == value
    ensures key != "" && value.Arr? ==> r == Str("[array:" + NatToString(|value.items|) + "]")
    ensures key != "" && (value.Obj? || value.Null?) ==> r == Str("[object]")
    ensures key != "" && value.Str? ==> r == Str(Truncate(value.s))
    ensures key != "" && (value.Num? || value.Bool? || value.Undefined?) ==> r == value
  {
    if key == "" then value
    else
      match value
      case Arr(items) => Str("[array:" + NatToString(|items|) + "]")
      case Obj(_) => Str("[object]")
      case Null => Str("[object]")
      case Str(s) => Str(Truncate(s))
      case _ => value
  }

  /** A filtered non-root value is never an array or an object. */
  lemma JsonFilterFlattens(key: string, value: Value)
    requires key != ""
    ensures !JsonFilter(key, value).Arr? && !JsonFilter(key, value).Obj?
  {
  }

  // ---------------------------------------------------------------- escaping

  /** `s.replace(/c/g, rep)`: every occurrence of `c` replaced by `rep`. */
  function ReplaceAll(s: string, c: char, rep: string): (r: string)
  {
    if s == [] then [] else (if s[0] == c then rep else [s[0]]) + ReplaceAll(s[1..], c, rep)
  }

  /** Text without `c` is left alone. */
  lemma {:induction false} ReplaceAllAbsent(s: string, c: char, rep: string)
    requires c !in s
    ensures ReplaceAll(s, c, rep) == s
  {
    if s != [] {
      ReplaceAllAbsent(s[1..], c, rep);
      assert s == [s[0]] + s[1..];
    }
  }

  /** Replacing distributes over concatenation. */
  lemma {:induction false} ReplaceAllConcat(a: string, b: string, c: char, rep: string)
    ensures ReplaceAll(a + b, c, rep) == ReplaceAll(a, c, rep) + ReplaceAll(b, c, rep)
  {
    if a == [] {
      assert a + b == b;
    } else {
      var head := if a[0] == c then rep else [a[0]];
      ReplaceAllConcat(a[1..], b, c, rep);
      assert (a + b)[0] == a[0];
      assert (a + b)[1..] == a[1..] + b;
      calc {
        ReplaceAll(a + b, c, rep);
        head + ReplaceAll(a[1..] + b, c, rep);
        head + (ReplaceAll(a[1..], c, rep) + ReplaceAll(b, c, rep));
        (head + ReplaceAll(a[1..], c, rep)) + ReplaceAll(b, c, rep);
        ReplaceAll(a, c, rep) + ReplaceAll(b, c, rep);
      }
    }
  }

  /** The escape chain of the sidebar: '&' first, then '<', then '>'. */
  function Escape(s: string): string {
    ReplaceAll(ReplaceAll(ReplaceAll(s, '&', "&amp;"), '<', "&lt;"), '>', "&gt;")
  }

  /** What the chain does to one character. */
  function EscapeChar(c: char): string {
    if c == '&' then "&amp;" else if c == '<' then "&lt;" else if c == '>' then "&gt;" else [c]
  }

  /** The single-pass reference: each character escaped on its own. */
  function EscapeEach(s: string): (r: string)
    ensures '<' !in r && '>' !in r
  {
    if s == [] then [] else EscapeChar(s[0]) + EscapeEach(s[1..])
  }

  lemma ReplaceAllOne(x: char, c: char, rep: string)
    ensures ReplaceAll([x], c, rep) == if x == c then rep else [x]
  {
    assert [x][1..] == [];
  }

  lemma EscapeOneChar(c: char)
    ensures Escape([c]) == EscapeChar(c)
  {
    ReplaceAllOne(c, '&', "&amp;");
    if c == '&' {
      ReplaceAllAbsent("&amp;", '<', "&lt;");
      ReplaceAllAbsent("&amp;", '>', "&gt;");
    } else {
      ReplaceAllOne(c, '<', "&lt;");
      if c == '<' {
        ReplaceAllAbsent("&lt;", '>', "&gt;");
      } else {
        ReplaceAllOne(c, '>', "&gt;");
      }
    }
  }

  /** Escaping '&' before '<' and '>' makes the chain equal to escaping each character once. */
  lemma {:induction false} EscapeIsEach(s: string)
    ensures Escape(s) == EscapeEach(s)
  {
    if s != [] {
      EscapeIsEach(s[1..]);
      var a, b := [s[0]], s[1..];
      assert s == a + b;
      var r1a, r1b := ReplaceAll(a, '&', "&amp;"), ReplaceAll(b, '&', "&amp;");
      ReplaceAllConcat(a, b, '&', "&amp;");
      var r2a, r2b := ReplaceAll(r1a, '<', "&lt;"), ReplaceAll(r1b, '<', "&lt;");
      ReplaceAllConcat(r1a, r1b, '<', "&lt;");
      ReplaceAllConcat(r2a, r2b, '>', "&gt;");
      EscapeOneChar(s[0]);
    }
  }

  /** The escaped text holds no '<' and no '>'. */
  lemma EscapeNoAngles(s: string)
    ensures '<' !in Escape(s) && '>' !in Escape(s)
  {
    EscapeIsEach(s);
  }

  /** Reading the three entities back: the inverse of the escape chain. */
  function Unescape(t: string): string
    decreases |t|
  {
    if t == [] then []
    else if |t| >= 5 && t[..5] == "&amp;" then ['&'] + Unescape(t[5..])
    else if |t| >= 4 && t[..4] == "&lt;" then ['<'] + Unescape(t[4..])
    else if |t| >= 4 && t[..4] == "&gt;" then ['>'] + Unescape(t[4..])
    else [t[0]] + Unescape(t[1..])
  }

  lemma UnescapeAmp(rest: string)
    ensures Unescape("&amp;" + rest) == ['&'] + Unescape(rest)
  {
    var t := "&amp;" + rest;
    assert t[..5] == "&amp;" && t[5..] == rest;
  }

  /** `&lt;` and `&gt;` read back as the bracket they stand for. */
  lemma UnescapeAngle(c: char, rest: string)
    requires c == '<' || c == '>'
    ensures Unescape(EscapeChar(c) + rest) == [c] + Unescape(rest)
  {
    var t := EscapeChar(c) + rest;
    assert t[1] == (if c == '<' then 'l' else 'g');
    assert t[..4] == EscapeChar(c) && t[4..] == rest;
  }

  lemma UnescapePlain(c: char, rest: string)
    requires c != '&'
    ensures Unescape([c] + rest) == [c] + Unescape(rest)
  {
    var t := [c] + rest;
    assert t[0] == c && t[1..] == rest;
  }

  lemma UnescapeStep(c: char, rest: string)
    ensures Unescape(EscapeChar(c) + rest) == [c] + Unescape(rest)
  {
    if c == '&' {
      UnescapeAmp(rest);
    } else if c == '<' || c == '>' {
      UnescapeAngle(c, rest);
    } else {
      UnescapePlain(c, rest);
    }
  }

  /** Unescaping the escaped text gives the original back. */
  lemma {:induction false} UnescapeEscape(s: string)
    ensures Unescape(Escape(s)) == s
  {
    EscapeIsEach(s);
    UnescapeEach(s);
  }

  lemma {:induction false} UnescapeEach(s: string)
    ensures Unescape(EscapeEach(s)) == s
  {
    if s != [] {
      UnescapeEach(s[1..]);
      UnescapeStep(s[0], EscapeEach(s[1..]));
    }
  }

  /**
   * The cell shown for a string property in `refreshNode` and `refreshLink`: cut, then escaped;
   * it holds no markup and reads back as the cut value.
   */
  function StringCell(s: string): (r: string)
    ensures '<' !in r && '>' !in r
    ensures Unescape(r) == Truncate(s)
  {
    EscapeNoAngles(Truncate(s));
    UnescapeEscape(Truncate(s));
    Escape(Truncate(s))
  }

  // ---------------------------------------------------------------- clear()

  /** A text ends a sentence when its last character is '!' or '.'. */
  predicate EndsSentence(t: string) {
    |t| > 0 && (t[|t| - 1] == '!' || t[|t| - 1] == '.')
  }

  /**
   * `clear()`: a problem is prefixed "<strong>Problem: </strong>", anything else is prefixed
   * "<i>Suggestion: </i>" and gets a full stop; then a full stop is added unless the text
   * already ends with '!' or '.'.
   */
  function ClearText(isProblem: bool, text: string): (r: string)
    ensures EndsSentence(r)
    ensures isProblem && EndsSentence(text) ==> r == "<strong>Problem: </strong>" + text
    ensures isProblem && !EndsSentence(text) ==> r == "<strong>Problem: </strong>" + text + "."
    ensures !isProblem ==> r == "<i>Suggestion: </i>" + text + "."
  {
    var t := if isProblem then "<strong>Problem: </strong>" + text else "<i>Suggestion: </i>" + text + ".";
    if EndsSentence(t) then t else t + "."
  }
}
