/**
 * The string and collection helpers of utils.js: whitespace trimming, splitting, `basename`,
 * `trimComma`, `extractLast`, `oc`, `includes`, `findInArray`, `getValue`, `GetQueryString`,
 * `propertiesToObject` and the truncation of `getPropertyForDisplay`.
 */
module Utils {
  import opened Wrappers
  import opened Seqs
  import opened Nodes

  // ---------------------------------------------------------------- whitespace

  /** The characters JavaScript's `trim` and the regular expression `\s` treat as white space. */
  predicate IsSpace(c: char) {
    '\t' <= c <= '\r' || c == ' ' || c == '\U{A0}' || c == '\U{1680}' || '\U{2000}' <= c <= '\U{200A}' ||
    c == '\U{2028}' || c == '\U{2029}' || c == '\U{202F}' || c == '\U{205F}' || c == '\U{3000}' || c == '\U{FEFF}'
  }

  /** `s` without its leading white space. */
  function TrimStart(s: string): (r: string)
    ensures |r| <= |s| && r == s[|s| - |r|..]
    ensures r == [] || !IsSpace(r[0])
    ensures forall i :: 0 <= i < |s| - |r| ==> IsSpace(s[i])
  {
    if s != [] && IsSpace(s[0]) then TrimStart(s[1..]) else s
  }

  /** `s` without its trailing white space. */
  function TrimEnd(s: string): (r: string)
    ensures |r| <= |s| && r == s[..|r|]
    ensures r == [] || !IsSpace(r[|r| - 1])
    ensures forall i :: |r| <= i < |s| ==> IsSpace(s[i])
  {
    if s != [] && IsSpace(s[|s| - 1]) then TrimEnd(s[..|s| - 1]) else s
  }

  /** `String.prototype.trim`. */
  function Trim(s: string): string {
    TrimEnd(TrimStart(s))
  }

  /** Trimming removes exactly the white space at both ends: what is left is a slice of the input that neither starts nor ends with white space. */
  lemma TrimSlice(s: string)
    ensures var i, r := |s| - |TrimStart(s)|, Trim(s); i + |r| <= |s| && r == s[i..i + |r|]
  {
    var t := TrimStart(s);
    var r := TrimEnd(t);
    var i := |s| - |t|;
    calc {
      s[i..i + |r|];
      s[i..][..|r|];
      t[..|r|];
      r;
    }
  }

  /** What trimming leaves neither starts nor ends with white space. */
  lemma TrimEnds(s: string)
    ensures var r := Trim(s); r == [] || (!IsSpace(r[0]) && !IsSpace(r[|r| - 1]))
  {
    var t := TrimStart(s);
    var r := TrimEnd(t);
    if r != [] {
      assert r[0] == t[0];
    }
  }

  /** Left-trimming twice is left-trimming once. */
  lemma TrimStartIdempotent(s: string)
    ensures TrimStart(TrimStart(s)) == TrimStart(s)
  {
    var r := TrimStart(s);
    assert r == [] || !IsSpace(r[0]);
  }

  /** Trimming twice is trimming once. */
  lemma TrimIdempotent(s: string)
    ensures Trim(Trim(s)) == Trim(s)
  {
    var r := Trim(s);
    TrimEnds(s);
    assert TrimStart(r) == r;
    assert TrimEnd(r) == r;
  }

  // ---------------------------------------------------------------- splitting

  /** `s.split(sep)` for a one-character separator: the pieces between separators, at least one. */
  function SplitOn(s: string, sep: char): (r: seq<string>)
    ensures |r| >= 1
  {
    if s == [] then [[]]
    else
      var rest := SplitOn(s[1..], sep);
      if s[0] == sep then [[]] + rest else [[s[0]] + rest[0]] + rest[1..]
  }

  /** `parts.join(sep)`. */
  function Join(parts: seq<string>, sep: char): string
    requires |parts| >= 1
  {
    if |parts| == 1 then parts[0] else parts[0] + [sep] + Join(parts[1..], sep)
  }

  /** A string without the separator is one piece; one with it is several. */
  lemma {:induction false} SplitOnCount(s: string, sep: char)
    ensures sep !in s ==> SplitOn(s, sep) == [s]
    ensures sep in s ==> |SplitOn(s, sep)| > 1
  {
    if s != [] {
      SplitOnCount(s[1..], sep);
      assert s == [s[0]] + s[1..];
    }
  }

  /** No piece of a split contains the separator. */
  lemma {:induction false} SplitOnPieces(s: string, sep: char)
    ensures forall k :: 0 <= k < |SplitOn(s, sep)| ==> sep !in SplitOn(s, sep)[k]
  {
    if s != [] {
      SplitOnPieces(s[1..], sep);
    }
  }

  /** Splitting at the first separator peels off the text before it. */
  lemma {:induction false} SplitOnFirst(a: string, sep: char, b: string)
    requires sep !in a
    ensures SplitOn(a + [sep] + b, sep) == [a] + SplitOn(b, sep)
  {
    var s := a + [sep] + b;
    if a == [] {
      assert s[1..] == b;
    } else {
      SplitOnFirst(a[1..], sep, b);
      assert s[1..] == a[1..] + [sep] + b;
      assert a == [a[0]] + a[1..];
    }
  }

  /** Joining the pieces of a split with the separator gives the string back. */
  lemma {:induction false} JoinSplit(s: string, sep: char)
    ensures Join(SplitOn(s, sep), sep) == s
  {
    if s != [] {
      var rest := SplitOn(s[1..], sep);
      JoinSplit(s[1..], sep);
      assert s == [s[0]] + s[1..];
      if s[0] != sep && |rest| > 1 {
        assert ([s[0]] + rest[0]) + [sep] + Join(rest[1..], sep) == [s[0]] + Join(rest, sep);
      }
    }
  }

  /** Splitting a join of separator-free pieces gives the pieces back. */
  lemma {:induction false} SplitJoin(parts: seq<string>, sep: char)
    requires |parts| >= 1 && forall i :: 0 <= i < |parts| ==> sep !in parts[i]
    ensures SplitOn(Join(parts, sep), sep) == parts
  {
    if |parts| > 1 {
      var rest := parts[1..];
      SplitOnFirst(parts[0], sep, Join(rest, sep));
      SplitJoin(rest, sep);
      assert parts == [parts[0]] + rest;
    } else {
      SplitOnCount(parts[0], sep);
    }
  }

  /** `basename(path)`: the text after the last '/' or '\\'. */
  function BaseName(path: string): (r: string)
    ensures '/' !in r && '\\' !in r
    ensures |r| <= |path| && r == path[|path| - |r|..]
    ensures |r| < |path| ==> path[|path| - |r| - 1] in {'/', '\\'}
    ensures '/' !in path && '\\' !in path ==> r == path
  {
    if path == [] then []
    else if path[|path| - 1] in {'/', '\\'} then []
    else
      var r := BaseName(path[..|path| - 1]);
      assert path[..|path| - 1][|path| - 1 - |r|..] == path[|path| - 1 - |r|..|path| - 1];
      r + [path[|path| - 1]]
  }

  /**
   * `split(val)`, which splits on the regular expression `,\s*`: the pieces between commas,
   * where each piece after a comma loses its leading white space.
   */
  function SplitList(val: string): (r: seq<string>)
    ensures |r| == |SplitOn(val, ',')| && r[0] == SplitOn(val, ',')[0]
    ensures forall i :: 0 < i < |r| ==> r[i] == TrimStart(SplitOn(val, ',')[i])
  {
    var parts := SplitOn(val, ',');
    seq(|parts|, i requires 0 <= i < |parts| => if i == 0 then parts[0] else TrimStart(parts[i]))
  }

  /** `extractLast(term)`: the last item of `split(term)`. */
  function ExtractLast(term: string): (r: string)
    ensures ',' !in r
    ensures ',' in term ==> r == [] || !IsSpace(r[0])
    ensures ',' !in term ==> r == term
  {
    var parts := SplitOn(term, ',');
    var items := SplitList(term);
    SplitOnCount(term, ',');
    SplitOnPieces(term, ',');
    assert ',' !in parts[|parts| - 1];
    if ',' in term then
      var r := TrimStart(parts[|parts| - 1]);
      assert forall k :: 0 <= k < |r| ==> r[k] == parts[|parts| - 1][|parts[|parts| - 1]| - |r| + k];
      items[|items| - 1]
    else
      items[0]
  }

  /** Text before a comma does not matter: the last term is the left-trimmed last term of what follows the comma. */
  lemma ExtractLastAfterComma(a: string, b: string)
    requires ',' !in a
    ensures ExtractLast(a + [','] + b) == TrimStart(ExtractLast(b))
  {
    var term := a + [','] + b;
    SplitOnFirst(a, ',', b);
    var q := SplitOn(b, ',');
    var parts := SplitOn(term, ',');
    assert parts[|parts| - 1] == q[|q| - 1];
    SplitOnCount(b, ',');
    if ',' in b {
      TrimStartIdempotent(q[|q| - 1]);
    }
  }

  /** `trimComma(val)`: trim, then remove one trailing comma. */
  function TrimComma(val: string): (r: string)
    ensures var t := Trim(val); r == t || (t == r + [','])
    ensures |Trim(val)| > 0 && Trim(val)[|Trim(val)| - 1] == ',' ==> |r| == |Trim(val)| - 1
  {
    var t := Trim(val);
    if |t| > 0 && t[|t| - 1] == ',' then t[..|t| - 1] else t
  }

  /** At most one comma is removed: a value ending in two commas keeps one. */
  lemma TrimCommaOnce(val: string)
    requires |Trim(val)| >= 2 && Trim(val)[|Trim(val)| - 1] == ',' && Trim(val)[|Trim(val)| - 2] == ','
    ensures |TrimComma(val)| > 0 && TrimComma(val)[|TrimComma(val)| - 1] == ','
  {
  }

  // ---------------------------------------------------------------- arrays and values

  /** `includes(a, o)`. */
  function Includes<T(==,!new)>(a: seq<T>, o: T): (r: bool)
    ensures r <==> o in a
  {
    IndexOf(a, o) != -1
  }

  /** `oc(a)`: an object with one empty-string entry per element of `a`. */
  method Oc(a: seq<string>) returns (o: map<string, string>)
    ensures o.Keys == set x | x in a
    ensures forall k :: k in o ==> o[k] == ""
  {
    o := map[];
    var i := 0;
    while i < |a|
      invariant 0 <= i <= |a|
      invariant o.Keys == set x | x in a[..i]
      invariant forall k :: k in o ==> o[k] == ""
    {
      assert a[..i + 1] == a[..i] + [a[i]];
      o := o[a[i] := ""];
      i := i + 1;
    }
    assert a[..i] == a;
  }

  /** `findInArray(arr, predicate)`: the first element satisfying the predicate, or null (None). */
  method FindInArray<T>(arr: seq<T>, p: T -> bool) returns (r: Option<T>)
    ensures r.None? <==> forall i :: 0 <= i < |arr| ==> !p(arr[i])
    ensures r.Some? ==> exists i :: (0 <= i < |arr| && arr[i] == r.value && p(arr[i]) &&
      forall j :: 0 <= j < i ==> !p(arr[j]))
  {
    var i := 0;
    while i < |arr|
      invariant 0 <= i <= |arr|
      invariant forall j :: 0 <= j < i ==> !p(arr[j])
    {
      if p(arr[i]) {
        return Some(arr[i]);
      }
      i := i + 1;
    }
    return None;
  }

  /** What `getValue(x, arg)` is given: a plain value, or a function whose call on `arg` yields `result`. */
  datatype Getter = Plain(value: Value) | Call(result: Value)

  /** `getValue(x, arg)`: "" for null or undefined, the call's result for a function, the value otherwise. */
  function GetValue(x: Getter): (r: Value)
    ensures x == Plain(Null) || x == Plain(Undefined) ==> r == Str("")
    ensures x.Plain? && x.value != Null && x.value != Undefined ==> r == x.value
    ensures x.Call? ==> r == x.result
  {
    match x
    case Plain(v) => if v == Null || v == Undefined then Str("") else v
    case Call(v) => v
  }

  // ---------------------------------------------------------------- keyed assignment

  /** The object built by assigning, in order, each present entry; a later key overwrites an earlier one. */
  function Assign<V>(entries: seq<Option<(string, V)>>): map<string, V> {
    if entries == [] then map[]
    else
      var m := Assign(entries[..|entries| - 1]);
      var e := entries[|entries| - 1];
      if e.Some? then m[e.value.0 := e.value.1] else m
  }

  /** The entry at `i` is assigned the key `k`. */
  predicate AssignsKey<V>(entries: seq<Option<(string, V)>>, i: int, k: string)
    requires 0 <= i < |entries|
  {
    entries[i].Some? && entries[i].value.0 == k
  }

  /**
   * A key is in the object iff some entry assigns it, and then its value is that of the last
   * entry that assigns it.
   */
  lemma {:induction false} AssignLastWins<V>(entries: seq<Option<(string, V)>>, k: string)
    ensures k in Assign(entries) <==> exists i :: 0 <= i < |entries| && AssignsKey(entries, i, k)
    ensures k in Assign(entries) ==> exists i :: (0 <= i < |entries| && AssignsKey(entries, i, k) &&
      Assign(entries)[k] == entries[i].value.1 && forall j :: i < j < |entries| ==> !AssignsKey(entries, j, k))
  {
    if entries != [] {
      var pre := entries[..|entries| - 1];
      var n := |entries| - 1;
      AssignLastWins(pre, k);
      forall i | 0 <= i < n ensures AssignsKey(entries, i, k) == AssignsKey(pre, i, k) {
        assert entries[i] == pre[i];
      }
      if AssignsKey(entries, n, k) {
        assert Assign(entries)[k] == entries[n].value.1;
      } else if k in Assign(entries) {
        var i :| 0 <= i < n && AssignsKey(pre, i, k) && Assign(pre)[k] == pre[i].value.1 &&
          forall j :: i < j < n ==> !AssignsKey(pre, j, k);
        assert AssignsKey(entries, i, k);
        assert forall j :: i < j < |entries| ==> !AssignsKey(entries, j, k);
      }
    }
  }

  // ---------------------------------------------------------------- GetQueryString

  /** `s` with every '+' turned into a space. */
  function PlusToSpace(s: string): (r: string)
    ensures |r| == |s| && '+' !in r
    ensures forall i :: 0 <= i < |s| ==> r[i] == if s[i] == '+' then ' ' else s[i]
  {
    seq(|s|, i requires 0 <= i < |s| => if s[i] == '+' then ' ' else s[i])
  }

  /** What one '&'-piece of a query contributes: a key and decoded value when it has exactly one '='. */
  function QueryEntry(piece: string, decode: string -> string): Option<(string, string)> {
    var p := SplitOn(piece, '=');
    if |p| != 2 then None else Some((p[0], decode(PlusToSpace(p[1]))))
  }

  function QueryEntries(pieces: seq<string>, decode: string -> string): (r: seq<Option<(string, string)>>)
    ensures |r| == |pieces|
  {
    seq(|pieces|, i requires 0 <= i < |pieces| => QueryEntry(pieces[i], decode))
  }

  /**
   * `GetQueryString(q)`: the keys and values of the '&'-pieces that contain exactly one '=';
   * `decodeURIComponent` is the parameter `decode`.
   */
  method GetQueryString(q: string, decode: string -> string) returns (b: map<string, string>)
    ensures b == Assign(QueryEntries(SplitOn(q, '&'), decode))
    ensures q == "" ==> b == map[]
  {
    var a := SplitOn(q, '&');
    if q == "" {
      return map[];
    }
    var entries := QueryEntries(a, decode);
    b := map[];
    var i := 0;
    while i < |a|
      invariant 0 <= i <= |a|
      invariant b == Assign(entries[..i])
    {
      assert entries[..i + 1][..i] == entries[..i];
      var e := QueryEntry(a[i], decode);
      if e.Some? {
        b := b[e.value.0 := e.value.1];
      }
      i := i + 1;
    }
    assert entries[..i] == entries;
  }

  /** A key of the query string is present iff a piece assigns it; the last such piece gives its value. */
  lemma QueryLastWins(q: string, decode: string -> string, k: string)
    ensures var es := QueryEntries(SplitOn(q, '&'), decode);
      (k in Assign(es) <==> exists i :: 0 <= i < |es| && AssignsKey(es, i, k)) &&
      (k in Assign(es) ==> exists i :: (0 <= i < |es| && AssignsKey(es, i, k) &&
        Assign(es)[k] == es[i].value.1 && forall j :: i < j < |es| ==> !AssignsKey(es, j, k)))
  {
    AssignLastWins(QueryEntries(SplitOn(q, '&'), decode), k);
  }

  // ---------------------------------------------------------------- propertiesToObject

  predicate IsDigit(c: char) {
    '0' <= c <= '9'
  }

  predicate AllDigits(s: string) {
    forall i :: 0 <= i < |s| ==> IsDigit(s[i])
  }

  /** The value of a string of decimal digits. */
  function DigitsValue(s: string): nat
    requires AllDigits(s)
  {
    if s == [] then 0
    else
      assert IsDigit(s[|s| - 1]);
      DigitsValue(s[..|s| - 1]) * 10 + (s[|s| - 1] as int - '0' as int)
  }

  /** A property value: `true`, a parsed integer or a string. */
  datatype PropertyValue = Flag | Number(n: nat) | Text(s: string)

  /** What one ','-part contributes: `name` alone, or `name:value` with any further ':' parts ignored. */
  function PropertyEntry(part: string): (r: Option<(string, PropertyValue)>)
    ensures r.Some?
  {
    var p := SplitOn(part, ':');
    var name := Trim(p[0]);
    if |p| == 1 then Some((name, Flag))
    else
      var val := Trim(p[1]);
      if |val| > 0 && AllDigits(val) then Some((name, Number(DigitsValue(val))))
      else Some((name, Text(val)))
  }

  function PropertyEntries(parts: seq<string>): (r: seq<Option<(string, PropertyValue)>>)
    ensures |r| == |parts|
  {
    seq(|parts|, i requires 0 <= i < |parts| => PropertyEntry(parts[i]))
  }

  /** `propertiesToObject(props)`: "a,b:12,c: x " becomes {a: true, b: 12, c: "x"}; an empty string gives {}. */
  method PropertiesToObject(props: string) returns (result: map<string, PropertyValue>)
    ensures props == "" ==> result == map[]
    ensures props != "" ==> result == Assign(PropertyEntries(SplitOn(props, ',')))
  {
    result := map[];
    if props != "" {
      var parts := SplitOn(props, ',');
      var entries := PropertyEntries(parts);
      var i := 0;
      while i < |parts|
        invariant 0 <= i <= |parts|
        invariant result == Assign(entries[..i])
      {
        assert entries[..i + 1][..i] == entries[..i];
        var e := PropertyEntry(parts[i]);
        result := result[e.value.0 := e.value.1];
        i := i + 1;
      }
      assert entries[..i] == entries;
    }
  }

  /** A part without ':' is `true` under its trimmed name. */
  lemma PropertyEntryFlag(part: string)
    requires ':' !in part
    ensures PropertyEntry(part) == Some((Trim(part), Flag))
  {
    SplitOnCount(part, ':');
  }

  /** A part "name:digits" is the number those digits spell, under the trimmed name. */
  lemma PropertyEntryNumber(name: string, digits: string)
    requires ':' !in name
    requires |digits| > 0 && AllDigits(digits)
    ensures PropertyEntry(name + [':'] + digits) == Some((Trim(name), Number(DigitsValue(digits))))
  {
    SplitOnFirst(name, ':', digits);
    assert ':' !in digits by {
      forall k | 0 <= k < |digits| ensures digits[k] != ':' {
        assert IsDigit(digits[k]);
      }
    }
    SplitOnCount(digits, ':');
    TrimDigits(digits);
  }

  /** A run of digits is its own trim. */
  lemma TrimDigits(digits: string)
    requires AllDigits(digits)
    ensures Trim(digits) == digits
  {
    if |digits| > 0 {
      assert !IsSpace(digits[0]);
      assert TrimStart(digits) == digits;
      assert !IsSpace(digits[|digits| - 1]);
    }
  }

  // ---------------------------------------------------------------- display

  /**
   * The cut of `getPropertyForDisplay(name, arg)` applied to the rendered value `val`: when name
   * and value together exceed 35 characters, the value becomes its first 32 - |name| characters
   * (none when the name is longer than 32) followed by "...".
   */
  function PropertyForDisplay(name: string, val: string): (r: string)
    ensures |name| + |val| <= 35 ==> r == val
    ensures |name| + |val| > 35 ==> 3 <= |r| <= |val| + 3 && r == val[..|r| - 3] + "..."
    ensures |name| <= 32 ==> |name| + |r| <= 35
    ensures |name| > 32 && |name| + |val| > 35 ==> r == "..."
  {
    if |name| + |val| > 35 then
      var keep := if |name| > 32 then 0 else 32 - |name|;
      val[..keep] + "..."
    else val
  }

  /** Decimal digits of a natural number, as `toString` writes them. */
  function NatToString(n: nat): (s: string)
    ensures |s| > 0 && AllDigits(s)
  {
    var d := [('0' as int + n % 10) as char];
    if n < 10 then d else NatToString(n / 10) + d
  }

  /** Reading back the digits of a number gives the number. */
  lemma {:induction false} NatToStringRoundTrip(n: nat)
    ensures DigitsValue(NatToString(n)) == n
  {
    var s := NatToString(n);
    if n >= 10 {
      NatToStringRoundTrip(n / 10);
      assert s[..|s| - 1] == NatToString(n / 10);
    }
  }
}
