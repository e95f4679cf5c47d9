/** The few pieces of JavaScript semantics the storefront's decision rules rely on:
    dynamically typed field values and their truthiness, `String(v)`,
    `String.prototype.trim`, `toLowerCase` and `includes`. */
module Js {

  datatype Option<T> = None | Some(value: T)

  /** A JSON-ish field value as it arrives from the data API or from browser storage.
      Only integral numbers are modelled. */
  datatype Value = Undefined | Null | Bool(b: bool) | Int(i: int) | Str(s: string)

  /** JavaScript truthiness: `false`, `0`, `""`, `null` and `undefined` are falsy. */
  predicate Truthy(v: Value)
  {
    match v
    case Undefined => false
    case Null => false
    case Bool(b) => b
    case Int(i) => i != 0
    case Str(s) => s != ""
  }

  /** `x == null` with loose equality holds exactly for `null` and `undefined`. */
  predicate LooselyNull(v: Value)
  {
    v.Undefined? || v.Null?
  }

  function Digit(d: nat): char
    requires d < 10
  {
    "0123456789"[d]
  }

  /** Decimal rendering of a natural number, without leading zeros. */
  function NatToString(n: nat): string
    decreases n
  {
    if n < 10 then [Digit(n)] else NatToString(n / 10) + [Digit(n % 10)]
  }

  /** `String(v)` for the modelled values. */
  function ToStr(v: Value): string
  {
    match v
    case Undefined => "undefined"
    case Null => "null"
    case Bool(b) => if b then "true" else "false"
    case Int(i) => if i < 0 then "-" + NatToString(-i) else NatToString(i)
    case Str(s) => s
  }

  /** The characters `trim` removes: ECMAScript WhiteSpace and LineTerminator. */
  predicate IsSpace(c: char)
  {
    c == '\t' || c == '\n' || c == '\U{B}' || c == '\U{C}' || c == '\r' || c == ' ' ||
    c == '\U{A0}' || c == '\U{1680}' || ('\U{2000}' <= c <= '\U{200A}') ||
    c == '\U{2028}' || c == '\U{2029}' || c == '\U{202F}' || c == '\U{205F}' ||
    c == '\U{3000}' || c == '\U{FEFF}'
  }

  predicate AllSpace(s: string)
  {
    forall k :: 0 <= k < |s| ==> IsSpace(s[k])
  }

  /** How many white-space characters `s` starts with. */
  function LeadingSpace(s: string): (n: nat)
    ensures n <= |s|
    ensures forall k :: 0 <= k < n ==> IsSpace(s[k])
    ensures n < |s| ==> !IsSpace(s[n])
  {
    if s == [] || !IsSpace(s[0]) then 0
    else
      var n := LeadingSpace(s[1..]);
      assert forall k :: 1 <= k < |s| ==> s[k] == s[1..][k - 1];
      1 + n
  }

  /** Where the trailing white space of `s` begins. */
  function ContentEnd(s: string): (n: nat)
    ensures n <= |s|
    ensures forall k :: n <= k < |s| ==> IsSpace(s[k])
    ensures n > 0 ==> !IsSpace(s[n - 1])
  {
    if s == [] || !IsSpace(s[|s| - 1]) then |s|
    else
      var n := ContentEnd(s[..|s| - 1]);
      assert forall k :: 0 <= k < |s| - 1 ==> s[k] == s[..|s| - 1][k];
      n
  }

  /** `s.trim()`: what lies between the leading and the trailing white space. */
  function Trim(s: string): (r: string)
    ensures |r| <= |s|
    ensures r == [] || (!IsSpace(r[0]) && !IsSpace(r[|r| - 1]))
  {
    var i := LeadingSpace(s);
    if i == |s| then [] else
      assert i < ContentEnd(s);
      s[i..ContentEnd(s)]
  }

  /** The bounds of the trimmed slice: white space before `i` and from `j` on. */
  lemma TrimBounds(s: string) returns (i: nat, j: nat)
    ensures i <= j <= |s| && Trim(s) == s[i..j]
    ensures AllSpace(s[..i]) && AllSpace(s[j..])
  {
    i, j := LeadingSpace(s), ContentEnd(s);
    if i == |s| {
      j := i;
    } else {
      assert i < j;
    }
    assert forall k :: 0 <= k < i ==> s[..i][k] == s[k];
    assert forall k :: 0 <= k < |s| - j ==> s[j..][k] == s[j + k];
  }

  /** The trimmed string is a contiguous slice of the input between two runs of white
      space. */
  lemma TrimSlice(s: string)
    ensures exists i, j ::
              0 <= i <= j <= |s| && Trim(s) == s[i..j] && AllSpace(s[..i]) && AllSpace(s[j..])
  {
    var i, j := TrimBounds(s);
  }

  /** A string trims to empty exactly when it is all white space. */
  lemma TrimEmptyIff(s: string)
    ensures Trim(s) == [] <==> AllSpace(s)
  {
    var i := LeadingSpace(s);
    if i < |s| {
      assert ContentEnd(s) > i;
    }
  }

  /** Trimming twice is trimming once. */
  lemma TrimIdempotent(s: string)
    ensures Trim(Trim(s)) == Trim(s)
  {
    var t := Trim(s);
    if t != [] {
      assert LeadingSpace(t) == 0;
      assert ContentEnd(t) == |t|;
      assert t[0..|t|] == t;
    }
  }

  function LowerChar(c: char): char
  {
    if 'A' <= c <= 'Z' then (c as int + 32) as char else c
  }

  /** `s.toLowerCase()`, restricted to the ASCII letters. */
  function ToLower(s: string): (r: string)
    ensures |r| == |s| && forall k :: 0 <= k < |s| ==> r[k] == LowerChar(s[k])
  {
    seq(|s|, k requires 0 <= k < |s| => LowerChar(s[k]))
  }

  /** `s.includes(sub)`, computed by trying every start position in turn. */
  function Includes(s: string, sub: string): bool
    decreases |s|
  {
    if sub <= s then true
    else if s == [] then false
    else Includes(s[1..], sub)
  }

  /** `includes` is true exactly when the substring occurs at some position. */
  lemma {:induction false} IncludesOccurs(s: string, sub: string)
    ensures Includes(s, sub) <==> exists k :: 0 <= k <= |s| && sub <= s[k..]
    decreases |s|
  {
    if sub <= s {
      assert sub <= s[0..];
    } else if s != [] {
      IncludesOccurs(s[1..], sub);
      assert forall k :: 1 <= k <= |s| ==> s[k..] == s[1..][k - 1..];
      if Includes(s, sub) {
        var k :| 0 <= k <= |s| - 1 && sub <= s[1..][k..];
        assert s[1..][k..] == s[k + 1..];
      }
    }
  }

  /** `s.includes(c)` for a one-character string is membership. */
  lemma IncludesChar(s: string, c: char)
    ensures Includes(s, [c]) <==> c in s
  {
    IncludesOccurs(s, [c]);
    if c in s {
      var k :| 0 <= k < |s| && s[k] == c;
      assert [c] <= s[k..];
    }
    if Includes(s, [c]) {
      var k :| 0 <= k <= |s| && [c] <= s[k..];
      assert s[k] == c;
    }
  }

  /** What awaiting a `fetch` and its `json()` gives: a failure (the request or the
      parsing threw) or the rows the data API answered with. */
  datatype Reply<T> = Failed | Rows(rows: seq<T>)
}
