/** The optional value used throughout the model. */
module Wrappers {
  datatype Option<+T> = None | Some(value: T)
}

/**
 * The few pieces of JavaScript semantics the handlers rely on: how a request-body
 * field can be absent, null or a string, `||` and `??` on such a field,
 * `String.prototype.split` with a one-character separator, `trim`, `startsWith`,
 * `Math.floor` on a quotient and the truncating `%` operator.
 */
module Js {

  /** A request-body field: missing (`undefined`), `null`, or a string. */
  datatype Field = Undefined | Null | Str(s: string)
  {
    /** JavaScript truthiness of the field: only a non-empty string is truthy. */
    predicate Truthy() { Str? && s != "" }

    /** `field ?? fallback`: only undefined and null fall back. */
    function Coalesce(fallback: string): string { if Str? then s else fallback }

    /** `field || fallback`: every falsy value falls back. */
    function Or(fallback: string): string { if Truthy() then s else fallback }
  }

  // ---------------------------------------------------------------- split / join

  /** `s.split(c)` for a one-character separator `c`: the pieces between separators, in order. */
  function Split(s: string, c: char): (pieces: seq<string>)
    ensures |pieces| >= 1
    ensures forall i :: 0 <= i < |pieces| ==> c !in pieces[i]
  {
    if s == [] then [""]
    else if s[0] == c then [""] + Split(s[1..], c)
    else
      var rest := Split(s[1..], c);
      [[s[0]] + rest[0]] + rest[1..]
  }

  /** `pieces.join(c)`: the inverse of `Split`. */
  function Join(pieces: seq<string>, c: char): string
    requires |pieces| >= 1
  {
    if |pieces| == 1 then pieces[0] else pieces[0] + [c] + Join(pieces[1..], c)
  }

  /** Joining the pieces of a split gives back the original string. */
  lemma {:induction false} JoinSplit(s: string, c: char)
    ensures Join(Split(s, c), c) == s
  {
    if s == [] {
    } else if s[0] == c {
      JoinSplit(s[1..], c);
      var rest := Split(s[1..], c);
      assert Split(s, c) == [""] + rest;
      assert ([""] + rest)[1..] == rest;
    } else {
      JoinSplit(s[1..], c);
      var rest := Split(s[1..], c);
      var pieces := [[s[0]] + rest[0]] + rest[1..];
      assert Split(s, c) == pieces;
      if |rest| == 1 {
        assert Join(pieces, c) == [s[0]] + rest[0];
      } else {
        assert pieces[1..] == rest[1..];
        assert Join(rest, c) == rest[0] + [c] + Join(rest[1..], c);
      }
    }
  }

  /** Splitting a join of separator-free pieces gives back the pieces. */
  lemma {:induction false} SplitJoin(pieces: seq<string>, c: char)
    requires |pieces| >= 1
    requires forall i :: 0 <= i < |pieces| ==> c !in pieces[i]
    ensures Split(Join(pieces, c), c) == pieces
  {
    if |pieces| == 1 {
      SplitFree(pieces[0], c);
    } else {
      SplitJoin(pieces[1..], c);
      SplitPrefix(pieces[0], Join(pieces[1..], c), c);
      assert [pieces[0]] + pieces[1..] == pieces;
    }
  }

  /** A string without the separator splits into itself alone. */
  lemma {:induction false} SplitFree(s: string, c: char)
    requires c !in s
    ensures Split(s, c) == [s]
  {
    if s != [] {
      SplitFree(s[1..], c);
      assert [s[0]] + s[1..] == s;
    }
  }

  /** A separator-free word followed by the separator becomes the first piece. */
  lemma {:induction false} SplitPrefix(w: string, rest: string, c: char)
    requires c !in w
    ensures Split(w + [c] + rest, c) == [w] + Split(rest, c)
  {
    if w == [] {
      assert w + [c] + rest == [c] + rest;
      assert ([c] + rest)[1..] == rest;
    } else {
      var s := w + [c] + rest;
      assert s[0] == w[0] && s[1..] == w[1..] + [c] + rest;
      SplitPrefix(w[1..], rest, c);
      assert [w[0]] + w[1..] == w;
    }
  }

  /** Two separator-free words joined by one separator split into exactly those two words. */
  lemma SplitTwoWords(w: string, t: string, c: char)
    requires c !in w && c !in t
    ensures Split(w + [c] + t, c) == [w, t]
  {
    SplitPrefix(w, t, c);
    SplitFree(t, c);
  }

  // ---------------------------------------------------------------- trim

  /** The characters JavaScript's `\s` class (and so `String.prototype.trim`) treats as white space. */
  predicate IsWhitespace(ch: char)
  {
    ch == ' ' || ch == '\t' || ch == '\n' || ch == '\r' || ch == '\U{000B}' || ch == '\U{000C}'
    || ch == '\U{00A0}' || ch == '\U{1680}' || ('\U{2000}' <= ch <= '\U{200A}')
    || ch == '\U{2028}' || ch == '\U{2029}' || ch == '\U{202F}' || ch == '\U{205F}'
    || ch == '\U{3000}' || ch == '\U{FEFF}'
  }

  /** How many white-space characters open `s`. */
  function LeadingSpace(s: string): (n: nat)
    ensures n <= |s|
    ensures forall k :: 0 <= k < n ==> IsWhitespace(s[k])
    ensures n < |s| ==> !IsWhitespace(s[n])
  {
    if s == [] || !IsWhitespace(s[0]) then 0 else 1 + LeadingSpace(s[1..])
  }

  /** How many white-space characters close `s`. */
  function TrailingSpace(s: string): (n: nat)
    ensures n <= |s|
    ensures forall k :: |s| - n <= k < |s| ==> IsWhitespace(s[k])
    ensures n < |s| ==> !IsWhitespace(s[|s| - 1 - n])
  {
    if s == [] || !IsWhitespace(s[|s| - 1]) then 0 else 1 + TrailingSpace(s[..|s| - 1])
  }

  /** `s.trim()`: `s` without its leading and trailing white space. */
  function Trim(s: string): (r: string)
    ensures |r| <= |s|
    ensures r == [] || (!IsWhitespace(r[0]) && !IsWhitespace(r[|r| - 1]))
    ensures r == [] <==> forall k :: 0 <= k < |s| ==> IsWhitespace(s[k])
    ensures exists a, b :: (0 <= a <= b <= |s| && r == s[a..b]
      && (forall k :: 0 <= k < a ==> IsWhitespace(s[k])) && (forall k :: b <= k < |s| ==> IsWhitespace(s[k])))
  {
    var a := LeadingSpace(s);
    var t := s[a..];
    var e := TrailingSpace(t);
    TrimShape(s, a, t, e);
    t[..|t| - e]
  }

  lemma TrimShape(s: string, a: nat, t: string, e: nat)
    requires a == LeadingSpace(s) && t == s[a..] && e == TrailingSpace(t)
    ensures t[..|t| - e] == [] <==> forall k :: 0 <= k < |s| ==> IsWhitespace(s[k])
    ensures exists a, b :: (0 <= a <= b <= |s| && t[..|t| - e] == s[a..b]
      && (forall k :: 0 <= k < a ==> IsWhitespace(s[k])) && (forall k :: b <= k < |s| ==> IsWhitespace(s[k])))
  {
    if t[..|t| - e] == [] {
      assert e == |t|;
    }
    TrimSlice(s, a, t, e);
  }

  lemma TrimSlice(s: string, a: nat, t: string, e: nat)
    requires a <= |s| && t == s[a..] && e <= |t|
    requires forall k :: |t| - e <= k < |t| ==> IsWhitespace(t[k])
    ensures a <= |s| - e && t[..|t| - e] == s[a..|s| - e]
    ensures forall k :: |s| - e <= k < |s| ==> IsWhitespace(s[k])
  {
    assert forall k :: |s| - e <= k < |s| ==> s[k] == t[k - a];
  }

  /** A string that neither starts nor ends with white space is its own trim. */
  lemma TrimOfTrimmed(s: string)
    requires s == [] || (!IsWhitespace(s[0]) && !IsWhitespace(s[|s| - 1]))
    ensures Trim(s) == s
  {
    assert LeadingSpace(s) == 0;
    assert TrailingSpace(s) == 0;
  }

  /** Trimming twice is trimming once. */
  lemma TrimIdempotent(s: string)
    ensures Trim(Trim(s)) == Trim(s)
  {
    TrimOfTrimmed(Trim(s));
  }

  // ---------------------------------------------------------------- prefixes and numbers

  /** `s.startsWith(p)`. */
  predicate StartsWith(s: string, p: string) { |p| <= |s| && s[..|p|] == p }

  /** `Math.floor(a / b)` for a positive divisor. */
  function FloorDiv(a: int, b: int): (q: int)
    requires b > 0
    ensures q * b <= a < q * b + b
  {
    a / b
  }

  /** JavaScript's `a % b` for a positive divisor: the remainder takes the sign of `a`. */
  function TruncRem(a: int, b: int): (r: int)
    requires b > 0
    ensures a >= 0 ==> r == a % b
    ensures a < 0 ==> -b < r <= 0 && -r == (-a) % b
  {
    if a >= 0 then a % b else -((-a) % b)
  }

  /** The number a run of decimal digits denotes, most significant digit first. */
  function DigitsValue(r: string): int
  {
    if r == [] then 0 else 10 * DigitsValue(r[..|r| - 1]) + (r[|r| - 1] as int - '0' as int)
  }

  /** The decimal digits of `n`, as template literals print a non-negative integer: no leading zero, and they denote `n`. */
  function DecimalString(n: nat): (r: string)
    ensures |r| >= 1
    ensures forall k :: 0 <= k < |r| ==> '0' <= r[k] <= '9'
    ensures DigitsValue(r) == n
    ensures r[0] == '0' ==> r == "0"
  {
    var d := [(('0' as int) + n % 10) as char];
    if n < 10 then d
    else
      var r := DecimalString(n / 10) + d;
      assert r[..|r| - 1] == DecimalString(n / 10);
      r
  }
}

/** The two regular expressions both the backend and the frontend validators use. */
module Patterns {

  predicate IsAsciiLetter(ch: char) { 'a' <= ch <= 'z' || 'A' <= ch <= 'Z' }

  /** JavaScript's `\d`: an ASCII digit. */
  predicate IsDigit(ch: char) { '0' <= ch <= '9' }

  /** `/^[a-zA-Z0-9_]+$/` */
  predicate IsUsernameWord(s: string)
  {
    |s| > 0 && forall k :: 0 <= k < |s| ==> IsAsciiLetter(s[k]) || IsDigit(s[k]) || s[k] == '_'
  }

  /** `/^(?=.*[A-Za-z])(?=.*\d)[A-Za-z\d]+$/`: letters and digits only, at least one of each. */
  predicate IsLettersAndDigits(s: string)
  {
    && (forall k :: 0 <= k < |s| ==> IsAsciiLetter(s[k]) || IsDigit(s[k]))
    && (exists k :: 0 <= k < |s| && IsAsciiLetter(s[k]))
    && (exists k :: 0 <= k < |s| && IsDigit(s[k]))
  }
}
