/**
 * The few pieces of PHP value semantics that both pages rely on: a field that
 * may be null, string truthiness and empty(), strcmp, strlen (a byte count),
 * strtolower and htmlspecialchars.
 */
module Php {

  /** A value that may be PHP's null (an absent form field or config key). */
  datatype Option<+T> = None | Some(value: T)

  /** The string PHP uses when null appears where a string is expected. */
  function Str(o: Option<string>): (s: string)
    ensures o.None? ==> s == ""
    ensures o.Some? ==> s == o.value
  {
    match o
    case None => ""
    case Some(v) => v
  }

  /** Truthiness of a string in a condition: only "" and "0" are false. */
  predicate Truthy(s: string)
  {
    s != "" && s != "0"
  }

  /** Truthiness of a possibly-absent field; `empty($x)` is its negation. */
  predicate TruthyField(o: Option<string>)
  {
    o.Some? && Truthy(o.value)
  }

  /** `$x == ""` under PHP 8 rules: holds for null and for "" only ("0" is not equal to ""). */
  predicate LooseEmpty(o: Option<string>)
  {
    o == None || o == Some("")
  }

  /** Keeps a posted value when it is truthy and drops (unsets) it otherwise. */
  function KeepIfTruthy(o: Option<string>): (r: Option<string>)
    ensures r.Some? <==> TruthyField(o)
    ensures r.Some? ==> r == o
  {
    if TruthyField(o) then o else None
  }

  // ---------------------------------------------------------------------------
  // strcmp

  /**
   * strcmp, as PHP 8.2 returns it (-1, 0 or 1). Strings here are sequences of
   * Unicode scalar values; comparing them code point by code point orders them
   * as strcmp orders their UTF-8 bytes.
   */
  function Strcmp(a: string, b: string): (r: int)
    ensures -1 <= r <= 1
    ensures r == 0 <==> a == b
  {
    if a == [] then (if b == [] then 0 else -1)
    else if b == [] then 1
    else if a[0] < b[0] then -1
    else if a[0] > b[0] then 1
    else
      var r := Strcmp(a[1..], b[1..]);
      assert a == [a[0]] + a[1..] && b == [b[0]] + b[1..];
      r
  }

  /** The order usort sees when a comparator returns strcmp: a before b unless strcmp says a > b. */
  predicate StrLeq(a: string, b: string)
  {
    Strcmp(a, b) <= 0
  }

  lemma {:induction false} StrcmpAntisymmetric(a: string, b: string)
    ensures Strcmp(a, b) == -Strcmp(b, a)
  {
    if a != [] && b != [] && a[0] == b[0] {
      StrcmpAntisymmetric(a[1..], b[1..]);
    }
  }

  lemma StrLeqTotal(a: string, b: string)
    ensures StrLeq(a, b) || StrLeq(b, a)
  {
    StrcmpAntisymmetric(a, b);
  }

  lemma {:induction false} StrLeqTransitive(a: string, b: string, c: string)
    requires StrLeq(a, b) && StrLeq(b, c)
    ensures StrLeq(a, c)
  {
    if a != [] && b != [] && c != [] && a[0] == b[0] && b[0] == c[0] {
      StrLeqTransitive(a[1..], b[1..], c[1..]);
    }
  }

  // ---------------------------------------------------------------------------
  // strlen counts bytes of the UTF-8 encoding

  function CharBytes(c: char): (n: nat)
    ensures 1 <= n <= 4
    ensures n == 1 <==> c as int < 0x80
  {
    if c as int < 0x80 then 1
    else if c as int < 0x800 then 2
    else if c as int < 0x10000 then 3
    else 4
  }

  /** strlen: the number of bytes of the UTF-8 encoding of s. */
  function Utf8Length(s: string): nat
  {
    if s == [] then 0 else CharBytes(s[0]) + Utf8Length(s[1..])
  }

  /** Each character takes one to four bytes. */
  lemma {:induction false} Utf8LengthBounds(s: string)
    ensures |s| <= Utf8Length(s) <= 4 * |s|
  {
    if s != [] {
      Utf8LengthBounds(s[1..]);
    }
  }

  predicate IsAscii(s: string)
  {
    forall i :: 0 <= i < |s| ==> s[i] as int < 0x80
  }

  /** For ASCII text strlen is the number of characters. */
  lemma {:induction false} AsciiLength(s: string)
    requires IsAscii(s)
    ensures Utf8Length(s) == |s|
  {
    if s != [] {
      assert IsAscii(s[1..]) by {
        forall i | 0 <= i < |s[1..]| ensures s[1..][i] as int < 0x80 {
          assert s[1..][i] == s[i + 1];
        }
      }
      AsciiLength(s[1..]);
    }
  }

  // ---------------------------------------------------------------------------
  // strtolower (ASCII only, as in PHP 8.2) and htmlspecialchars

  predicate IsUpper(c: char)
  {
    'A' <= c <= 'Z'
  }

  function LowerChar(c: char): (d: char)
    ensures !IsUpper(d)
    ensures !IsUpper(c) ==> d == c
  {
    if IsUpper(c) then (c as int + 32) as char else c
  }

  function AsciiLower(s: string): (r: string)
    ensures |r| == |s|
    ensures forall i :: 0 <= i < |r| ==> !IsUpper(r[i])
    ensures forall i :: 0 <= i < |s| && !IsUpper(s[i]) ==> r[i] == s[i]
    ensures forall i :: 0 <= i < |s| && IsUpper(s[i]) ==> r[i] as int == s[i] as int + 32
  {
    seq(|s|, i requires 0 <= i < |s| => LowerChar(s[i]))
  }

  /** The characters htmlspecialchars replaces by entities (ENT_QUOTES). */
  predicate IsMarkup(c: char)
  {
    c == '&' || c == '"' || c == '\'' || c == '<' || c == '>'
  }

  function Escape(c: char): (e: string)
    ensures |e| >= 1
    ensures !IsMarkup(c) ==> e == [c]
    ensures IsMarkup(c) ==> e[0] == '&'
    ensures forall i :: 0 <= i < |e| ==> e[i] != '<' && e[i] != '>' && e[i] != '"' && e[i] != '\''
  {
    if c == '&' then "&amp;"
    else if c == '"' then "&quot;"
    else if c == '\'' then "&#039;"
    else if c == '<' then "&lt;"
    else if c == '>' then "&gt;"
    else [c]
  }

  /** htmlspecialchars with PHP 8.1's default flags. */
  function HtmlSpecialChars(s: string): (r: string)
    ensures |r| >= |s|
    ensures r == [] <==> s == []
    ensures (forall i :: 0 <= i < |s| ==> !IsMarkup(s[i])) ==> r == s
    ensures forall i :: 0 <= i < |r| ==> r[i] != '<' && r[i] != '>' && r[i] != '"' && r[i] != '\''
  {
    if s == [] then []
    else
      var e := Escape(s[0]);
      var rest := HtmlSpecialChars(s[1..]);
      assert (forall i :: 0 <= i < |s| ==> !IsMarkup(s[i])) ==> s == [s[0]] + s[1..] && rest == s[1..];
      e + rest
  }
}
