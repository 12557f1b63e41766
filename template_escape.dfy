/**
 * The loader's `convert`: it escapes a stylesheet's text so that it can be placed
 * between backticks as a JavaScript template literal, and wraps it in backticks.
 * Backslash, backtick and dollar sign are each preceded by a backslash; every other
 * character is copied unchanged and in order.
 */
module TemplateEscape {

  /** The three characters of the `illegalChars` table. */
  predicate IsSpecial(c: char) {
    c == '\\' || c == '`' || c == '$'
  }

  /** The replacement the table gives a character, or the character itself. */
  function EscapeChar(c: char): (r: string)
    ensures IsSpecial(c) ==> r == ['\\', c]
    ensures !IsSpecial(c) ==> r == [c]
  {
    if c == '\\' then "\\\\"
    else if c == '`' then "\\`"
    else if c == '$' then "\\$"
    else [c]
  }

  /** The escaped body of the literal: each character of `s` replaced as the table says. */
  function Escaped(s: string): string {
    if s == [] then [] else EscapeChar(s[0]) + Escaped(s[1..])
  }

  /** What `convert` returns: the escaped body between two backticks. */
  function Literal(s: string): string {
    "`" + Escaped(s) + "`"
  }

  /** The number of characters of `s` that the table escapes. */
  function CountSpecial(s: string): nat {
    if s == [] then 0 else (if IsSpecial(s[0]) then 1 else 0) + CountSpecial(s[1..])
  }

  /**
   * A template-literal body in which every backslash escapes one of the three special
   * characters and no backtick or dollar sign stands unescaped: such a body neither
   * ends the literal early nor opens a `${` substitution.
   */
  predicate SafeBody(t: string) {
    if t == [] then true
    else if t[0] == '\\' then |t| >= 2 && IsSpecial(t[1]) && SafeBody(t[2..])
    else !IsSpecial(t[0]) && SafeBody(t[1..])
  }

  /**
   * The text a safe body unescapes to: each escape `\x` stands for `x`, every other
   * character for itself. (A JavaScript template literal also turns CR and CRLF into LF;
   * that is not part of this function.)
   */
  function Unescape(t: string): string {
    if t == [] then []
    else if t[0] == '\\' && |t| >= 2 then [t[1]] + Unescape(t[2..])
    else [t[0]] + Unescape(t[1..])
  }

  /** The accumulation step of the loop: escaping one more character appends its replacement. */
  lemma {:induction false} EscapedAppend(s: string, c: char)
    ensures Escaped(s + [c]) == Escaped(s) + EscapeChar(c)
  {
    if s == [] {
      assert [c][1..] == [];
    } else {
      assert (s + [c])[1..] == s[1..] + [c];
      EscapedAppend(s[1..], c);
    }
  }

  /** `convert`: a single pass over the characters, accumulating the escaped text. */
  method Convert(s: string) returns (r: string)
    ensures r == Literal(s)
  {
    var res := "";
    for i := 0 to |s|
      invariant res == Escaped(s[..i])
    {
      assert s[..i + 1] == s[..i] + [s[i]];
      EscapedAppend(s[..i], s[i]);
      res := res + EscapeChar(s[i]);
    }
    assert s[..|s|] == s;
    r := "`" + res + "`";
  }

  /** The escaped body is `|s|` long plus one backslash per special character. */
  lemma {:induction false} EscapedLength(s: string)
    ensures |Escaped(s)| == |s| + CountSpecial(s)
  {
    if s != [] {
      EscapedLength(s[1..]);
    }
  }

  /** Every escaped body is safe to place between backticks. */
  lemma {:induction false} EscapedIsSafe(s: string)
    ensures SafeBody(Escaped(s))
  {
    if s != [] {
      EscapedIsSafe(s[1..]);
      var e := Escaped(s);
      if IsSpecial(s[0]) {
        assert e[2..] == Escaped(s[1..]);
      } else {
        assert e[1..] == Escaped(s[1..]);
      }
    }
  }

  /** Round trip: the escaped body unescapes to the original text. */
  lemma {:induction false} UnescapeEscaped(s: string)
    ensures Unescape(Escaped(s)) == s
  {
    if s != [] {
      UnescapeEscaped(s[1..]);
      var e := Escaped(s);
      if IsSpecial(s[0]) {
        assert e[2..] == Escaped(s[1..]);
      } else {
        assert e[1..] == Escaped(s[1..]);
      }
    }
  }

  /** The other direction: every safe body is the escaping of what it unescapes to. */
  lemma {:induction false} EscapedUnescape(t: string)
    requires SafeBody(t)
    ensures Escaped(Unescape(t)) == t
  {
    if t != [] {
      if t[0] == '\\' {
        EscapedUnescape(t[2..]);
        assert t == [t[0], t[1]] + t[2..];
      } else {
        EscapedUnescape(t[1..]);
        assert t == [t[0]] + t[1..];
      }
    }
  }

  /** Distinct stylesheets yield distinct literals: escaping loses nothing. */
  lemma EscapedInjective(s1: string, s2: string)
    requires Escaped(s1) == Escaped(s2)
    ensures s1 == s2
  {
    UnescapeEscaped(s1);
    UnescapeEscaped(s2);
  }

  /**
   * The literal `convert` returns: backtick-delimited, |s| + 2 + CountSpecial(s) long,
   * with a safe body that unescapes to `s`.
   */
  lemma LiteralRoundTrip(s: string)
    ensures var lit := Literal(s);
      |lit| == |s| + 2 + CountSpecial(s) &&
      lit[0] == '`' && lit[|lit| - 1] == '`' &&
      SafeBody(lit[1..|lit| - 1]) &&
      Unescape(lit[1..|lit| - 1]) == s
  {
    EscapedLength(s);
    EscapedIsSafe(s);
    UnescapeEscaped(s);
    var lit := Literal(s);
    assert lit[1..|lit| - 1] == Escaped(s);
  }

  /** The three special characters together: each is escaped once, none twice. */
  lemma EscapesEachSpecialOnce()
    ensures Escaped("a\\`$b") == "a\\\\\\`\\$b"
    ensures Unescape("a\\\\\\`\\$b") == "a\\`$b"
  {
    UnescapeEscaped("a\\`$b");
  }
}
