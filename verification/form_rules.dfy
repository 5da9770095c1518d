/** The rules the login and registration forms share: the error messages,
    the email pattern `\S+@\S+\.\S+` as a regular-expression search, and the
    length of a string as a JavaScript string counts it. */
module FormRules {

  const EmailRequired := "El correo es requerido"
  const EmailInvalid := "El correo es inválido"
  const PasswordRequired := "La contraseña es requerida"

  /** JavaScript's `\s`: the white-space and line-terminator characters.
      Within ASCII these are space, tab, line feed, vertical tab, form feed
      and carriage return; neither `@` nor `.` is one of them. */
  predicate IsJsWhitespace(c: char): (b: bool)
    ensures b ==> c != '@' && c != '.'
    ensures c as int < 0x80 ==>
      (b <==> c == ' ' || c == '\t' || c == '\n' || c == '\r' || c as int == 0x0B || c as int == 0x0C)
  {
    var n := c as int;
    || (0x09 <= n <= 0x0D) || n == 0x20 || n == 0xA0 || n == 0x1680
    || (0x2000 <= n <= 0x200A) || n == 0x2028 || n == 0x2029 || n == 0x202F
    || n == 0x205F || n == 0x3000 || n == 0xFEFF
  }

  /** No white space strictly between positions `lo` and `hi` of `s`. */
  predicate NoSpaceBetween(s: string, lo: int, hi: int)
    requires 0 <= lo && hi <= |s|
  {
    forall k | lo < k < hi :: !IsJsWhitespace(s[k])
  }

  /** The pattern matches with its `@` at `at` and its `.` at `dot`: a
      non-space character just before the `@`, only non-space characters
      (at least one) strictly between the two, and a non-space character
      just after the `.`. */
  predicate MatchesAt(s: string, at: int, dot: int)
    requires 0 < at < |s| && at + 1 < dot < |s| - 1
  {
    && !IsJsWhitespace(s[at - 1])
    && s[at] == '@'
    && NoSpaceBetween(s, at, dot)
    && s[dot] == '.'
    && !IsJsWhitespace(s[dot + 1])
  }

  /** `/\S+@\S+\.\S+/.test(s)`: the pattern is not anchored, so it holds when
      it matches at some pair of positions. An address it accepts has at
      least five characters, among them an `@` and a `.`. */
  predicate MatchesEmailPattern(s: string): (b: bool)
    ensures b ==> |s| >= 5 && '@' in s && '.' in s
  {
    exists at, dot | 0 < at < |s| && at + 1 < dot < |s| - 1 :: MatchesAt(s, at, dot)
  }

  /** The pattern on a few concrete addresses, including its lack of anchors:
      text around a well-formed part does not stop a match. */
  lemma EmailPatternExamples()
    ensures MatchesEmailPattern("john@x.com")
    ensures MatchesEmailPattern("mail me: a@b.c please")
    ensures !MatchesEmailPattern("john@x")
    ensures !MatchesEmailPattern("@x.com")
    ensures !MatchesEmailPattern("a b@c .d")
  {
    assert MatchesAt("john@x.com", 4, 6);
    assert MatchesAt("mail me: a@b.c please", 10, 12);
    assert IsJsWhitespace("a b@c .d"[5]);
  }

  /** `s.length` in JavaScript: UTF-16 code units, so a character outside
      the Basic Multilingual Plane counts twice. */
  function Utf16Length(s: string): (n: nat)
    ensures |s| <= n <= 2 * |s|
    ensures n == 0 <==> s == ""
  {
    if s == [] then 0
    else (if s[0] as int > 0xFFFF then 2 else 1) + Utf16Length(s[1..])
  }
}
