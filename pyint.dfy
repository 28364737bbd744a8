/** Python's int(s) on a string in base 10, as used by the `k:v` argument
    validator: surrounding whitespace is ignored, one optional sign, then decimal
    digits in groups joined by single underscores. Also the decimal rendering of
    an integer, whose parse gives the integer back. */
module PyInt {
  import opened Protocol

  /** The whitespace int() ignores around its digits: the C-locale spaces among
      ASCII characters, and every non-ASCII character str.isspace accepts. The
      separators U+001C..U+001F satisfy str.isspace but are ASCII, so int() keeps
      them and rejects the string. */
  predicate IntSpace(c: char)
  {
    if c < '\U{80}' then c == ' ' || ('\t' <= c <= '\r')
    else c == '\U{85}' || c == '\U{A0}' || c == '\U{1680}' || ('\U{2000}' <= c <= '\U{200A}')
         || c == '\U{2028}' || c == '\U{2029}' || c == '\U{202F}' || c == '\U{205F}' || c == '\U{3000}'
  }

  predicate IsDigit(c: char) { '0' <= c <= '9' }

  function DigitValue(c: char): (d: nat)
    requires IsDigit(c)
    ensures d < 10
  {
    (c as int) - ('0' as int)
  }

  function DigitChar(d: nat): (c: char)
    requires d < 10
    ensures IsDigit(c) && DigitValue(c) == d
  {
    ('0' as int + d) as char
  }

  /** s without its leading whitespace. */
  function StripLeft(s: string): string
  {
    if s != [] && IntSpace(s[0]) then StripLeft(s[1..]) else s
  }

  /** s without its trailing whitespace. */
  function StripRight(s: string): string
  {
    if s != [] && IntSpace(s[|s| - 1]) then StripRight(s[..|s| - 1]) else s
  }

  /** StripRight keeps a prefix, down to the last non-whitespace character. */
  lemma {:induction false} StripRightPrefix(s: string)
    ensures var t := StripRight(s);
            |t| <= |s| && t == s[..|t|] && (s != [] && !IntSpace(s[0]) ==> t != [])
  {
    if s != [] && IntSpace(s[|s| - 1]) {
      var u := s[..|s| - 1];
      StripRightPrefix(u);
      assert u[..|StripRight(u)|] == s[..|StripRight(u)|];
    }
  }

  function Strip(s: string): string { StripRight(StripLeft(s)) }

  /** Decimal digits in groups joined by single underscores, e.g. "1_000". */
  predicate DigitGroups(s: string)
  {
    |s| > 0 && IsDigit(s[0]) && IsDigit(s[|s| - 1])
    && (forall i :: 0 <= i < |s| ==> IsDigit(s[i]) || s[i] == '_')
    && (forall i :: 0 <= i < |s| - 1 ==> s[i] == '_' ==> s[i + 1] != '_')
  }

  /** The digits of s with the underscores removed. */
  function Digits(s: string): (d: string)
    requires forall i :: 0 <= i < |s| ==> IsDigit(s[i]) || s[i] == '_'
    ensures forall i :: 0 <= i < |d| ==> IsDigit(d[i])
    ensures '_' !in s ==> d == s
  {
    if s == [] then []
    else (if s[0] == '_' then [] else [s[0]]) + Digits(s[1..])
  }

  /** The number a string of decimal digits denotes. */
  function Value(d: string): nat
    requires forall i :: 0 <= i < |d| ==> IsDigit(d[i])
  {
    if d == [] then 0 else Value(d[..|d| - 1]) * 10 + DigitValue(d[|d| - 1])
  }

  /** The number an unsigned body of digit groups denotes; None when it is not one. */
  function Unsigned(body: string): (r: Option<nat>)
    ensures r.Some? ==> DigitGroups(body)
  {
    if DigitGroups(body) then Some(Value(Digits(body))) else None
  }

  /** int(t) on text t without surrounding whitespace. */
  function ParseStripped(t: string): (r: Option<int>)
    ensures r.Some? ==> t != []
    ensures r.Some? && r.value < 0 ==> t[0] == '-'
  {
    if t == [] then None
    else if t[0] == '-' || t[0] == '+' then
      match Unsigned(t[1..])
      case None => None
      case Some(v) => Some(if t[0] == '-' then -(v as int) else v as int)
    else
      match Unsigned(t)
      case None => None
      case Some(v) => Some(v as int)
  }

  /** int(s) in base 10: None where Python raises ValueError. */
  function ParseInt(s: string): (r: Option<int>)
    ensures r.Some? ==> Strip(s) != []
    ensures r.Some? && r.value < 0 ==> Strip(s)[0] == '-'
  {
    ParseStripped(Strip(s))
  }

  /** The decimal rendering of a natural number, without leading zeros. */
  function Decimal(n: nat): (s: string)
    ensures |s| > 0 && forall i :: 0 <= i < |s| ==> IsDigit(s[i])
  {
    if n < 10 then [DigitChar(n)] else Decimal(n / 10) + [DigitChar(n % 10)]
  }

  /** str(n) for an integer n. */
  function Show(n: int): (s: string)
    ensures |s| > 0
    ensures n >= 0 ==> s == Decimal(n)
    ensures n < 0 ==> s == "-" + Decimal(-n)
  {
    if n < 0 then "-" + Decimal(-n) else Decimal(n)
  }

  lemma {:induction false} ValueOfDecimal(n: nat)
    ensures Value(Decimal(n)) == n
  {
    if n >= 10 {
      var d := Decimal(n);
      assert d[..|d| - 1] == Decimal(n / 10);
      ValueOfDecimal(n / 10);
    }
  }

  lemma DecimalIsDigitGroups(n: nat)
    ensures DigitGroups(Decimal(n)) && '_' !in Decimal(n)
    ensures Strip(Decimal(n)) == Decimal(n)
  {
    var d := Decimal(n);
    assert !IntSpace(d[0]) && !IntSpace(d[|d| - 1]);
    assert forall i :: 0 <= i < |d| ==> d[i] != '_';
    StripUnchanged(d);
  }

  lemma StripUnchanged(s: string)
    requires s != [] && !IntSpace(s[0]) && !IntSpace(s[|s| - 1])
    ensures Strip(s) == s
  {
    assert StripLeft(s) == s;
  }

  /** A string of decimal digits is its own body of digit groups. */
  lemma UnsignedDigits(d: string)
    requires d != [] && forall i :: 0 <= i < |d| ==> IsDigit(d[i])
    ensures Unsigned(d) == Some(Value(d))
  {
    assert DigitGroups(d);
    assert '_' !in d by { assert forall i :: 0 <= i < |d| ==> d[i] != '_'; }
    assert Digits(d) == d;
  }

  /** A string of decimal digits parses to its value. */
  lemma ParseDigits(d: string)
    requires d != [] && forall i :: 0 <= i < |d| ==> IsDigit(d[i])
    ensures ParseInt(d) == Some(Value(d) as int)
  {
    UnsignedDigits(d);
    ParseUnsignedBody(d, Value(d));
    StripUnchanged(d);
  }

  /** A valid body without a sign parses to its number. */
  lemma ParseUnsignedBody(body: string, v: nat)
    requires Unsigned(body) == Some(v)
    ensures ParseStripped(body) == Some(v as int)
  {
    assert IsDigit(body[0]);
  }

  /** A sign in front of a body makes the body's number signed. */
  lemma ParseSignBody(c: char, body: string, v: nat)
    requires c == '-' || c == '+'
    requires Unsigned(body) == Some(v)
    ensures ParseStripped([c] + body) == Some(if c == '-' then -(v as int) else v as int)
  {
    var t := [c] + body;
    assert t[0] == c && t[1..] == body;
  }

  /** A sign followed by a string of decimal digits parses to the signed value. */
  lemma ParseSignDigits(c: char, d: string)
    requires c == '-' || c == '+'
    requires d != [] && forall i :: 0 <= i < |d| ==> IsDigit(d[i])
    ensures ParseInt([c] + d) == Some(if c == '-' then -(Value(d) as int) else Value(d) as int)
  {
    UnsignedDigits(d);
    ParseSignBody(c, d, Value(d));
    var s := [c] + d;
    assert s[|s| - 1] == d[|d| - 1];
    StripUnchanged(s);
  }

  /** The decimal rendering of m parses back to m. */
  lemma ParseDecimal(m: nat)
    ensures ParseInt(Decimal(m)) == Some(m as int)
  {
    ParseDigits(Decimal(m));
    ValueOfDecimal(m);
  }

  /** A sign followed by the decimal rendering of m parses to the signed m. */
  lemma ParseSignDecimal(c: char, m: nat)
    requires c == '-' || c == '+'
    ensures ParseInt([c] + Decimal(m)) == Some(if c == '-' then -(m as int) else m as int)
  {
    ParseSignDigits(c, Decimal(m));
    ValueOfDecimal(m);
  }

  /** Parsing what Show renders gives the number back. */
  lemma ParseShow(n: int)
    ensures ParseInt(Show(n)) == Some(n)
  {
    if n < 0 {
      ParseSignDecimal('-', -n);
      assert "-" + Decimal(-n) == ['-'] + Decimal(-n);
    } else {
      ParseDecimal(n);
    }
  }

  /** Leading whitespace does not change what int() returns. */
  lemma ParseIntLeadingSpace(c: char, s: string)
    requires IntSpace(c)
    ensures ParseInt([c] + s) == ParseInt(s)
  {
    assert ([c] + s)[1..] == s;
    assert StripLeft([c] + s) == StripLeft(s);
    assert Strip([c] + s) == Strip(s);
  }

  /** A plus sign in front of str(n) parses to n. */
  lemma ParseIntPlusSign(n: nat)
    ensures ParseInt("+" + Decimal(n)) == Some(n)
  {
    ParseSignDecimal('+', n);
    assert "+" + Decimal(n) == ['+'] + Decimal(n);
  }

  /** A sign alone, or a sign followed by whitespace, is rejected. */
  lemma ParseIntLoneSign(c: char, s: string)
    requires c == '-' || c == '+'
    requires s == [] || IntSpace(s[0])
    ensures ParseInt([c] + s) == None
  {
    var u := [c] + s;
    assert !IntSpace(c) && u[0] == c;
    assert StripLeft(u) == u;
    var t := StripRight(u);
    StripRightPrefix(u);
    assert t[0] == c;
    var body := t[1..];
    if body != [] {
      assert body[0] == u[1] == s[0];
      assert !IsDigit(body[0]);
    }
    assert !DigitGroups(body);
    assert ParseInt(u) == ParseStripped(t);
  }

  /** A leading information separator (U+001C..U+001F) is not whitespace to int():
      the string is rejected, although str.isspace accepts the separator. */
  lemma ParseIntSeparator(c: char, s: string)
    requires '\U{1C}' <= c <= '\U{1F}'
    ensures ParseInt([c] + s) == None
  {
    var u := [c] + s;
    assert !IntSpace(c) && u[0] == c;
    assert StripLeft(u) == u;
    var t := StripRight(u);
    StripRightPrefix(u);
    assert t[0] == c && !IsDigit(c);
    assert !DigitGroups(t);
    assert ParseInt(u) == ParseStripped(t);
  }
}
