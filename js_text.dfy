/**
 * The JavaScript string built-ins the vote handlers rely on, over strings as
 * sequences of characters: `String.prototype.split` with a one-character
 * separator, the global `parseInt` with no radix argument, and the decimal text
 * that a template literal produces for an integer.
 */
module JsText {
  import opened Wrappers

  // ---------------------------------------------------------------------------
  // split
  // ---------------------------------------------------------------------------

  /** `s.split(sep)`: the pieces between the separators, in order; never empty. */
  function Split(s: string, sep: char): (parts: seq<string>)
    ensures |parts| >= 1
    ensures forall i :: 0 <= i < |parts| ==> sep !in parts[i]
    decreases |s|
  {
    if s == [] then [""]
    else
      var rest := Split(s[1..], sep);
      if s[0] == sep then [""] + rest
      else [[s[0]] + rest[0]] + rest[1..]
  }

  /** `parts.join(sep)`: the inverse of Split. */
  function Join(parts: seq<string>, sep: char): string
    decreases |parts|
  {
    if parts == [] then ""
    else if |parts| == 1 then parts[0]
    else parts[0] + [sep] + Join(parts[1..], sep)
  }

  /** Joining the pieces of a split gives back the original string. */
  lemma {:induction false} JoinSplit(s: string, sep: char)
    ensures Join(Split(s, sep), sep) == s
    decreases |s|
  {
    if s != [] {
      var rest := Split(s[1..], sep);
      JoinSplit(s[1..], sep);
      if s[0] == sep {
        assert ([""] + rest)[1..] == rest;
      } else if |rest| > 1 {
        assert rest == [rest[0]] + rest[1..];
        assert Join(rest, sep) == rest[0] + [sep] + Join(rest[1..], sep);
      }
    }
  }

  /** A string without the separator splits into itself alone. */
  lemma {:induction false} SplitNoSeparator(a: string, sep: char)
    requires sep !in a
    ensures Split(a, sep) == [a]
    decreases |a|
  {
    if a != [] {
      SplitNoSeparator(a[1..], sep);
      assert [a[0]] + a[1..] == a;
    }
  }

  /** A separator-free head followed by the separator splits off as the first piece. */
  lemma {:induction false} SplitAfterHead(a: string, sep: char, b: string)
    requires sep !in a
    ensures Split(a + [sep] + b, sep) == [a] + Split(b, sep)
    decreases |a|
  {
    var s := a + [sep] + b;
    if a == [] {
      assert s[1..] == b;
    } else {
      assert s[1..] == a[1..] + [sep] + b;
      SplitAfterHead(a[1..], sep, b);
      assert [a[0]] + a[1..] == a;
    }
  }

  /** Splitting a join of separator-free pieces gives back those pieces. */
  lemma {:induction false} SplitJoin(parts: seq<string>, sep: char)
    requires |parts| >= 1
    requires forall i :: 0 <= i < |parts| ==> sep !in parts[i]
    ensures Split(Join(parts, sep), sep) == parts
    decreases |parts|
  {
    if |parts| == 1 {
      SplitNoSeparator(parts[0], sep);
    } else {
      SplitJoin(parts[1..], sep);
      SplitAfterHead(parts[0], sep, Join(parts[1..], sep));
      assert [parts[0]] + parts[1..] == parts;
    }
  }

  /**
   * The first piece of a split is the longest separator-free prefix: it is the
   * whole string, or the string goes on with a separator right after it.
   */
  lemma {:induction false} SplitHead(s: string, sep: char)
    ensures |Split(s, sep)[0]| <= |s|
    ensures Split(s, sep)[0] == s[..|Split(s, sep)[0]|]
    ensures |Split(s, sep)[0]| < |s| ==> s[|Split(s, sep)[0]|] == sep
    decreases |s|
  {
    if s != [] && s[0] != sep {
      SplitHead(s[1..], sep);
    }
  }

  /**
   * After the first piece comes either nothing (the string has no separator) or
   * the separator and then the split of the rest.
   */
  lemma SplitRest(s: string, sep: char)
    ensures sep !in s <==> |Split(s, sep)[0]| == |s|
    ensures sep !in s ==> Split(s, sep) == [s]
    ensures sep in s ==> |Split(s, sep)[0]| < |s|
                         && Split(s, sep) == [Split(s, sep)[0]] + Split(s[|Split(s, sep)[0]| + 1..], sep)
  {
    var a := Split(s, sep)[0];
    SplitHead(s, sep);
    if |a| < |s| {
      var b := s[|a| + 1..];
      assert s == a + [sep] + b;
      SplitAfterHead(a, sep, b);
    } else {
      assert a == s;
      SplitNoSeparator(s, sep);
    }
  }

  // ---------------------------------------------------------------------------
  // parseInt
  // ---------------------------------------------------------------------------

  /**
   * The characters ECMAScript strips from the front of the argument of
   * `parseInt`: white space (tab, vertical tab, form feed, no-break space, byte
   * order mark and every space separator) and line terminators.
   */
  predicate IsStrWhiteSpace(c: char)
  {
    || c == '\t' || c == '\U{B}' || c == '\U{C}' || c == ' ' || c == '\U{A0}' || c == '\U{FEFF}'
    || c == '\U{1680}' || ('\U{2000}' <= c <= '\U{200A}') || c == '\U{202F}' || c == '\U{205F}'
    || c == '\U{3000}'
    || c == '\n' || c == '\r' || c == '\U{2028}' || c == '\U{2029}'
  }

  /** The string with its leading white space removed. */
  function TrimStart(s: string): (t: string)
    ensures |t| <= |s| && t == s[|s| - |t|..]
    ensures t == [] || !IsStrWhiteSpace(t[0])
    ensures forall i :: 0 <= i < |s| - |t| ==> IsStrWhiteSpace(s[i])
    decreases |s|
  {
    if s != [] && IsStrWhiteSpace(s[0]) then TrimStart(s[1..]) else s
  }

  predicate IsDecimalDigit(c: char)
  {
    '0' <= c <= '9'
  }

  /** The value of `c` as a digit in base `radix` (10 or 16), if it is one. */
  function DigitValue(c: char, radix: nat): (d: Option<nat>)
    ensures d.Some? ==> d.value < radix
  {
    var v :=
      if '0' <= c <= '9' then (c as int) - ('0' as int)
      else if 'a' <= c <= 'z' then (c as int) - ('a' as int) + 10
      else if 'A' <= c <= 'Z' then (c as int) - ('A' as int) + 10
      else radix;
    if v < radix then Some(v) else None
  }

  /** The length of the longest prefix of `s` made of base-`radix` digits. */
  function DigitRun(s: string, radix: nat): (n: nat)
    ensures n <= |s|
    ensures forall i :: 0 <= i < n ==> DigitValue(s[i], radix).Some?
    ensures n < |s| ==> DigitValue(s[n], radix).None?
    decreases |s|
  {
    if s == [] || DigitValue(s[0], radix).None? then 0 else 1 + DigitRun(s[1..], radix)
  }

  /** The number that a string of base-`radix` digits denotes, most significant first. */
  function DigitsValue(ds: string, radix: nat): nat
    decreases |ds|
  {
    if ds == [] then 0
    else
      var last := match DigitValue(ds[|ds| - 1], radix) case Some(d) => d case None => 0;
      DigitsValue(ds[..|ds| - 1], radix) * radix + last
  }

  /**
   * `parseInt(s)` with no radix: leading white space is skipped, one sign is
   * read, and the rest is read by ParseUnsigned. No digit at all gives `NaN`,
   * here None.
   */
  function ParseInt(s: string): (r: Option<int>)
    ensures TrimStart(s) == [] ==> r.None?
    ensures r.Some? && r.value < 0 ==> TrimStart(s)[0] == '-'
    ensures TrimStart(s) != [] && TrimStart(s)[0] == '-' && r.Some? ==> r.value <= 0
  {
    ParseSigned(TrimStart(s))
  }

  /** The part of `parseInt` after the white space: one optional sign, then ParseUnsigned. */
  function ParseSigned(t: string): (r: Option<int>)
    ensures t == [] ==> r.None?
    ensures r.Some? && r.value < 0 ==> t[0] == '-'
    ensures t != [] && t[0] == '-' && r.Some? ==> r.value <= 0
    ensures t != [] && IsDecimalDigit(t[0]) && !(|t| >= 2 && (t[1] == 'x' || t[1] == 'X')) ==> r.Some? && r.value >= 0
  {
    if t != [] && t[0] == '-' then
      match ParseUnsigned(t[1..])
      case None => None
      case Some(v) => Some(-(v as int))
    else if t != [] && t[0] == '+' then
      match ParseUnsigned(t[1..])
      case None => None
      case Some(v) => Some(v)
    else
      match ParseUnsigned(t)
      case None => None
      case Some(v) => Some(v)
  }

  /**
   * The unsigned part of `parseInt`: a `0x`/`0X` prefix selects base 16
   * (otherwise base 10), and the longest run of digits that follows is the
   * value; anything after it is ignored.
   */
  function ParseUnsigned(u: string): (r: Option<nat>)
    ensures r.None? <==>
              || u == []
              || !IsDecimalDigit(u[0])
              || (|u| >= 2 && u[0] == '0' && (u[1] == 'x' || u[1] == 'X') && DigitRun(u[2..], 16) == 0)
  {
    var hex := |u| >= 2 && u[0] == '0' && (u[1] == 'x' || u[1] == 'X');
    var radix := if hex then 16 else 10;
    var body := if hex then u[2..] else u;
    var n := DigitRun(body, radix);
    if n == 0 then None else Some(DigitsValue(body[..n], radix))
  }

  // ---------------------------------------------------------------------------
  // Decimal text of an integer (`${n}` in a template literal)
  // ---------------------------------------------------------------------------

  function DecimalChar(d: nat): (c: char)
    requires d < 10
    ensures IsDecimalDigit(c) && DigitValue(c, 10) == Some(d)
  {
    (('0' as int) + d) as char
  }

  /** The decimal digits of `n`, without leading zeros. */
  function NatToString(n: nat): (s: string)
    ensures |s| >= 1
    ensures forall i :: 0 <= i < |s| ==> IsDecimalDigit(s[i])
    ensures s[0] == '0' ==> n == 0 && s == "0"
    decreases n
  {
    if n < 10 then [DecimalChar(n)] else NatToString(n / 10) + [DecimalChar(n % 10)]
  }

  /** The decimal text of `n`, with a leading `-` when it is negative. */
  function IntToString(n: int): (s: string)
    ensures |s| >= 1
    ensures forall i :: 0 <= i < |s| ==> IsDecimalDigit(s[i]) || s[i] == '-'
  {
    if n < 0 then "-" + NatToString(-n) else NatToString(n)
  }

  /** The digits NatToString writes denote the number it was given. */
  lemma {:induction false} DigitsValueOfNatToString(n: nat)
    ensures DigitsValue(NatToString(n), 10) == n
    decreases n
  {
    var s := NatToString(n);
    if n >= 10 {
      DigitsValueOfNatToString(n / 10);
      assert s[..|s| - 1] == NatToString(n / 10);
    }
  }

  /** A run of digits followed by a non-digit is read up to that non-digit. */
  lemma {:induction false} DigitRunOfPrefix(p: string, rest: string, radix: nat)
    requires forall i :: 0 <= i < |p| ==> DigitValue(p[i], radix).Some?
    requires rest == [] || DigitValue(rest[0], radix).None?
    ensures DigitRun(p + rest, radix) == |p|
    decreases |p|
  {
    if p != [] {
      assert (p + rest)[1..] == p[1..] + rest;
      DigitRunOfPrefix(p[1..], rest, radix);
    }
  }

  /**
   * `parseInt` reads back the decimal text of any integer, also when other text
   * follows, as long as that text does not continue the number: it must not
   * start with a digit, nor with `x`/`X` after a lone `0` (which would make the
   * whole a hexadecimal literal).
   */
  lemma {:induction false} ParseIntOfIntToString(n: int, rest: string)
    requires rest == [] || !IsDecimalDigit(rest[0])
    requires n == 0 && rest != [] ==> rest[0] != 'x' && rest[0] != 'X'
    ensures ParseInt(IntToString(n) + rest) == Some(n)
  {
    if n < 0 {
      ParseIntOfNegative(-n, rest);
      assert -((-n) as int) == n;
    } else {
      ParseIntOfNonNegative(n, rest);
    }
  }

  lemma ParseIntOfNegative(m: nat, rest: string)
    requires m > 0
    requires rest == [] || !IsDecimalDigit(rest[0])
    ensures ParseInt(IntToString(-(m as int)) + rest) == Some(-(m as int))
  {
    var u := NatToString(m) + rest;
    var s := IntToString(-(m as int)) + rest;
    assert s == ['-'] + u;
    ParseUnsignedOfNatToString(m, rest);
    ParseIntOfSigned(u, m);
  }

  lemma ParseIntOfNonNegative(m: nat, rest: string)
    requires rest == [] || !IsDecimalDigit(rest[0])
    requires m == 0 && rest != [] ==> rest[0] != 'x' && rest[0] != 'X'
    ensures ParseInt(IntToString(m) + rest) == Some(m)
  {
    var u := NatToString(m) + rest;
    ParseUnsignedOfNatToString(m, rest);
    ParseIntOfUnsigned(u, m);
    assert IntToString(m) + rest == u;
  }

  /** A text that starts with a digit is read by ParseUnsigned alone. */
  lemma ParseIntOfUnsigned(u: string, v: nat)
    requires u != [] && IsDecimalDigit(u[0])
    requires ParseUnsigned(u) == Some(v)
    ensures ParseInt(u) == Some(v)
  {
    TrimStartOfNonSpace(u);
    ParseSignedOfDigit(u, v);
  }

  /** A `-` followed by a digit negates what ParseUnsigned reads after it. */
  lemma ParseIntOfSigned(u: string, v: nat)
    requires ParseUnsigned(u) == Some(v)
    ensures ParseInt(['-'] + u) == Some(-(v as int))
  {
    TrimStartOfNonSpace(['-'] + u);
    ParseSignedOfMinus(u, v);
  }

  lemma TrimStartOfNonSpace(s: string)
    requires s != [] && !IsStrWhiteSpace(s[0])
    ensures TrimStart(s) == s
  {
  }

  lemma ParseSignedOfDigit(u: string, v: nat)
    requires u != [] && IsDecimalDigit(u[0])
    requires ParseUnsigned(u) == Some(v)
    ensures ParseSigned(u) == Some(v)
  {
  }

  lemma ParseSignedOfMinus(u: string, v: nat)
    requires ParseUnsigned(u) == Some(v)
    ensures ParseSigned(['-'] + u) == Some(-(v as int))
  {
    assert (['-'] + u)[1..] == u;
  }

  /** The unsigned reading of a decimal text followed by text that does not continue it. */
  lemma ParseUnsignedOfNatToString(m: nat, rest: string)
    requires rest == [] || !IsDecimalDigit(rest[0])
    requires m == 0 && rest != [] ==> rest[0] != 'x' && rest[0] != 'X'
    ensures ParseUnsigned(NatToString(m) + rest) == Some(m)
  {
    var digits := NatToString(m);
    var u := digits + rest;
    assert !(|u| >= 2 && u[0] == '0' && (u[1] == 'x' || u[1] == 'X'));
    assert rest == [] || DigitValue(rest[0], 10).None?;
    DigitRunOfPrefix(digits, rest, 10);
    assert u[..|digits|] == digits;
    DigitsValueOfNatToString(m);
  }

  /** Different integers have different decimal texts. */
  lemma IntToStringInjective(a: int, b: int)
    requires IntToString(a) == IntToString(b)
    ensures a == b
  {
    ParseIntOfIntToString(a, "");
    ParseIntOfIntToString(b, "");
    assert IntToString(a) + "" == IntToString(b) + "";
  }
}
