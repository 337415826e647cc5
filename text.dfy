/**
  The two string operations the moisture loop applies to a serial frame:
  Python's `str.strip()` with no argument and Python's `int()` on the
  stripped text (decimal only).
 */
module Text {
  import opened Wrappers

  /** Python's `str.isspace` for one character: the Unicode White_Space
      characters together with the separators U+001C..U+001F. */
  predicate IsSpace(c: char) {
    var n := c as int;
    || 0x09 <= n <= 0x0D
    || 0x1C <= n <= 0x20
    || n == 0x85 || n == 0xA0 || n == 0x1680
    || 0x2000 <= n <= 0x200A
    || n == 0x2028 || n == 0x2029 || n == 0x202F || n == 0x205F || n == 0x3000
  }

  predicate AllSpace(s: string) {
    forall i :: 0 <= i < |s| ==> IsSpace(s[i])
  }

  /** `s.lstrip()`. */
  function TrimLeft(s: string): (r: string)
    ensures |r| <= |s|
  {
    if s != [] && IsSpace(s[0]) then TrimLeft(s[1..]) else s
  }

  /** `s.rstrip()`. */
  function TrimRight(s: string): (r: string)
    ensures |r| <= |s|
  {
    if s != [] && IsSpace(s[|s| - 1]) then TrimRight(s[..|s| - 1]) else s
  }

  /** `s.strip()`. */
  function Strip(s: string): (r: string)
    ensures |r| <= |s|
  {
    TrimRight(TrimLeft(s))
  }

  /** `lstrip` drops the leading white space and nothing else: what is left
      is a suffix of the text, everything before it is white space, and it
      does not start with white space. */
  lemma {:induction false} TrimLeftSpec(s: string)
    ensures var r := TrimLeft(s);
      && (forall i :: 0 <= i < |r| ==> r[i] == s[|s| - |r| + i])
      && (forall i :: 0 <= i < |s| - |r| ==> IsSpace(s[i]))
      && (r != [] ==> !IsSpace(r[0]))
  {
    if s != [] && IsSpace(s[0]) {
      TrimLeftSpec(s[1..]);
    }
  }

  /** `rstrip` drops the trailing white space and nothing else. */
  lemma {:induction false} TrimRightSpec(s: string)
    ensures var r := TrimRight(s);
      && (forall i :: 0 <= i < |r| ==> r[i] == s[i])
      && (forall i :: |r| <= i < |s| ==> IsSpace(s[i]))
      && (r != [] ==> !IsSpace(r[|r| - 1]))
  {
    if s != [] && IsSpace(s[|s| - 1]) {
      TrimRightSpec(s[..|s| - 1]);
    }
  }

  /** `strip` gives the empty string exactly for all-white-space text, and
      otherwise a text that neither starts nor ends with white space. */
  lemma StripSpec(s: string)
    ensures Strip(s) == [] <==> AllSpace(s)
    ensures Strip(s) != [] ==> !IsSpace(Strip(s)[0]) && !IsSpace(Strip(s)[|Strip(s)| - 1])
  {
    var l := TrimLeft(s);
    TrimLeftSpec(s);
    TrimRightSpec(l);
    var r := TrimRight(l);
    if r != [] {
      assert r[0] == l[0];
      var k := |s| - |l|;
      assert !IsSpace(s[k]) by { assert l[0] == s[k]; }
    }
  }

  /** Leading white space in front of a text that does not start with white space is dropped exactly. */
  lemma {:induction false} TrimLeftSkips(pre: string, rest: string)
    requires AllSpace(pre)
    requires rest == [] || !IsSpace(rest[0])
    ensures TrimLeft(pre + rest) == rest
  {
    if pre == [] {
      assert pre + rest == rest;
    } else {
      assert (pre + rest)[0] == pre[0];
      assert (pre + rest)[1..] == pre[1..] + rest;
      TrimLeftSkips(pre[1..], rest);
    }
  }

  /** Trailing white space behind a text that does not end with white space is dropped exactly. */
  lemma {:induction false} TrimRightSkips(rest: string, post: string)
    requires AllSpace(post)
    requires rest == [] || !IsSpace(rest[|rest| - 1])
    ensures TrimRight(rest + post) == rest
  {
    if post == [] {
      assert rest + post == rest;
    } else {
      var s := rest + post;
      assert s[|s| - 1] == post[|post| - 1];
      assert s[..|s| - 1] == rest + post[..|post| - 1];
      TrimRightSkips(rest, post[..|post| - 1]);
    }
  }

  /** `strip` removes exactly the surrounding white space: for any padding
      around a core that neither starts nor ends with white space, the
      result is that core. */
  lemma StripUnpads(pre: string, core: string, post: string)
    requires AllSpace(pre) && AllSpace(post)
    requires core != [] ==> !IsSpace(core[0]) && !IsSpace(core[|core| - 1])
    ensures Strip(pre + core + post) == core
  {
    var s := pre + core + post;
    if core == [] {
      forall i | 0 <= i < |s| ensures IsSpace(s[i]) {
        if i < |pre| { assert s[i] == pre[i]; } else { assert s[i] == post[i - |pre|]; }
      }
      StripSpec(s);
    } else {
      assert s == pre + (core + post);
      assert (core + post)[0] == core[0];
      TrimLeftSkips(pre, core + post);
      TrimRightSkips(core, post);
    }
  }

  /** Stripping twice is stripping once. */
  lemma StripIdempotent(s: string)
    ensures Strip(Strip(s)) == Strip(s)
  {
    var r := Strip(s);
    StripSpec(s);
    StripUnpads([], r, []);
    assert [] + r + [] == r;
  }

  predicate IsDigit(c: char) {
    '0' <= c <= '9'
  }

  predicate AllDigits(s: string) {
    forall i :: 0 <= i < |s| ==> IsDigit(s[i])
  }

  function DigitValue(c: char): (d: nat)
    requires IsDigit(c)
    ensures d < 10
  {
    c as int - '0' as int
  }

  function DigitChar(d: nat): (c: char)
    requires d < 10
    ensures IsDigit(c) && DigitValue(c) == d
  {
    ('0' as int + d) as char
  }

  /** The value of a run of decimal digits, most significant first. */
  function DigitsValue(s: string): nat
    requires AllDigits(s)
  {
    if s == [] then 0 else 10 * DigitsValue(s[..|s| - 1]) + DigitValue(s[|s| - 1])
  }

  /** The part of a literal after an optional leading sign. */
  function Unsigned(s: string): string {
    if s != [] && (s[0] == '+' || s[0] == '-') then s[1..] else s
  }

  /** The texts `int()` accepts in this model: an optional `+` or `-`
      followed by one or more ASCII decimal digits. */
  predicate IsDecimal(s: string) {
    Unsigned(s) != [] && AllDigits(Unsigned(s))
  }

  /** Python `int(s)` on an already stripped string; `None` stands for the
      `ValueError` it raises. */
  function ParseInt(s: string): (r: Option<int>)
    ensures r.Some? ==> s != [] && (r.value < 0 ==> s[0] == '-')
    ensures r.Some? && s[0] != '-' ==> r.value >= 0
  {
    if IsDecimal(s) then
      var magnitude: int := DigitsValue(Unsigned(s));
      Some(if s[0] == '-' then -magnitude else magnitude)
    else
      None
  }

  /** The canonical decimal spelling of a natural number. */
  function ShowNat(n: nat): (r: string)
    ensures r != [] && AllDigits(r)
  {
    if n < 10 then [DigitChar(n)] else ShowNat(n / 10) + [DigitChar(n % 10)]
  }

  /** The canonical decimal spelling of an integer, as `str(n)` writes it. */
  function ShowInt(n: int): (r: string)
    ensures r != []
  {
    if n < 0 then "-" + ShowNat(-n) else ShowNat(n)
  }

  lemma {:induction false} ShowNatValue(n: nat)
    ensures DigitsValue(ShowNat(n)) == n
  {
    var s := ShowNat(n);
    if n >= 10 {
      ShowNatValue(n / 10);
      assert s[..|s| - 1] == ShowNat(n / 10);
    }
  }

  /** Every integer spelled the way the sensor firmware prints it is read
      back as itself. */
  lemma ParseShowInt(n: int)
    ensures ParseInt(ShowInt(n)) == Some(n)
  {
    var s := ShowInt(n);
    if n < 0 {
      assert Unsigned(s) == ShowNat(-n);
      ShowNatValue(-n);
    } else {
      assert s[0] != '+' && s[0] != '-';
      ShowNatValue(n);
    }
  }

  /** A leading `+` does not change the value read. */
  lemma ParsePlus(digits: string)
    requires digits != [] && AllDigits(digits)
    ensures ParseInt("+" + digits) == ParseInt(digits)
  {
    assert Unsigned("+" + digits) == digits;
    assert digits[0] != '+' && digits[0] != '-';
  }
}
