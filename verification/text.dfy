/** Character classes, JavaScript-style trimming and the decimal form of
    integers, shared by the schema validators and the error classes. */
module Text {

  /** White space and line terminators as JavaScript defines them: the set that
      both `String.prototype.trim` and the regular-expression class `\s` use. */
  predicate IsSpace(c: char) {
    || c == ' ' || c == '\t' || c == '\n' || c == '\U{B}' || c == '\U{C}' || c == '\r'
    || c == '\U{A0}' || c == '\U{1680}' || ('\U{2000}' <= c <= '\U{200A}')
    || c == '\U{2028}' || c == '\U{2029}' || c == '\U{202F}' || c == '\U{205F}'
    || c == '\U{3000}' || c == '\U{FEFF}'
  }

  predicate IsAsciiLetter(c: char) {
    ('a' <= c <= 'z') || ('A' <= c <= 'Z')
  }

  predicate IsAsciiDigit(c: char) {
    '0' <= c <= '9'
  }

  ghost predicate AllSpace(s: string) {
    forall i | 0 <= i < |s| :: IsSpace(s[i])
  }

  /** Neither end of `s` is white space. */
  predicate Trimmed(s: string) {
    |s| == 0 || (!IsSpace(s[0]) && !IsSpace(s[|s| - 1]))
  }

  /** `t` is `s` with a (possibly empty) run of white space cut from each end,
      the cut on the left being `i` characters long. */
  ghost predicate CutFrom(s: string, t: string, i: int) {
    && 0 <= i && i + |t| <= |s|
    && s[i..i + |t|] == t
    && AllSpace(s[..i])
    && AllSpace(s[i + |t|..])
  }

  function TrimStart(s: string): string {
    if |s| > 0 && IsSpace(s[0]) then TrimStart(s[1..]) else s
  }

  function TrimEnd(s: string): string {
    if |s| > 0 && IsSpace(s[|s| - 1]) then TrimEnd(s[..|s| - 1]) else s
  }

  /** `TrimStart` cuts a run of white space from the front and stops at the
      first other character. */
  lemma {:induction false} TrimStartCuts(s: string)
    ensures var t := TrimStart(s);
      && |t| <= |s| && t == s[|s| - |t|..]
      && AllSpace(s[..|s| - |t|])
      && (|t| == 0 || !IsSpace(t[0]))
  {
    if |s| > 0 && IsSpace(s[0]) {
      var t := TrimStart(s[1..]);
      TrimStartCuts(s[1..]);
      assert s[..|s| - |t|] == [s[0]] + s[1..][..|s[1..]| - |t|];
    }
  }

  /** `TrimEnd` cuts a run of white space from the back and stops at the last
      other character. */
  lemma {:induction false} TrimEndCuts(s: string)
    ensures var t := TrimEnd(s);
      && |t| <= |s| && t == s[..|t|]
      && AllSpace(s[|t|..])
      && (|t| == 0 || !IsSpace(t[|t| - 1]))
  {
    if |s| > 0 && IsSpace(s[|s| - 1]) {
      var t := TrimEnd(s[..|s| - 1]);
      TrimEndCuts(s[..|s| - 1]);
      assert s[|t|..] == s[..|s| - 1][|t|..] + [s[|s| - 1]];
    }
  }

  /** `String.prototype.trim`: the result has no white space at either end. */
  function Trim(s: string): (t: string)
    ensures Trimmed(t)
  {
    TrimStartCuts(s);
    TrimEndCuts(TrimStart(s));
    TrimEnd(TrimStart(s))
  }

  /** Trimming only removes white space, and only from the ends. */
  lemma TrimCutsWhiteSpace(s: string)
    ensures exists i :: CutFrom(s, Trim(s), i)
  {
    var u := TrimStart(s);
    var t := TrimEnd(u);
    TrimStartCuts(s);
    TrimEndCuts(u);
    var i := |s| - |u|;
    assert Trim(s) == t;
    assert s[i..i + |t|] == t;
    assert s[i + |t|..] == u[|t|..];
    assert CutFrom(s, t, i);
  }

  /** Trimming is idempotent: a string without white space at its ends is its
      own trim. */
  lemma {:induction false} TrimTrimmed(s: string)
    requires Trimmed(s)
    ensures Trim(s) == s
  {
    assert TrimStart(s) == s;
    assert TrimEnd(s) == s;
  }

  lemma TrimTwice(s: string)
    ensures Trim(Trim(s)) == Trim(s)
  {
    TrimTrimmed(Trim(s));
  }

  function Pow10(k: nat): (p: nat)
    ensures p >= 1
  {
    if k == 0 then 1 else 10 * Pow10(k - 1)
  }

  function DigitChar(d: nat): (c: char)
    requires d < 10
    ensures IsAsciiDigit(c)
  {
    (48 + d) as char
  }

  /** Decimal digits of a natural number, most significant first, no leading zeros. */
  function NatString(n: nat): (s: string)
    ensures |s| >= 1
    ensures forall i | 0 <= i < |s| :: IsAsciiDigit(s[i])
  {
    if n < 10 then [DigitChar(n)] else NatString(n / 10) + [DigitChar(n % 10)]
  }

  /** JavaScript's `${n}` for an integer `n` (see README for magnitudes of 10^21 and above). */
  function DecimalString(n: int): (s: string)
    ensures |s| >= 1
    ensures s[0] == '-' <==> n < 0
  {
    if n < 0 then "-" + NatString(-n) else NatString(n)
  }

  /** `n` has leading decimal digit `d`: it lies in `[d * 10^k, (d + 1) * 10^k)` for some `k`. */
  ghost predicate LeadingDigit(n: int, d: nat) {
    exists k: nat :: d * Pow10(k) <= n < (d + 1) * Pow10(k)
  }

  lemma TenBounds(n: int, lo: int, hi: int)
    ensures (10 * lo <= n < 10 * hi) <==> (lo <= n / 10 < hi)
  {
  }

  lemma ScaleByTen(d: nat, q: nat)
    ensures d * (10 * q) == 10 * (d * q)
    ensures (d + 1) * (10 * q) == 10 * ((d + 1) * q)
  {
  }

  /** Stepping one decimal place: `n` leads with `d` exactly when `n / 10` does,
      for `n` of two digits or more. */
  lemma {:induction false} LeadingDigitShift(n: nat, d: nat)
    requires n >= 10 && 1 <= d <= 9
    ensures LeadingDigit(n, d) <==> LeadingDigit(n / 10, d)
  {
    if LeadingDigit(n / 10, d) {
      var k: nat :| d * Pow10(k) <= n / 10 < (d + 1) * Pow10(k);
      ScaleByTen(d, Pow10(k));
      TenBounds(n, d * Pow10(k), (d + 1) * Pow10(k));
      assert d * Pow10(k + 1) <= n < (d + 1) * Pow10(k + 1);
    }
    if LeadingDigit(n, d) {
      var k: nat :| d * Pow10(k) <= n < (d + 1) * Pow10(k);
      if k > 0 {
        var q := Pow10(k - 1);
        ScaleByTen(d, q);
        TenBounds(n, d * q, (d + 1) * q);
        assert d * Pow10(k - 1) <= n / 10 < (d + 1) * Pow10(k - 1);
      }
    }
  }

  lemma Pow10AtLeastTen(k: nat)
    ensures k > 0 ==> Pow10(k) >= 10
  {
  }

  lemma {:induction false} SmallLeadingDigit(n: nat, d: nat)
    requires n < 10 && 1 <= d <= 9
    ensures LeadingDigit(n, d) <==> n == d
  {
    if n == d {
      assert d * Pow10(0) <= n < (d + 1) * Pow10(0);
    }
    if LeadingDigit(n, d) {
      var k: nat :| d * Pow10(k) <= n < (d + 1) * Pow10(k);
      Pow10AtLeastTen(k);
      assert d * Pow10(k) >= Pow10(k);
      assert k == 0;
    }
  }

  /** The first character of the decimal form of `n` is the digit `d` exactly
      when `n` lies in `[d * 10^k, (d + 1) * 10^k)` for some `k`. */
  lemma {:induction false} FirstDigitIsLeadingDigit(n: nat, d: nat)
    requires 1 <= d <= 9
    ensures NatString(n)[0] == DigitChar(d) <==> LeadingDigit(n, d)
    decreases n
  {
    if n < 10 {
      SmallLeadingDigit(n, d);
    } else {
      assert NatString(n)[0] == NatString(n / 10)[0];
      FirstDigitIsLeadingDigit(n / 10, d);
      LeadingDigitShift(n, d);
    }
  }
}
