/**
 The C library string routines both programs lean on (strstr, strtok, atoi,
 strtol, the %d/%lu conversions of snprintf), restated over `seq<char>`.
 A received buffer is taken to be the whole C string: it holds no NUL byte
 and nothing is read past its end.
 */
module CText {
  import opened Wrappers

  const CRLF: seq<char> := "\r\n"
  const CRLFCRLF: seq<char> := "\r\n\r\n"

  /** `s` ends with `t` (the strncmp test on the tail of the receive buffer). */
  predicate EndsWith(s: seq<char>, t: seq<char>) {
    |t| <= |s| && s[|s| - |t|..] == t
  }

  /** `t` occurs in `s` starting at index `i`. */
  predicate OccursAt(s: seq<char>, t: seq<char>, i: nat) {
    i + |t| <= |s| && s[i..i + |t|] == t
  }

  predicate Contains(s: seq<char>, t: seq<char>) {
    exists i: nat | i <= |s| :: OccursAt(s, t, i)
  }

  /** An occurrence in a suffix is an occurrence in the whole. */
  lemma ContainsInSuffix(s: seq<char>, off: nat, t: seq<char>)
    requires off <= |s| && Contains(s[off..], t)
    ensures Contains(s, t)
  {
    var p: nat :| p <= |s[off..]| && OccursAt(s[off..], t, p);
    assert s[off + p..off + p + |t|] == s[off..][p..p + |t|];
    assert OccursAt(s, t, off + p);
  }

  /** strstr: the index of the first occurrence of `t` in `s`, if any. */
  function Find(s: seq<char>, t: seq<char>): (r: Option<nat>)
    ensures r.Some? ==> OccursAt(s, t, r.value)
    ensures r.Some? ==> forall j: nat | j < r.value :: !OccursAt(s, t, j)
    ensures r.None? <==> !Contains(s, t)
  {
    FindFrom(s, t, 0)
  }

  function FindFrom(s: seq<char>, t: seq<char>, i: nat): (r: Option<nat>)
    requires forall j: nat | j < i :: !OccursAt(s, t, j)
    ensures r.Some? ==> i <= r.value && OccursAt(s, t, r.value)
    ensures r.Some? ==> forall j: nat | j < r.value :: !OccursAt(s, t, j)
    ensures r.None? ==> forall j: nat :: !OccursAt(s, t, j)
    decreases |s| + 1 - i
  {
    if |s| < i + |t| then None
    else if s[i..i + |t|] == t then Some(i)
    else FindFrom(s, t, i + 1)
  }

  /** isspace in the C locale. */
  predicate IsSpace(c: char) {
    c == ' ' || c == '\t' || c == '\n' || c == '\U{0B}' || c == '\U{0C}' || c == '\r'
  }

  /** The value of `c` as a digit; 99 for characters that are no digit in bases up to 16. */
  function DigitValue(c: char): nat {
    if '0' <= c <= '9' then c as nat - '0' as nat
    else if 'a' <= c <= 'f' then c as nat - 'a' as nat + 10
    else if 'A' <= c <= 'F' then c as nat - 'A' as nat + 10
    else 99
  }

  predicate IsDigitIn(c: char, base: nat) {
    DigitValue(c) < base
  }

  predicate AllDigits(s: seq<char>, base: nat) {
    forall i | 0 <= i < |s| :: IsDigitIn(s[i], base)
  }

  /** The number a digit string denotes, most significant digit first. */
  function Value(ds: seq<char>, base: nat): nat
    decreases |ds|
  {
    if |ds| == 0 then 0 else Value(ds[..|ds| - 1], base) * base + DigitValue(ds[|ds| - 1])
  }

  /** The lower-case digit for `d` (snprintf's %d, %lu and %x digits). */
  function DigitChar(d: nat): (c: char)
    requires d < 16
    ensures DigitValue(c) == d
  {
    "0123456789abcdef"[d]
  }

  /** The numeral of `n` in `base` without leading zeros (snprintf's %lu for base 10). */
  function Numeral(n: nat, base: nat): (r: seq<char>)
    requires 2 <= base <= 16
    ensures |r| > 0 && AllDigits(r, base)
    ensures |r| > 1 ==> r[0] != '0'
    decreases n
  {
    if n < base then [DigitChar(n)]
    else
      DivShrinks(n, base);
      Numeral(n / base, base) + [DigitChar(n % base)]
  }

  lemma DivMod(n: nat, base: nat)
    requires 2 <= base
    ensures (n / base) * base + n % base == n
  {}

  /** Dividing by the base makes a number of two or more digits smaller, but not zero. */
  lemma DivShrinks(n: nat, base: nat)
    requires 2 <= base <= n
    ensures 0 < n / base < n
  {
    DivMod(n, base);
  }

  lemma ValueAppend(ds: seq<char>, c: char, base: nat)
    ensures Value(ds + [c], base) == Value(ds, base) * base + DigitValue(c)
  {
    assert (ds + [c])[..|ds|] == ds;
  }

  /** A numeral denotes the number it was written for. */
  lemma {:induction false} NumeralValue(n: nat, base: nat)
    requires 2 <= base <= 16
    ensures Value(Numeral(n, base), base) == n
    decreases n
  {
    if n < base {
      assert Value([DigitChar(n)], base) == DigitValue(DigitChar(n));
    } else {
      var q, d := n / base, n % base;
      DivShrinks(n, base);
      var ds := Numeral(q, base);
      assert Numeral(n, base) == ds + [DigitChar(d)];
      assert Value(ds, base) == q by {
        NumeralValue(q, base);
      }
      assert Value(ds + [DigitChar(d)], base) == Value(ds, base) * base + d by {
        ValueAppend(ds, DigitChar(d), base);
      }
      assert q * base + d == n by {
        DivMod(n, base);
      }
    }
  }

  function Decimal(n: nat): seq<char> {
    Numeral(n, 10)
  }

  function Pow10(k: nat): (p: nat)
    ensures p >= 1
  {
    if k == 0 then 1 else 10 * Pow10(k - 1)
  }

  /** A number below 10 to the k takes at most k decimal digits. */
  lemma {:induction false} DecimalDigits(n: nat, k: nat)
    requires 1 <= k && n < Pow10(k)
    ensures |Decimal(n)| <= k
    decreases k
  {
    if n >= 10 {
      var q := n / 10;
      DivMod(n, 10);
      assert k >= 2 && q < Pow10(k - 1);
      DecimalDigits(q, k - 1);
      assert Decimal(n) == Numeral(q, 10) + [DigitChar(n % 10)];
    }
  }

  /** The longest prefix of `s` made of digits in `base`. */
  function LeadingDigits(s: seq<char>, base: nat): (r: seq<char>)
    ensures |r| <= |s| && r == s[..|r|] && AllDigits(r, base)
    ensures |r| < |s| ==> !IsDigitIn(s[|r|], base)
    decreases |s|
  {
    if |s| == 0 || !IsDigitIn(s[0], base) then []
    else [s[0]] + LeadingDigits(s[1..], base)
  }

  /** `s` without its leading white space. */
  function SkipSpace(s: seq<char>): (r: seq<char>)
    ensures |r| <= |s| && r == s[|s| - |r|..]
    ensures forall i | 0 <= i < |s| - |r| :: IsSpace(s[i])
    ensures |r| > 0 ==> !IsSpace(r[0])
    decreases |s|
  {
    if |s| > 0 && IsSpace(s[0]) then SkipSpace(s[1..]) else s
  }

  /** A "0x"/"0X" that strtol(…, 16) skips: it is followed by a hex digit. */
  predicate HexPrefix(s: seq<char>) {
    |s| >= 3 && s[0] == '0' && (s[1] == 'x' || s[1] == 'X') && IsDigitIn(s[2], 16)
  }

  /**
   The value strtol(s, NULL, base) computes for base 10 (atoi) or 16: leading
   white space, an optional sign, for base 16 an optional 0x, then the
   longest run of digits. Integers are unbounded: overflow is not modelled.
   */
  function ParseInteger(s: seq<char>, base: nat): int {
    var t := SkipSpace(s);
    var negative := |t| > 0 && t[0] == '-';
    var u := if |t| > 0 && (t[0] == '-' || t[0] == '+') then t[1..] else t;
    var v := if base == 16 && HexPrefix(u) then u[2..] else u;
    var n: int := Value(LeadingDigits(v, base), base);
    if negative then -n else n
  }

  function Atoi(s: seq<char>): int {
    ParseInteger(s, 10)
  }

  function Strtol16(s: seq<char>): int {
    ParseInteger(s, 16)
  }

  /** The leading digits of a numeral followed by a non-digit are the numeral itself. */
  lemma {:induction false} LeadingDigitsOfNumeral(ds: seq<char>, t: seq<char>, base: nat)
    requires AllDigits(ds, base)
    requires t == [] || !IsDigitIn(t[0], base)
    ensures LeadingDigits(ds + t, base) == ds
    decreases |ds|
  {
    if |ds| > 0 {
      assert (ds + t)[1..] == ds[1..] + t;
      LeadingDigitsOfNumeral(ds[1..], t, base);
    } else {
      assert ds + t == t;
    }
  }

  /**
   Reading back what snprintf wrote: strtol (base 10 or 16) of a numeral that is
   followed by a non-digit gives the number.
   */
  lemma ParseNumeral(n: nat, t: seq<char>, base: nat)
    requires base == 10 || base == 16
    requires t == [] || (!IsDigitIn(t[0], base) && t[0] != 'x' && t[0] != 'X')
    ensures ParseInteger(Numeral(n, base) + t, base) == n
  {
    var ds := Numeral(n, base);
    var s := ds + t;
    assert s[0] == ds[0] && IsDigitIn(ds[0], base);
    assert !IsSpace(s[0]) && s[0] != '-' && s[0] != '+';
    assert SkipSpace(s) == s;
    assert !HexPrefix(s) by {
      if |s| >= 2 {
        if |ds| > 1 {
          assert s[1] == ds[1] && IsDigitIn(ds[1], base);
        } else {
          assert s[1] == t[0];
        }
      }
    }
    ParseUnsigned(s, base);
    LeadingDigitsOfNumeral(ds, t, base);
    NumeralValue(n, base);
  }

  /** Without white space, sign or 0x in front, strtol reads just the leading digits. */
  lemma ParseUnsigned(s: seq<char>, base: nat)
    requires |s| > 0 && !IsSpace(s[0]) && s[0] != '-' && s[0] != '+'
    requires !(base == 16 && HexPrefix(s))
    ensures ParseInteger(s, base) == Value(LeadingDigits(s, base), base)
  {
    assert SkipSpace(s) == s;
  }

  /** One call of strtok: the token found and the text the next call continues from. */
  datatype Token = Token(token: seq<char>, rest: seq<char>)

  predicate Free(s: seq<char>, d: char) {
    forall i | 0 <= i < |s| :: s[i] != d
  }

  /** A joined text lacks a character exactly when both of its parts do. */
  lemma FreeConcat(a: seq<char>, b: seq<char>, d: char)
    ensures Free(a + b, d) <==> Free(a, d) && Free(b, d)
  {
    assert forall i | 0 <= i < |a| :: a[i] == (a + b)[i];
    assert forall i | 0 <= i < |b| :: b[i] == (a + b)[|a| + i];
    if Free(a, d) && Free(b, d) {
      forall i | 0 <= i < |a + b|
        ensures (a + b)[i] != d
      {
        if i >= |a| {
          assert (a + b)[i] == b[i - |a|];
        }
      }
    }
  }

  /** `s` without its leading delimiters. */
  function SkipChar(s: seq<char>, d: char): (r: seq<char>)
    ensures |r| <= |s| && r == s[|s| - |r|..]
    ensures forall i | 0 <= i < |s| - |r| :: s[i] == d
    ensures |r| > 0 ==> r[0] != d
    decreases |s|
  {
    if |s| > 0 && s[0] == d then SkipChar(s[1..], d) else s
  }

  /** The longest prefix of `s` without the delimiter. */
  function TakeUntil(s: seq<char>, d: char): (r: seq<char>)
    ensures |r| <= |s| && r == s[..|r|] && Free(r, d)
    ensures |r| < |s| ==> s[|r|] == d
    decreases |s|
  {
    if |s| == 0 || s[0] == d then [] else [s[0]] + TakeUntil(s[1..], d)
  }

  /**
   strtok(s, {d}) followed by the saved position: skip delimiters, take the
   non-empty run up to the next delimiter, and continue after that delimiter
   (which strtok overwrote with NUL), or at the end of the string.
   */
  function Strtok(s: seq<char>, d: char): (r: Option<Token>)
    ensures r.None? <==> forall i | 0 <= i < |s| :: s[i] == d
    ensures r.Some? ==> |r.value.token| > 0 && Free(r.value.token, d)
    ensures r.Some? ==> exists k: nat :: TokenAt(s, d, k, r.value)
  {
    var t := SkipChar(s, d);
    if |t| == 0 then None
    else
      var tok := TakeUntil(t, d);
      var k := |s| - |t|;
      var token := Token(tok, if |tok| < |t| then t[|tok| + 1..] else []);
      assert s[k] == t[0];
      assert TokenAt(s, d, k, token) by {
        assert s[k..k + |tok|] == tok;
        assert |tok| < |t| ==> s[k + |tok|] == d && t[|tok| + 1..] == s[k + |tok| + 1..];
      }
      Some(token)
  }

  /** The run before the first delimiter is taken whole. */
  lemma {:induction false} TakeUntilRun(a: seq<char>, d: char, rest: seq<char>)
    requires Free(a, d) && (rest == [] || rest[0] == d)
    ensures TakeUntil(a + rest, d) == a
    decreases |a|
  {
    if |a| == 0 {
      assert a + rest == rest;
    } else {
      assert (a + rest)[0] == a[0];
      assert (a + rest)[1..] == a[1..] + rest;
      TakeUntilRun(a[1..], d, rest);
    }
  }

  /** strtok on a token followed by the delimiter returns the token and continues after the delimiter. */
  lemma StrtokBefore(a: seq<char>, d: char, rest: seq<char>)
    requires |a| > 0 && Free(a, d)
    ensures Strtok(a + [d] + rest, d) == Some(Token(a, rest))
  {
    var s := a + [d] + rest;
    assert s[0] == a[0];
    assert SkipChar(s, d) == s;
    assert s == a + ([d] + rest);
    TakeUntilRun(a, d, [d] + rest);
    assert s[|a| + 1..] == rest;
  }

  /** strtok on a last token returns it and leaves nothing to continue from. */
  lemma StrtokLast(a: seq<char>, d: char)
    requires |a| > 0 && Free(a, d)
    ensures Strtok(a, d) == Some(Token(a, []))
  {
    assert SkipChar(a, d) == a;
    assert a + [] == a;
    TakeUntilRun(a, d, []);
  }

  /** After `k` delimiters, `s` holds the token, which ends as TokenEnd says. */
  predicate TokenAt(s: seq<char>, d: char, k: nat, tk: Token) {
    && k + |tk.token| <= |s|
    && (forall i | 0 <= i < k :: s[i] == d)
    && s[k..k + |tk.token|] == tk.token
    && TokenEnd(s, d, k + |tk.token|, tk.rest)
  }

  /** The token ends at `e`: at the end of `s`, or at a delimiter after which `rest` follows. */
  predicate TokenEnd(s: seq<char>, d: char, e: nat, rest: seq<char>) {
    (e == |s| && rest == []) || (e < |s| && s[e] == d && rest == s[e + 1..])
  }
}
