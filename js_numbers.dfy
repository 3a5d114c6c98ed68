/**
 * JavaScript number parsing as the route handlers and the timeout setting use it:
 * `parseInt(x)` with no radix, `parseFloat(x)`, and the `n || default` idiom that
 * replaces NaN and zero by a default.
 */
module JsNumbers {
  import opened Common
  import opened Text

  /** A JavaScript number as far as the model needs one; `Finite` holds the exact decimal value. */
  datatype Num = NaN | Finite(value: real) | Infinite(positive: bool)

  predicate IsDigitIn(c: char, radix: nat) {
    if radix == 16 then ('0' <= c <= '9') || ('a' <= c <= 'f') || ('A' <= c <= 'F')
    else '0' <= c <= '9'
  }

  function DigitValue(c: char): (d: nat)
    ensures '0' <= c <= '9' ==> d < 10
    ensures IsDigitIn(c, 16) ==> d < 16
  {
    if '0' <= c <= '9' then c as int - '0' as int
    else if 'a' <= c <= 'f' then c as int - 'a' as int + 10
    else if 'A' <= c <= 'F' then c as int - 'A' as int + 10
    else 0
  }

  /** The length of the longest prefix of `s` made of digits of the radix. */
  function DigitRun(s: string, radix: nat): (n: nat)
    ensures n <= |s|
    ensures forall i :: 0 <= i < n ==> IsDigitIn(s[i], radix)
    ensures n == |s| || !IsDigitIn(s[n], radix)
    decreases |s|
  {
    if s != [] && IsDigitIn(s[0], radix) then 1 + DigitRun(s[1..], radix) else 0
  }

  /** The value of a digit string in the given radix, most significant digit first. */
  function DigitsValue(ds: string, radix: nat): nat
    decreases |ds|
  {
    if ds == [] then 0 else DigitsValue(ds[..|ds| - 1], radix) * radix + DigitValue(ds[|ds| - 1])
  }

  /** The part of `s` after an optional leading sign, and whether that sign was a minus. */
  function Unsigned(s: string): (string, bool) {
    if s != [] && (s[0] == '-' || s[0] == '+') then (s[1..], s[0] == '-') else (s, false)
  }

  function Signed(negative: bool, magnitude: nat): int {
    if negative then -(magnitude as int) else magnitude
  }

  /** The unsigned integer at the start of `u`: hexadecimal after a `0x` or `0X` prefix, decimal
      otherwise; `None` when no digit follows. */
  function ReadInteger(u: string): Option<nat> {
    var hex := |u| >= 2 && u[0] == '0' && (u[1] == 'x' || u[1] == 'X');
    var radix := if hex then 16 else 10;
    var body := if hex then u[2..] else u;
    var n := DigitRun(body, radix);
    if n == 0 then None else Some(DigitsValue(body[..n], radix))
  }

  /** `parseInt(x)` with no radix: `None` stands for NaN (also for an absent parameter, since
      `parseInt(undefined)` is NaN). Leading white space and a sign are skipped, a `0x` prefix
      switches to hexadecimal, and the longest run of digits is read. */
  function ParseInt(arg: Option<string>): Option<int> {
    if arg.None? then None
    else
      var (u, negative) := Unsigned(TrimStart(arg.value));
      match ReadInteger(u)
      case None => None
      case Some(m) => Some(Signed(negative, m))
  }

  function Pow10Nat(n: nat): (p: nat)
    ensures p >= 1
  {
    if n == 0 then 1 else 10 * Pow10Nat(n - 1)
  }

  function Pow10(e: int): (p: real)
    ensures p > 0.0
  {
    if e >= 0 then Pow10Nat(e) as real else 1.0 / Pow10Nat(-e) as real
  }

  /** The exponent of an `e`/`E` suffix with at least one digit, or 0 when there is none. */
  function ExponentOf(s: string): int {
    if s != [] && (s[0] == 'e' || s[0] == 'E') then
      var (u, negative) := Unsigned(s[1..]);
      var n := DigitRun(u, 10);
      if n == 0 then 0 else Signed(negative, DigitsValue(u[..n], 10))
    else 0
  }

  /** The unsigned decimal literal at the start of `u` (digits, an optional fraction, an optional
      exponent), or `None` when it has neither integer nor fraction digits. */
  function ReadDecimal(u: string): Option<real> {
    var whole := u[..DigitRun(u, 10)];
    var afterWhole := u[|whole|..];
    var dotted := afterWhole != [] && afterWhole[0] == '.';
    var fraction := if dotted then afterWhole[1..][..DigitRun(afterWhole[1..], 10)] else [];
    var afterFraction := if dotted then afterWhole[1 + |fraction|..] else afterWhole;
    if whole == [] && fraction == [] then None
    else
      var mantissa := DigitsValue(whole, 10) as real + DigitsValue(fraction, 10) as real / Pow10Nat(|fraction|) as real;
      Some(mantissa * Pow10(ExponentOf(afterFraction)))
  }

  /** `parseFloat(x)`: the longest prefix of the trimmed text that is a decimal literal
      (sign, digits, fraction, exponent) or `Infinity`; NaN when there is none. */
  function ParseFloat(arg: Option<string>): Num {
    if arg.None? then NaN
    else
      var (u, negative) := Unsigned(TrimStart(arg.value));
      if StartsWith(u, "Infinity") then Infinite(!negative)
      else
        match ReadDecimal(u)
        case None => NaN
        case Some(m) => Finite(if negative then -m else m)
  }

  /** `n || d` for the result of `parseInt`: NaN and zero are falsy. */
  function IntOr(n: Option<int>, d: int): (r: int)
    ensures n == None || n == Some(0) ==> r == d
    ensures n.Some? && n.value != 0 ==> r == n.value
  {
    if n.None? || n.value == 0 then d else n.value
  }

  /** `n || d` for the result of `parseFloat`: NaN and (positive or negative) zero are falsy. */
  function NumOr(n: Num, d: Num): (r: Num)
    ensures n.Infinite? ==> r == n
    ensures n.Finite? && n.value != 0.0 ==> r == n
    ensures n == NaN || n == Finite(0.0) ==> r == d
  {
    if n == NaN || n == Finite(0.0) then d else n
  }

  /** The decimal text of a natural number, as JavaScript's `String(n)` writes it. */
  function NatString(n: nat): (s: string)
    ensures |s| >= 1
    ensures forall i :: 0 <= i < |s| ==> '0' <= s[i] <= '9'
  {
    if n < 10 then [('0' as int + n) as char]
    else NatString(n / 10) + [('0' as int + n % 10) as char]
  }

  function IntString(n: int): string {
    if n < 0 then "-" + NatString(-n) else NatString(n)
  }

  lemma {:induction false} NatStringValue(n: nat)
    ensures DigitsValue(NatString(n), 10) == n
  {
    var s := NatString(n);
    if n >= 10 {
      NatStringValue(n / 10);
      assert s[..|s| - 1] == NatString(n / 10);
    }
  }

  lemma DigitRunOfDigits(s: string)
    requires forall i :: 0 <= i < |s| ==> '0' <= s[i] <= '9'
    ensures DigitRun(s, 10) == |s|
  {
  }

  /** The unsigned readers take the whole of a decimal digit string. */
  lemma ReadDigits(s: string)
    requires |s| >= 1 && forall i :: 0 <= i < |s| ==> '0' <= s[i] <= '9'
    ensures ReadInteger(s) == Some(DigitsValue(s, 10))
    ensures ReadDecimal(s) == Some(DigitsValue(s, 10) as real)
  {
    DigitRunOfDigits(s);
    assert s[..|s|] == s;
    assert s[|s|..] == [];
  }

  lemma TrimStartKeeps(s: string)
    requires s == [] || !IsJsSpace(s[0])
    ensures TrimStart(s) == s
  {
  }

  /** The digits of a decimal integer, with or without a minus sign, after the trimming and sign
      handling both parsers start with. */
  lemma UnsignedOfDigits(s: string, negative: bool)
    requires |s| >= 1 && '0' <= s[0] <= '9'
    ensures Unsigned(TrimStart(if negative then "-" + s else s)) == (s, negative)
  {
    if negative {
      var t := "-" + s;
      assert t[0] == '-';
      TrimStartKeeps(t);
      assert t[1..] == s;
    } else {
      TrimStartKeeps(s);
    }
  }

  /** `parseInt` reads a signed decimal digit string as its value. */
  lemma ParseIntSignedDigits(s: string, negative: bool)
    requires |s| >= 1 && forall i :: 0 <= i < |s| ==> '0' <= s[i] <= '9'
    ensures ParseInt(Some(if negative then "-" + s else s)) == Some(Signed(negative, DigitsValue(s, 10)))
  {
    ReadDigits(s);
    UnsignedOfDigits(s, negative);
  }

  /** `parseFloat` reads a signed decimal digit string as its value. */
  lemma ParseFloatSignedDigits(s: string, negative: bool)
    requires |s| >= 1 && forall i :: 0 <= i < |s| ==> '0' <= s[i] <= '9'
    ensures ParseFloat(Some(if negative then "-" + s else s)) == Finite(Signed(negative, DigitsValue(s, 10)) as real)
  {
    var t := if negative then "-" + s else s;
    var m := DigitsValue(s, 10) as real;
    ReadDigits(s);
    UnsignedOfDigits(s, negative);
    DigitsNotInfinity(s);
    ParseFloatFromParts(t, s, negative, m);
    assert (if negative then -m else m) == Signed(negative, DigitsValue(s, 10)) as real;
  }

  lemma DigitsNotInfinity(s: string)
    requires |s| >= 1 && '0' <= s[0] <= '9'
    ensures !StartsWith(s, "Infinity")
  {
    if |s| >= 8 {
      assert s[..8][0] == s[0];
      assert "Infinity"[0] == 'I';
    }
  }

  lemma ParseFloatFromParts(t: string, u: string, negative: bool, m: real)
    requires Unsigned(TrimStart(t)) == (u, negative)
    requires !StartsWith(u, "Infinity") && ReadDecimal(u) == Some(m)
    ensures ParseFloat(Some(t)) == Finite(if negative then -m else m)
  {
  }

  /** `parseInt` and `parseFloat` read back every integer written in decimal. */
  lemma ParseRoundTrip(n: int)
    ensures ParseInt(Some(IntString(n))) == Some(n)
    ensures ParseFloat(Some(IntString(n))) == Finite(n as real)
  {
    var m := if n < 0 then -n else n;
    NatStringValue(m);
    ParseIntSignedDigits(NatString(m), n < 0);
    ParseFloatSignedDigits(NatString(m), n < 0);
  }
}
