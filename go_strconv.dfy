/**
 * Model of Go's `strconv.Atoi` on the inputs the port-range parser gives it,
 * with `strconv.Itoa` / `strconv.FormatInt` as its inverse.
 *
 * Atoi accepts a non-empty string of ASCII decimal digits, optionally
 * preceded by one `+` or `-`; leading zeros are allowed and, because the
 * base is fixed at 10, underscores are not.  Integers are unbounded here:
 * a value that would overflow Go's `int` is returned as it is instead of
 * as a range error.
 */
module GoStrconv {
  import opened Wrappers

  predicate IsDigit(c: char) { '0' <= c <= '9' }

  predicate AllDigits(s: string) { forall k :: 0 <= k < |s| ==> IsDigit(s[k]) }

  /** The syntax Atoi accepts: an optional sign, then at least one digit. */
  predicate IsDecimal(s: string)
  {
    |s| >= 1 &&
    (forall k :: 1 <= k < |s| ==> IsDigit(s[k])) &&
    (IsDigit(s[0]) || ((s[0] == '+' || s[0] == '-') && |s| >= 2))
  }

  function DigitValue(c: char): (d: nat)
    requires IsDigit(c)
    ensures d < 10
  {
    c as int - '0' as int
  }

  function DigitChar(d: nat): (c: char)
    requires d < 10
    ensures IsDigit(c) && DigitValue(c) == d
  {
    ('0' as int + d) as char
  }

  /** The value of a digit string read in base 10, most significant digit first. */
  function DigitsValue(ds: string): nat
    requires AllDigits(ds)
  {
    if ds == [] then 0 else 10 * DigitsValue(ds[..|ds| - 1]) + DigitValue(ds[|ds| - 1])
  }

  /**
   * Atoi's digit loop: starting from `n`, for each character either fail
   * on a non-digit or continue with `n * 10 + digit`.  AccumulateValue
   * shows that it computes the decimal value.
   */
  function Accumulate(n: int, ds: string): (r: Option<int>)
    ensures r.Some? <==> AllDigits(ds)
    decreases |ds|
  {
    if ds == [] then Some(n)
    else if !IsDigit(ds[0]) then None
    else
      AllDigitsCons(ds);
      Accumulate(n * 10 + DigitValue(ds[0]), ds[1..])
  }

  /** A string is all digits exactly when its head is a digit and its tail is all digits. */
  lemma AllDigitsCons(ds: string)
    requires ds != []
    ensures AllDigits(ds) <==> IsDigit(ds[0]) && AllDigits(ds[1..])
  {
    if IsDigit(ds[0]) && AllDigits(ds[1..]) {
      forall k | 0 < k < |ds| ensures IsDigit(ds[k]) { assert ds[k] == ds[1..][k - 1]; }
    }
  }

  /** Continuing the loop from the value of the digits read so far ends at the value of all the digits. */
  lemma {:induction false} AccumulateValue(done: string, rest: string)
    requires AllDigits(done) && AllDigits(rest)
    ensures AllDigits(done + rest)
    ensures Accumulate(DigitsValue(done), rest) == Some(DigitsValue(done + rest))
    decreases |rest|
  {
    if rest == [] {
      assert done + rest == done;
    } else {
      var next := done + [rest[0]];
      assert next[..|next| - 1] == done;
      assert next + rest[1..] == done + rest;
      AllDigitsCons(rest);
      AccumulateValue(next, rest[1..]);
    }
  }

  /** `strconv.Atoi(s)`: `Some(value)` when `s` has Atoi's syntax, `None` for its syntax error. */
  function Atoi(s: string): (r: Option<int>)
    ensures r.Some? <==> IsDecimal(s)
    ensures r.Some? && IsDigit(s[0]) ==> r.value == DigitsValue(s)
    ensures r.Some? && s[0] == '+' ==> r.value == DigitsValue(s[1..])
    ensures r.Some? && s[0] == '-' ==> r.value == -(DigitsValue(s[1..]) as int)
  {
    if |s| == 0 then None
    else
      var signed := s[0] == '+' || s[0] == '-';
      var body := if signed then s[1..] else s;
      DecimalBody(s);
      if |body| == 0 || !AllDigits(body) then None
      else
        AccumulateValue("", body);
        assert "" + body == body;
        var n := Accumulate(0, body).value;
        Some(if s[0] == '-' then -n else n)
  }

  /** Atoi's syntax: what follows an optional sign is a non-empty digit string. */
  lemma DecimalBody(s: string)
    requires |s| >= 1
    ensures var body := if s[0] == '+' || s[0] == '-' then s[1..] else s;
      IsDecimal(s) <==> |body| >= 1 && AllDigits(body)
  {
    if s[0] == '+' || s[0] == '-' {
      if IsDecimal(s) {
        forall k | 0 <= k < |s| - 1 ensures IsDigit(s[1..][k]) { assert s[1..][k] == s[k + 1]; }
      }
      if |s| >= 2 && AllDigits(s[1..]) {
        forall k | 1 <= k < |s| ensures IsDigit(s[k]) { assert s[k] == s[1..][k - 1]; }
      }
    }
  }

  /** `strconv.Itoa(n)` for `n >= 0`: the shortest decimal spelling, most significant digit first. */
  function FormatNat(n: nat): (s: string)
    ensures |s| >= 1 && AllDigits(s)
  {
    if n < 10 then [DigitChar(n)] else FormatNat(n / 10) + [DigitChar(n % 10)]
  }

  /** `strconv.Itoa(n)` for any integer: a `-` before the spelling of a negative number. */
  function FormatInt(n: int): string
  {
    if n < 0 then "-" + FormatNat(-n) else FormatNat(n)
  }

  /** The decimal spelling of `n` has value `n`. */
  lemma {:induction false} DigitsValueOfFormat(n: nat)
    ensures DigitsValue(FormatNat(n)) == n
  {
    var s := FormatNat(n);
    if n < 10 {
      assert s[..0] == [];
    } else {
      DigitsValueOfFormat(n / 10);
      assert s[..|s| - 1] == FormatNat(n / 10);
    }
  }

  /** Atoi reads the decimal spelling of every natural number back as that number. */
  lemma AtoiOfFormatNat(n: nat)
    ensures Atoi(FormatNat(n)) == Some(n)
  {
    var s := FormatNat(n);
    DigitsValueOfFormat(n);
    assert IsDigit(s[0]);
  }

  /** Atoi inverts Itoa: every integer's decimal spelling parses back to it. */
  lemma AtoiOfFormatInt(n: int)
    ensures Atoi(FormatInt(n)) == Some(n)
  {
    if n < 0 {
      var digits := FormatNat(-n);
      var s := "-" + digits;
      DigitsValueOfFormat(-n);
      assert s[0] == '-' && s[1..] == digits;
      DecimalBody(s);
    } else {
      AtoiOfFormatNat(n);
    }
  }

  /** Atoi ignores a leading `+` and leading zeros in front of a digit string. */
  lemma AtoiPlusAndZeros(ds: string)
    requires |ds| >= 1 && AllDigits(ds)
    ensures Atoi("+" + ds) == Atoi(ds)
    ensures Atoi("0" + ds) == Atoi(ds)
  {
    assert ("+" + ds)[1..] == ds;
    assert ("0" + ds)[0] == '0' && ("0" + ds)[1..] == ds;
  }
}
