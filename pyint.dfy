/** Python's `int(s)` for a decimal string, with `ValueError` as `None`. */
module PyInt {
  import opened Wrappers
  import opened Text

  predicate IsDigit(c: char) {
    '0' <= c <= '9'
  }

  predicate AllDigits(s: string) {
    forall k :: 0 <= k < |s| ==> IsDigit(s[k])
  }

  /** The value of a string of decimal digits, most significant first. */
  function DigitsValue(s: string): (n: nat)
    requires AllDigits(s)
  {
    if s == [] then 0 else DigitsValue(s[..|s| - 1]) * 10 + (s[|s| - 1] as int - '0' as int)
  }

  /**
   * `int(s)`: surrounding white space is ignored, then an optional sign and at least one digit;
   * anything else raises `ValueError`, here `None`.
   */
  function ParseInt(s: string): (r: Option<int>)
    ensures r.Some? ==> var t := Strip(s);
      t != [] && (AllDigits(t) || ((t[0] == '-' || t[0] == '+') && |t| > 1 && AllDigits(t[1..])))
  {
    var t := Strip(s);
    if t == [] then None
    else if t[0] == '-' || t[0] == '+' then
      if |t| > 1 && AllDigits(t[1..]) then
        var n: int := DigitsValue(t[1..]);
        Some(if t[0] == '-' then -n else n)
      else None
    else if AllDigits(t) then Some(DigitsValue(t))
    else None
  }

  /** The decimal text of `n`, as `str(n)` writes it. */
  function NatToString(n: nat): (s: string)
    ensures s != [] && AllDigits(s)
  {
    if n < 10 then [('0' as int + n) as char]
    else NatToString(n / 10) + [('0' as int + n % 10) as char]
  }

  /** `str(n)` for any integer. */
  function IntToString(n: int): string {
    if n < 0 then "-" + NatToString(-n) else NatToString(n)
  }

  lemma {:induction false} DigitsValueOfNatToString(n: nat)
    ensures DigitsValue(NatToString(n)) == n
  {
    if n >= 10 {
      var p := NatToString(n / 10);
      var s := p + [('0' as int + n % 10) as char];
      assert s[..|s| - 1] == p;
      DigitsValueOfNatToString(n / 10);
    }
  }

  /** `int(str(n)) == n`: parsing undoes printing. */
  lemma {:induction false} ParseIntOfIntToString(n: int)
    ensures ParseInt(IntToString(n)) == Some(n)
  {
    var m: nat := if n < 0 then -n else n;
    var d := NatToString(m);
    var s := IntToString(n);
    DigitsValueOfNatToString(m);
    assert !IsSpace(s[0]) && !IsSpace(s[|s| - 1]);
    StripOfTrimmed(s);
    assert Strip(s) == s;
    if n < 0 {
      assert s[0] == '-' && s[1..] == d;
    } else {
      assert s == d && !(s[0] == '-' || s[0] == '+');
    }
  }
}
