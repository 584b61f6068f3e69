/** Python's `int(text)` and the `%d` format, restricted to an optional sign
    and ASCII decimal digits. */
module PyInt {
  import opened Errors
  import opened PyStr

  predicate IsDigit(c: char)
  {
    '0' <= c <= '9'
  }

  /** Every character is an ASCII decimal digit. */
  predicate AllDigits(ds: string)
  {
    ds == [] || (AllDigits(ds[..|ds| - 1]) && IsDigit(ds[|ds| - 1]))
  }

  /** The value of a run of decimal digits, most significant first. */
  function DigitsValue(ds: string): (v: nat)
    requires AllDigits(ds)
  {
    if ds == [] then 0
    else DigitsValue(ds[..|ds| - 1]) * 10 + (ds[|ds| - 1] as int - '0' as int)
  }

  /** `int(text)`: surrounding whitespace is ignored, then an optional `+` or `-`
      and at least one digit must make up the whole text; anything else is a
      ValueError, modelled as None. */
  function ParseInt(text: string): (r: Option<int>)
  {
    var t := Strip(text);
    if |t| > 0 && (t[0] == '-' || t[0] == '+') then
      if |t| > 1 && AllDigits(t[1..]) then
        var v: int := DigitsValue(t[1..]);
        Some(if t[0] == '-' then -v else v)
      else None
    else if |t| > 0 && AllDigits(t) then Some(DigitsValue(t))
    else None
  }

  function DigitChar(d: nat): (c: char)
    requires d < 10
    ensures IsDigit(c) && c as int - '0' as int == d
  {
    ('0' as int + d) as char
  }

  /** The shortest decimal numeral of `n`, as `%d` writes a non-negative value. */
  function NatDigits(n: nat): (ds: string)
    ensures |ds| > 0 && AllDigits(ds)
  {
    if n < 10 then
      assert [DigitChar(n)][..0] == [];
      [DigitChar(n)]
    else
      var ds := NatDigits(n / 10) + [DigitChar(n % 10)];
      assert ds[..|ds| - 1] == NatDigits(n / 10);
      ds
  }

  /** `'%d' % n`. */
  function Decimal(n: int): (s: string)
    ensures |s| > 0
  {
    if n < 0 then "-" + NatDigits(-n) else NatDigits(n)
  }

  lemma {:induction false} AllDigitsAt(ds: string, i: nat)
    requires AllDigits(ds) && i < |ds|
    ensures IsDigit(ds[i])
  {
    if i < |ds| - 1 {
      AllDigitsAt(ds[..|ds| - 1], i);
    }
  }

  lemma {:induction false} NatDigitsValue(n: nat)
    ensures DigitsValue(NatDigits(n)) == n
  {
    var ds := NatDigits(n);
    if n >= 10 {
      NatDigitsValue(n / 10);
      assert ds[..|ds| - 1] == NatDigits(n / 10);
    } else {
      assert ds[..0] == [];
    }
  }

  /** `int('%d' % n) == n`: formatting a number and parsing it back gives the number. */
  lemma ParseDecimal(n: int)
    ensures ParseInt(Decimal(n)) == Some(n)
  {
    var s := Decimal(n);
    var m: nat := if n < 0 then -n else n;
    var ds := NatDigits(m);
    NatDigitsValue(m);
    AllDigitsAt(ds, 0);
    AllDigitsAt(ds, |ds| - 1);
    if n < 0 {
      assert s[1..] == ds;
      assert s[|s| - 1] == ds[|ds| - 1];
    }
    StripUnchanged(s);
  }

  /** The numeral has no leading zero unless it is "0". */
  lemma {:induction false} NatDigitsCanonical(n: nat)
    ensures NatDigits(n)[0] == '0' <==> n == 0
    ensures n == 0 ==> NatDigits(n) == "0"
  {
    if n >= 10 {
      NatDigitsCanonical(n / 10);
    }
  }

  /** `%d` writes the canonical numeral: "-" only for a negative value, no
      leading zero, and "0" only for zero. */
  lemma DecimalCanonical(n: int)
    ensures n == 0 ==> Decimal(n) == "0"
    ensures n > 0 ==> IsDigit(Decimal(n)[0]) && Decimal(n)[0] != '0'
    ensures n < 0 ==> Decimal(n)[0] == '-' && |Decimal(n)| >= 2 && Decimal(n)[1] != '0'
  {
    var m: nat := if n < 0 then -n else n;
    NatDigitsCanonical(m);
    AllDigitsAt(NatDigits(m), 0);
  }

  /** The two texts the clamp stores parse to 0 and 100. */
  lemma ParseBounds()
    ensures ParseInt("0") == Some(0) && ParseInt("100") == Some(100)
  {
    ParseDecimal(0);
    ParseDecimal(100);
    assert Decimal(0) == "0";
    HundredDigits();
  }

  lemma HundredDigits()
    ensures Decimal(100) == "100"
  {
    assert NatDigits(1) == "1";
    assert NatDigits(10) == "10";
  }

  /** The empty text, and any text of whitespace only, is not a number. */
  lemma ParseBlank(text: string)
    requires Strip(text) == []
    ensures ParseInt(text) == None
  {
  }
}
