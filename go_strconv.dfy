/** Go's `strconv.Atoi` on a 64-bit platform, and its inverse `strconv.Itoa`.

    `Atoi(s)` accepts an optional `+` or `-`, then one or more ASCII decimal
    digits (leading zeros allowed), and nothing else; the value must fit in a
    signed 64-bit integer. Every other string is an error. The caller in this
    model only ever asks whether an error occurred, so the error kind
    (syntax or range) is not kept: an error is `None`. */
module GoStrconv {
  import opened Wrappers

  const MinInt64: int := -0x8000_0000_0000_0000
  const MaxInt64: int := 0x7FFF_FFFF_FFFF_FFFF

  predicate InInt64(n: int) {
    MinInt64 <= n <= MaxInt64
  }

  predicate IsDigit(c: char) {
    '0' <= c <= '9'
  }

  predicate AllDigits(s: string) {
    forall i :: 0 <= i < |s| ==> IsDigit(s[i])
  }

  predicate IsSign(c: char) {
    c == '+' || c == '-'
  }

  function DigitValue(c: char): (d: nat)
    requires IsDigit(c)
    ensures d < 10
  {
    (c as int) - ('0' as int)
  }

  function DigitChar(d: nat): (c: char)
    requires d < 10
    ensures IsDigit(c) && DigitValue(c) == d
  {
    (('0' as int) + d) as char
  }

  /** The number a string of decimal digits denotes, most significant digit first. */
  function DecimalValue(ds: string): nat
    requires AllDigits(ds)
  {
    if ds == [] then 0 else DecimalValue(ds[..|ds| - 1]) * 10 + DigitValue(ds[|ds| - 1])
  }

  /** The digits that follow an optional leading sign. */
  function Unsigned(s: string): (u: string)
    ensures |u| <= |s| && u == s[|s| - |u|..]
  {
    if |s| > 0 && IsSign(s[0]) then s[1..] else s
  }

  /** strconv.Atoi: None stands for a non-nil error. */
  function Atoi(s: string): (r: Option<int>)
    ensures r.Some? ==> InInt64(r.value)
    ensures r.Some? ==> |Unsigned(s)| > 0 && AllDigits(Unsigned(s))
    ensures r.Some? && r.value < 0 ==> s[0] == '-'
  {
    var ds := Unsigned(s);
    if ds == [] || !AllDigits(ds) then None
    else
      var v: int := if s[0] == '-' then -(DecimalValue(ds) as int) else DecimalValue(ds);
      if InInt64(v) then Some(v) else None
  }

  /** Decimal digits of a natural number, without leading zeros. */
  function FormatNat(n: nat): (s: string)
    ensures |s| > 0 && AllDigits(s)
    ensures s[0] != '0' || n == 0
    decreases n
  {
    if n < 10 then [DigitChar(n)] else FormatNat(n / 10) + [DigitChar(n % 10)]
  }

  /** strconv.Itoa: `-` for negative numbers, then the digits of the magnitude. */
  function Itoa(n: int): (s: string)
  {
    if n < 0 then "-" + FormatNat(-n) else FormatNat(n)
  }

  /** The strings Itoa produces: no `+`, no leading zero, no "-0". */
  predicate IsCanonical(s: string) {
    var ds := Unsigned(s);
    && |ds| > 0 && AllDigits(ds)
    && (s[0] != '+')
    && (ds[0] != '0' || ds == "0")
    && (s[0] == '-' ==> ds != "0")
  }

  lemma {:induction false} DecimalValueOfFormat(n: nat)
    ensures DecimalValue(FormatNat(n)) == n
    decreases n
  {
    var s := FormatNat(n);
    if n < 10 {
      assert s[..0] == [];
    } else {
      DecimalValueOfFormat(n / 10);
      assert s[..|s| - 1] == FormatNat(n / 10);
    }
  }

  /** A nonempty digit string whose first digit is not `0` denotes a positive number. */
  lemma {:induction false} DecimalValuePositive(ds: string)
    requires |ds| > 0 && AllDigits(ds) && ds[0] != '0'
    ensures DecimalValue(ds) > 0
    decreases |ds|
  {
    if |ds| > 1 {
      DecimalValuePositive(ds[..|ds| - 1]);
    }
  }

  lemma {:induction false} FormatOfDecimalValue(ds: string)
    requires |ds| > 0 && AllDigits(ds)
    requires ds[0] != '0' || |ds| == 1
    ensures FormatNat(DecimalValue(ds)) == ds
    decreases |ds|
  {
    if |ds| > 1 {
      var init := ds[..|ds| - 1];
      var d := DigitValue(ds[|ds| - 1]);
      var n := DecimalValue(ds);
      assert n == DecimalValue(init) * 10 + d;
      DecimalValuePositive(init);
      assert n / 10 == DecimalValue(init) && n % 10 == d;
      FormatOfDecimalValue(init);
      assert ds == init + [ds[|ds| - 1]];
    }
  }

  /** Atoi reads back every int64 that Itoa writes. */
  lemma AtoiOfItoa(n: int)
    requires InInt64(n)
    ensures Atoi(Itoa(n)) == Some(n)
  {
    var s := Itoa(n);
    if n < 0 {
      var ds := FormatNat(-n);
      DecimalValueOfFormat(-n);
      assert s[0] == '-' && s[1..] == ds;
      assert Unsigned(s) == ds;
    } else {
      var ds := FormatNat(n);
      DecimalValueOfFormat(n);
      assert !IsSign(s[0]);
      assert Unsigned(s) == ds;
    }
  }

  /** Itoa writes back exactly the canonical string that Atoi read. */
  lemma ItoaOfAtoi(s: string)
    requires IsCanonical(s) && Atoi(s).Some?
    ensures Itoa(Atoi(s).value) == s
  {
    var ds := Unsigned(s);
    FormatOfDecimalValue(ds);
    if s[0] == '-' {
      DecimalValuePositive(ds);
      assert s == "-" + ds;
    } else {
      assert s == ds;
    }
  }

  /** Itoa only produces canonical strings. */
  lemma ItoaIsCanonical(n: int)
    ensures IsCanonical(Itoa(n))
  {
    var s := Itoa(n);
    if n < 0 {
      assert Unsigned(s) == FormatNat(-n);
      DecimalValueOfFormat(-n);
    } else {
      assert Unsigned(s) == FormatNat(n);
    }
  }

  /** The empty string, and a lone sign, are errors. */
  lemma AtoiRejectsNoDigits(s: string)
    requires s == "" || (|s| == 1 && IsSign(s[0]))
    ensures Atoi(s) == None
  {
  }

  /** Any character that is neither a digit nor a leading sign makes Atoi fail. */
  lemma AtoiRejectsStrayCharacter(s: string, i: nat)
    requires i < |s| && !IsDigit(s[i])
    requires i > 0 || !IsSign(s[0])
    ensures Atoi(s) == None
  {
    var ds := Unsigned(s);
    var k := i - (|s| - |ds|);
    assert 0 <= k < |ds| && ds[k] == s[i];
  }

  /** A value outside the int64 range is an error, however well-formed its digits. */
  lemma AtoiRejectsOverflow(s: string)
    requires |Unsigned(s)| > 0 && AllDigits(Unsigned(s))
    requires !InInt64(if s[0] == '-' then -(DecimalValue(Unsigned(s)) as int) else DecimalValue(Unsigned(s)))
    ensures Atoi(s) == None
  {
  }

  /** `z` zero digits. */
  function Zeros(z: nat): (s: string)
    ensures |s| == z && AllDigits(s)
  {
    seq(z, _ => '0')
  }

  lemma {:induction false} DecimalValueOfZeros(z: nat)
    ensures DecimalValue(Zeros(z)) == 0
    decreases z
  {
    if z > 0 {
      assert Zeros(z)[..z - 1] == Zeros(z - 1);
      DecimalValueOfZeros(z - 1);
    }
  }

  /** Leading zeros do not change the value of a digit string. */
  lemma {:induction false} DecimalValueLeadingZeros(z: nat, ds: string)
    requires AllDigits(ds)
    ensures AllDigits(Zeros(z) + ds) && DecimalValue(Zeros(z) + ds) == DecimalValue(ds)
    decreases |ds|
  {
    var s := Zeros(z) + ds;
    assert AllDigits(s) by {
      forall i | 0 <= i < |s| ensures IsDigit(s[i]) {
        if i >= z { assert s[i] == ds[i - z]; }
      }
    }
    if ds == [] {
      assert s == Zeros(z);
      DecimalValueOfZeros(z);
    } else {
      var init := ds[..|ds| - 1];
      assert s[..|s| - 1] == Zeros(z) + init;
      assert s[|s| - 1] == ds[|ds| - 1];
      DecimalValueLeadingZeros(z, init);
    }
  }

  /** Digits without a sign that fit in int64 parse to their decimal value. */
  lemma AtoiOfUnsignedDigits(ds: string)
    requires |ds| > 0 && AllDigits(ds) && DecimalValue(ds) <= MaxInt64
    ensures Atoi(ds) == Some(DecimalValue(ds) as int)
  {
    assert Unsigned(ds) == ds;
  }

  /** A single `+` or `-` in front of digits is stripped, and `-` negates the value. */
  lemma AtoiOfSignedDigits(c: char, ds: string)
    requires IsSign(c) && |ds| > 0 && AllDigits(ds)
    requires InInt64(if c == '-' then -(DecimalValue(ds) as int) else DecimalValue(ds))
    ensures Atoi([c] + ds) == Some(if c == '-' then -(DecimalValue(ds) as int) else DecimalValue(ds))
  {
    assert ([c] + ds)[1..] == ds;
  }

  /** Atoi accepts an optional `+` or `-` and any number of leading zeros,
      and gives the value the digits denote, negated after a `-`. */
  lemma AtoiOfPadded(sign: string, zeros: nat, n: nat)
    requires sign == "" || sign == "+" || sign == "-"
    requires n <= (if sign == "-" then -MinInt64 else MaxInt64)
    ensures Atoi(sign + Zeros(zeros) + FormatNat(n)) == Some(if sign == "-" then -(n as int) else n)
  {
    var ds := Zeros(zeros) + FormatNat(n);
    assert sign + Zeros(zeros) + FormatNat(n) == sign + ds;
    DecimalValueLeadingZeros(zeros, FormatNat(n));
    DecimalValueOfFormat(n);
    if sign == "" {
      assert sign + ds == ds;
      AtoiOfUnsignedDigits(ds);
    } else {
      assert sign == [sign[0]];
      AtoiOfSignedDigits(sign[0], ds);
    }
  }
}
