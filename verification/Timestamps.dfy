/** What counts as a timestamp. */
module TimestampText {
  import opened Wrappers
  import opened JsonValues
  import opened UnionMerge
  import opened Naming

  lemma {:induction false} DigitsOfDecimal(n: nat)
    ensures DigitsValue(Decimal(n)) == Some(n)
    ensures IsDigit(Decimal(n)[0])
  {
    var s := Decimal(n);
    if n >= 10 {
      DigitsOfDecimal(n / 10);
      assert s[..|s| - 1] == Decimal(n / 10) && s[0] == Decimal(n / 10)[0];
    }
  }

  /** Text of the value n is read as n, as n behind a plus and as -n behind a minus. */
  lemma SignedText(s: string, n: nat)
    requires DigitsValue(s) == Some(n) && s != "" && IsDigit(s[0])
    ensures StampOf(Str(s)) == StampOf(Str("+" + s)) == if n <= I64_MAX then Some(n) else None
    ensures StampOf(Str("-" + s)) == if 0 - n >= I64_MIN then Some(0 - n) else None
  {
    assert ("+" + s)[1..] == s && ("-" + s)[1..] == s;
  }

  /** A timestamp means the same as a number and as decimal text, signed or not; out of range it is none. */
  lemma TextMeansNumber(n: nat)
    ensures StampOf(Str(Decimal(n))) == StampOf(Num(PosInt(n))) == if n <= I64_MAX then Some(n) else None
    ensures StampOf(Str("+" + Decimal(n))) == StampOf(Num(PosInt(n)))
    ensures var i: int := 0 - n;
      StampOf(Str("-" + Decimal(n))) == StampOf(Num(NegInt(i))) == if i >= I64_MIN then Some(i) else None
  {
    DigitsOfDecimal(n);
    SignedText(Decimal(n), n);
  }

  // ── Exactly which values are timestamps ──

  ghost predicate AllDigits(s: string) {
    s != "" && forall i :: 0 <= i < |s| ==> '0' <= s[i] <= '9'
  }

  /** The number a run of digits is the decimal notation of. */
  ghost function ValueOf(s: string): nat
    requires forall i :: 0 <= i < |s| ==> '0' <= s[i] <= '9'
  {
    if s == "" then 0 else 10 * ValueOf(s[..|s| - 1]) + (s[|s| - 1] as int - '0' as int)
  }

  /** A run of digits is read as its value; anything else is not read at all. */
  lemma {:induction false} DigitsExactly(s: string)
    ensures DigitsValue(s) == if AllDigits(s) then Some(ValueOf(s)) else None
  {
    if s != "" {
      var n := |s| - 1;
      DigitsExactly(s[..n]);
      if AllDigits(s[..n]) && '0' <= s[n] <= '9' {
        forall i | 0 <= i < |s| ensures '0' <= s[i] <= '9' {
          if i < n { assert s[..n][i] == s[i]; }
        }
      }
    }
  }

  /** An optional sign in front of decimal digits. */
  ghost predicate IsDecimalText(s: string) {
    s != "" && AllDigits(if s[0] == '-' || s[0] == '+' then s[1..] else s)
  }

  ghost function DecimalTextValue(s: string): int
    requires IsDecimalText(s)
  {
    if s[0] == '-' then 0 - ValueOf(s[1..])
    else if s[0] == '+' then ValueOf(s[1..])
    else ValueOf(s)
  }

  ghost predicate InRange(i: int) {
    -9223372036854775808 <= i <= 9223372036854775807
  }

  /** A text is a timestamp exactly if it is an optional sign and decimal digits, of a value in the range. */
  lemma TextExactly(s: string)
    ensures StampOf(Str(s)) ==
        if IsDecimalText(s) && InRange(DecimalTextValue(s)) then Some(DecimalTextValue(s)) else None
  {
    if s != "" {
      DigitsExactly(s);
      DigitsExactly(s[1..]);
    }
  }

  /** Any other character makes a text no timestamp. */
  lemma OtherCharacters(s: string, i: nat)
    requires i < |s| && !('0' <= s[i] <= '9') && (i == 0 ==> s[0] != '-' && s[0] != '+')
    ensures StampOf(Str(s)) == None
  {
    TextExactly(s);
    if i > 0 {
      assert s[1..][i - 1] == s[i];
    }
  }

  /** Of the other values only integers in the range are timestamps. */
  lemma ValuesExactly(v: Json)
    ensures v.Null? || v.Bool? || v.Arr? || v.Obj? ==> StampOf(v) == None
    ensures v.Num? && v.num.Float? ==> StampOf(v) == None
    ensures v.Num? && v.num.PosInt? ==> StampOf(v) == if InRange(v.num.n) then Some(v.num.n) else None
    ensures v.Num? && v.num.NegInt? ==> StampOf(v) == if InRange(v.num.i) then Some(v.num.i) else None
  {
  }
}
