/**
 * Digit strings used as property keys of a JavaScript array. `refs["1"]` reads element 1,
 * but `refs["01"]` reads a property no array has: only the canonical decimal spelling of
 * an index names an element.
 */
module ArrayIndex {

  /** An ASCII decimal digit, the class `\d` matches without the `u` flag. */
  predicate IsDigit(c: char)
  {
    '0' <= c <= '9'
  }

  predicate AllDigits(s: string)
  {
    forall i :: 0 <= i < |s| ==> IsDigit(s[i])
  }

  function DigitValue(c: char): (n: nat)
    requires IsDigit(c)
    ensures n < 10
  {
    c as int - '0' as int
  }

  function DigitChar(n: nat): (c: char)
    requires n < 10
    ensures IsDigit(c) && DigitValue(c) == n
  {
    ('0' as int + n) as char
  }

  /** The number a digit string denotes in base ten. */
  function DecimalValue(d: string): nat
    requires AllDigits(d)
    decreases |d|
  {
    if d == [] then 0 else DecimalValue(d[..|d| - 1]) * 10 + DigitValue(d[|d| - 1])
  }

  /** The string JavaScript produces for an array index n: decimal digits, no leading zero. */
  function Decimal(n: nat): (s: string)
    ensures 0 < |s| && AllDigits(s)
  {
    if n < 10 then [DigitChar(n)] else Decimal(n / 10) + [DigitChar(n % 10)]
  }

  /** A digit string that is the canonical spelling of some array index. */
  predicate IsIndexKey(d: string)
  {
    0 < |d| && AllDigits(d) && (d[0] == '0' ==> |d| == 1)
  }

  /** Printing an index gives a canonical key that denotes that index. */
  lemma {:induction false} ValueOfDecimal(n: nat)
    ensures IsIndexKey(Decimal(n))
    ensures DecimalValue(Decimal(n)) == n
  {
    if n >= 10 {
      ValueOfDecimal(n / 10);
      var p := Decimal(n / 10);
      assert Decimal(n)[..|Decimal(n)| - 1] == p;
      assert Decimal(n)[0] == p[0];
    }
  }

  lemma {:induction false} ValuePositive(d: string)
    requires IsIndexKey(d) && d[0] != '0'
    ensures DecimalValue(d) > 0
  {
    if |d| > 1 {
      var p := d[..|d| - 1];
      assert p[0] == d[0];
      ValuePositive(p);
    }
  }

  /** Reading a canonical key as a number and printing it again gives back the key. */
  lemma {:induction false} DecimalOfValue(d: string)
    requires IsIndexKey(d)
    ensures Decimal(DecimalValue(d)) == d
  {
    if |d| > 1 {
      var p := d[..|d| - 1];
      assert p[0] == d[0];
      ValuePositive(p);
      DecimalOfValue(p);
      var n := DecimalValue(d);
      assert n / 10 == DecimalValue(p) && n % 10 == DigitValue(d[|d| - 1]);
      assert d == p + [d[|d| - 1]];
    }
  }

  /** A key names index i exactly when it is the printed form of i. */
  lemma KeyNamesIndex(d: string, i: nat)
    ensures (IsIndexKey(d) && DecimalValue(d) == i) <==> d == Decimal(i)
  {
    ValueOfDecimal(i);
    if IsIndexKey(d) { DecimalOfValue(d); }
  }
}
