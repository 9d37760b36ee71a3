/** Integers as text: `std::to_string`, and `std::from_chars` as `str2int` of `src/kv_store.cpp` uses it. */
module Decimals {
  import opened Bytes

  const INT64_MAX := 0x7FFF_FFFF_FFFF_FFFF

  predicate IsInt64(i: int) { -0x8000_0000_0000_0000 <= i <= 0x7FFF_FFFF_FFFF_FFFF }

  datatype Number = NotANumber | Number(value: int)

  predicate IsDigit(c: u8) { 48 <= c <= 57 }

  predicate AllDigits(s: bytes) { forall i :: 0 <= i < |s| ==> IsDigit(s[i]) }

  function Val(s: bytes): nat
    requires AllDigits(s)
  {
    if s == [] then 0 else 10 * Val(s[..|s| - 1]) + (s[|s| - 1] as int - 48)
  }

  /** `str2int`: an optional minus sign, at least one digit, nothing else, and in range. */
  function Parse(s: bytes): (r: Number)
    ensures r.Number? ==> IsInt64(r.value)
  {
    var digits := if s != [] && s[0] == 45 then s[1..] else s;
    if digits == [] || !AllDigits(digits) then NotANumber
    else
      var i: int := if s[0] == 45 then 0 - Val(digits) else Val(digits);
      if IsInt64(i) then Number(i) else NotANumber
  }

  function Digits(n: nat): (s: bytes)
    ensures s != [] && AllDigits(s)
  {
    if n < 10 then [48 + n] else Digits(n / 10) + [48 + n % 10]
  }

  /** `std::to_string` */
  function Decimal(i: int): bytes { if i < 0 then [45] + Digits(-i) else Digits(i) }

  lemma {:induction false} ValDigits(n: nat)
    ensures Val(Digits(n)) == n
  {
    if n >= 10 {
      ValDigits(n / 10);
      var s := Digits(n);
      assert s[..|s| - 1] == Digits(n / 10);
    }
  }

  /** Every 64-bit integer is read back from its text. */
  lemma ParseDecimal(i: int)
    requires IsInt64(i)
    ensures Parse(Decimal(i)) == Number(i)
  {
    if i < 0 {
      ValDigits(-i);
      assert Decimal(i)[1..] == Digits(-i);
    } else {
      ValDigits(i);
      assert IsDigit(Digits(i)[0]);
    }
  }

  function Zeros(n: nat): (s: bytes)
    ensures |s| == n && AllDigits(s)
  { seq(n, i => 48) }

  lemma {:induction false} ValZeros(z: nat, d: bytes)
    requires AllDigits(d)
    ensures AllDigits(Zeros(z) + d) && Val(Zeros(z) + d) == Val(d)
  {
    var s := Zeros(z) + d;
    if d != [] {
      assert s[..|s| - 1] == Zeros(z) + d[..|d| - 1];
      ValZeros(z, d[..|d| - 1]);
    } else if z > 0 {
      assert s[..|s| - 1] == Zeros(z - 1) + d;
      ValZeros(z - 1, d);
    }
  }

  /** Digits are those of their value, with zeros in front. */
  lemma {:induction false} DigitsOfVal(d: bytes)
    requires AllDigits(d) && d != []
    ensures |Digits(Val(d))| <= |d| && d == Zeros(|d| - |Digits(Val(d))|) + Digits(Val(d))
  {
    var n := |d| - 1;
    var front, v, c := d[..n], Val(d), d[n];
    assert d == front + [c];
    if front != [] {
      DigitsOfVal(front);
      var w := Val(front);
      assert v == 10 * w + (c as int - 48) && v / 10 == w;
      if w == 0 {
        assert Digits(0) == [48] && Digits(v) == [c] && front == Zeros(n);
      } else {
        assert Digits(v) == Digits(w) + [c];
      }
    }
  }

  /** `str2int` accepts exactly the 64-bit integers in decimal: an optional minus sign, any number of zeros, and
      the digits. */
  lemma ParseExactly(s: bytes, i: int)
    ensures Parse(s) == Number(i) <==>
      IsInt64(i) && exists z: nat ::
        (i >= 0 && s == Zeros(z) + Digits(i)) || (i <= 0 && s == [45] + (Zeros(z) + Digits(-i)))
  {
    var digits := if s != [] && s[0] == 45 then s[1..] else s;
    if Parse(s) == Number(i) {
      DigitsOfVal(digits);
      if s[0] == 45 { assert s == [45] + digits; }
    }
    if z: nat :| i >= 0 && s == Zeros(z) + Digits(i) {
      NoMinus(s);
      ValZeros(z, Digits(i));
      ValDigits(i);
    }
    if z: nat :| i <= 0 && s == [45] + (Zeros(z) + Digits(-i)) {
      assert s[1..] == Zeros(z) + Digits(-i);
      ValZeros(z, Digits(-i));
      ValDigits(-i);
    }
  }

  lemma NoMinus(s: bytes)
    requires AllDigits(s) && s != []
    ensures s[0] != 45
  {
    assert IsDigit(s[0]);
  }

  /** Ten is written as a one and a zero. */
  lemma TextOfTen()
    ensures Decimal(10) == [49, 48] && Decimal(-10) == [45, 49, 48]
  {
    assert Digits(1) == [49] && Digits(10) == Digits(1) + [48];
  }
}
