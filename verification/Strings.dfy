/** C strings: zero-terminated byte buffers, the numeral conversions and the comparisons on them. */
module Strings {
  import opened Machine

  const NUL: byte := 0
  const MINUS: byte := 45
  const ZERO: byte := 48

  /** The index of the first zero byte; the buffer's length if there is none. */
  function CLen(s: seq<byte>): (n: nat)
    ensures n <= |s|
  {
    if s == [] || s[0] == NUL then 0 else 1 + CLen(s[1..])
  }

  /** The string a buffer holds. */
  function CStr(s: seq<byte>): seq<byte> { s[..CLen(s)] }

  lemma {:induction false} CLenIs(s: seq<byte>, n: nat)
    requires n < |s| && s[n] == NUL && forall i | 0 <= i < n :: s[i] != NUL
    ensures CLen(s) == n && CStr(s) == s[..n]
  {
    if n > 0 { CLenIs(s[1..], n - 1); }
  }

  lemma {:induction false} CLenEnds(s: seq<byte>)
    ensures CLen(s) < |s| ==> s[CLen(s)] == NUL
    ensures forall i | 0 <= i < CLen(s) :: s[i] != NUL
  {
    if s != [] && s[0] != NUL { CLenEnds(s[1..]); }
  }

  /** The buffer holds a string that the 16-bit length counter can count. */
  predicate IsString(s: seq<byte>) { CLen(s) < |s| && CLen(s) < 0x1_0000 }

  method StrLen(s: array<byte>) returns (n: nat)
    requires IsString(s[..])
    ensures n == CLen(s[..])
  {
    n := 0;
    CLenEnds(s[..]);
    while s[n] != NUL
      invariant n <= CLen(s[..])
      decreases CLen(s[..]) - n
    {
      n := U16(n + 1);
    }
    CLenIs(s[..], n);
  }

  /** str_ref_copy: the string with its terminator; the rest of the buffer stays. */
  method StrRefCopy(to: array<byte>, from: array<byte>)
    requires to != from && CLen(from[..]) < from.Length && CLen(from[..]) < to.Length
    modifies to
    ensures to[..CLen(from[..])] == CStr(from[..]) && to[CLen(from[..])] == NUL
    ensures forall k | CLen(from[..]) < k < to.Length :: to[k] == old(to[k])
  {
    CLenEnds(from[..]);
    ghost var n := CLen(from[..]);
    var i := 0;
    while from[i] != NUL
      invariant i <= n
      invariant forall k | 0 <= k < to.Length :: to[k] == if k < i then from[k] else old(to[k])
      decreases n - i
    {
      to[i] := from[i];
      i := i + 1;
    }
    CLenIs(from[..], i);
    to[i] := NUL;
  }

  // ---- numerals ----

  /** The decimal digits of n, none for zero. */
  function Digits(n: nat): seq<byte> {
    if n == 0 then [] else Digits(n / 10) + [ZERO + n % 10]
  }

  /** The canonical numeral of n. */
  function Numeral(n: int): seq<byte> {
    if n == 0 then [ZERO] else if n < 0 then [MINUS] + Digits(-n) else Digits(n)
  }

  predicate IsDigit(c: byte) { 48 <= c <= 57 }

  /** What digits stand for, read left to right from an initial value. */
  function Value(s: seq<byte>, start: int): int {
    if s == [] then start else Value(s[1..], start * 10 + (s[0] - ZERO))
  }

  lemma {:induction false} ValueAppend(s: seq<byte>, c: byte, start: int)
    ensures Value(s + [c], start) == Value(s, start) * 10 + (c - 48)
  {
    if s == [] {
      assert [] + [c] == [c] && [c][1..] == [];
    } else {
      assert (s + [c])[1..] == s[1..] + [c];
      ValueAppend(s[1..], c, start * 10 + (s[0] - ZERO));
    }
  }

  lemma {:induction false} DigitsValue(n: nat)
    ensures Value(Digits(n), 0) == n
    ensures forall i | 0 <= i < |Digits(n)| :: IsDigit(Digits(n)[i])
    ensures n > 0 ==> |Digits(n)| > 0 && Digits(n)[0] != ZERO
  {
    if n > 0 {
      DigitsValue(n / 10);
      ValueAppend(Digits(n / 10), ZERO + n % 10, 0);
    }
  }

  /** Numerals have no leading zero, and a minus sign only in front of one. */
  lemma NumeralIsCanonical(n: int)
    ensures |Numeral(n)| > 0
    ensures Numeral(n)[0] == 45 <==> n < 0
    ensures forall i | 0 < i < |Numeral(n)| :: 48 <= Numeral(n)[i] <= 57
    ensures n == 0 ==> Numeral(n) == [48]
    ensures n > 0 ==> 48 < Numeral(n)[0] <= 57
    ensures n < 0 ==> |Numeral(n)| > 1 && Numeral(n)[1] != 48
  {
    DigitsValue(if n < 0 then -n else n);
  }

  /** The digits are decimal ones. */
  lemma DigitsGrow(m: nat, d: nat)
    requires d < 10 && m + d > 0
    ensures Digits(10 * m + d) == Digits(m) + [48 + d]
  {
    assert (10 * m + d) / 10 == m && (10 * m + d) % 10 == d;
  }

  // The smallest `int`, which has no positive counterpart.
  const INT_MIN := -0x8000_0000

  /** itoa: the numeral, except that of INT_MIN only the sign and the terminator are written. */
  method Itoa(number: int) returns (s: array<byte>)
    requires INT_MIN <= number < 0x8000_0000
    ensures fresh(s)
    ensures number != INT_MIN ==> s[..] == Numeral(number) + [NUL]
    ensures number == INT_MIN ==> s.Length == 12 && s[0] == MINUS && s[11] == NUL
  {
    if number == 0 {
      s := new byte[2](i => if i == 0 then ZERO else NUL);
      return;
    }
    var negative := if number < 0 then 1 else 0;
    var n := if number < 0 then I32(number * -1) else number;
    if number != INT_MIN { I32InRange(number * -1); } else { MinimumDigits(); }
    s := WriteNumeral(n, negative);
  }

  /** The buffer for a sign and the digits of n; a negative n, which counts as unsigned, has room but is not written. */
  method WriteNumeral(n: int, negative: nat) returns (s: array<byte>)
    requires INT_MIN <= n < 0x8000_0000 && n != 0 && negative <= 1
    ensures fresh(s) && s.Length == |Digits(U32(n))| + 1 + negative && s[s.Length - 1] == NUL
    ensures s.Length >= 2 && (negative == 1 ==> s[0] == MINUS)
    ensures n > 0 ==> s[..] == (if negative == 1 then [MINUS] + Digits(n) else Digits(n)) + [NUL]
  {
    var length := CountDigits(U32(n));
    length := length + 1 + negative;
    s := new byte[length];
    if negative != 0 {
      s[0] := MINUS;
    }
    var index := length - 2;
    if n > 0 {
      WriteDigits(s, n, index);
    }
    s[length - 1] := NUL;
    if n > 0 { Assembled(s[..], Digits(n), negative); }
  }

  lemma MinimumDigits()
    ensures |Digits(U32(I32(-INT_MIN)))| == 10
  {
    assert U32(I32(-INT_MIN)) == 0x8000_0000;
    assert |Digits(2147483)| == 7;
    assert |Digits(2147483648)| == 10;
  }

  lemma Assembled(s: seq<byte>, digits: seq<byte>, negative: nat)
    requires negative <= 1 && |s| == negative + |digits| + 1 && (negative == 1 ==> s[0] == MINUS)
    requires s[negative..|s| - 1] == digits && s[|s| - 1] == NUL
    ensures s == (if negative == 1 then [MINUS] + digits else digits) + [NUL]
  {
    assert s == s[..negative] + s[negative..|s| - 1] + [s[|s| - 1]];
  }

  /** The first loop of itoa. */
  method CountDigits(n: nat) returns (length: nat)
    ensures length == |Digits(n)|
  {
    length := 0;
    var copy := n;
    while copy > 0
      invariant length + |Digits(copy)| == |Digits(n)|
    {
      copy := copy / 10;
      length := length + 1;
    }
  }

  /** The last loop of itoa: the digits of n, right to left, ending at `last`. */
  method WriteDigits(s: array<byte>, n: nat, last: nat)
    requires last + 1 >= |Digits(n)| && last < s.Length
    modifies s
    ensures s[last + 1 - |Digits(n)|..last + 1] == Digits(n)
    ensures forall k | 0 <= k < s.Length && !(last + 1 - |Digits(n)| <= k <= last) :: s[k] == old(s[k])
  {
    ghost var ds := Digits(n);
    ghost var first := last + 1 - |ds|;
    var m, index := n, last;
    while m > 0
      invariant StartsWith(ds, Digits(m)) && index + 1 == first + |Digits(m)|
      invariant forall k | 0 <= k < s.Length :: s[k] == if index < k <= last then ds[k - first] else old(s[k])
      decreases m
    {
      DropDigit(ds, m);
      s[index] := ZERO + m % 10;
      index := index - 1;
      m := m / 10;
    }
  }

  predicate StartsWith(s: seq<byte>, t: seq<byte>) { |t| <= |s| && s[..|t|] == t }

  /** The last of the digits of m, in front of which there are those of m / 10. */
  lemma DropDigit(ds: seq<byte>, m: nat)
    requires m > 0 && StartsWith(ds, Digits(m))
    ensures |Digits(m)| == |Digits(m / 10)| + 1 && ds[|Digits(m)| - 1] == ZERO + m % 10 && StartsWith(ds, Digits(m / 10))
  {
    var rest := Digits(m / 10);
    assert Digits(m) == rest + [ZERO + m % 10];
    assert ds[|rest|] == ds[..|rest| + 1][|rest|];
    assert ds[..|rest|] == ds[..|rest| + 1][..|rest|];
  }

  /** atoi on the text of a string: None is the panic at a character that is no digit. */
  function AtoiText(s: seq<byte>, negative: bool, value: int): Option<int> {
    if s == [] then Some(if negative then I32(value * -1) else value)
    else if s[0] == MINUS then AtoiText(s[1..], true, value)
    else if !IsDigit(s[0]) then None
    else AtoiText(s[1..], negative, I32(I32(value * 10) + (s[0] - ZERO)))
  }

  /** atoi */
  method Atoi(number: array<byte>) returns (r: Option<int>)
    requires IsString(number[..])
    ensures r == AtoiText(CStr(number[..]), false, 0)
    ensures r.None? <==> exists i :: 0 <= i < |CStr(number[..])| && !(48 <= number[i] <= 57) && number[i] != 45
  {
    ghost var text := CStr(number[..]);
    AtoiPanicsIff(text, false, 0);
    assert forall i | 0 <= i < |text| :: text[i] == number[i];
    var length := StrLen(number);
    if length == 0 {
      return Some(0);
    }
    var negative, value := false, 0;
    for i := 0 to length
      invariant AtoiText(text, false, 0) == AtoiText(text[i..], negative, value)
    {
      assert text[i..][0] == number[i] && text[i..][1..] == text[i + 1..];
      if number[i] == MINUS {
        negative := true;
        continue;
      }
      value := I32(value * 10);
      if !IsDigit(number[i]) {
        return None;
      }
      value := I32(value + (number[i] - ZERO));
    }
    return Some(if negative then I32(value * -1) else value);
  }

  /** atoi panics exactly on a text with a character that is neither a digit nor a minus sign. */
  lemma {:induction false} AtoiPanicsIff(s: seq<byte>, negative: bool, value: int)
    ensures AtoiText(s, negative, value).None? <==> exists i :: 0 <= i < |s| && !(48 <= s[i] <= 57) && s[i] != 45
  {
    if s != [] {
      AtoiPanicsIff(s[1..], negative || s[0] == MINUS, if s[0] == MINUS then value else I32(I32(value * 10) + (s[0] - ZERO)));
      assert forall i | 0 < i < |s| :: s[i] == s[1..][i - 1];
      assert forall i | 0 <= i < |s| - 1 :: s[1..][i] == s[i + 1];
    }
  }

  /** The text without its minus signs, wherever they stand. */
  function WithoutMinus(s: seq<byte>): (r: seq<byte>)
    ensures forall i | 0 <= i < |r| :: r[i] != 45 && r[i] in s
  {
    if s == [] then [] else if s[0] == 45 then WithoutMinus(s[1..]) else [s[0]] + WithoutMinus(s[1..])
  }

  /** r is an `int`, and n but for whole turns of 2^32. */
  predicate IsIntOf(r: int, n: int) { -0x8000_0000 <= r < 0x8000_0000 && (r - n) % 0x1_0000_0000 == 0 }

  /**
   What atoi makes of any text it accepts: a minus sign counts wherever it stands, and the value is
   that of the digits, brought into the range of `int` by whole turns of 2^32.
   */
  lemma AtoiMeans(s: seq<byte>)
    requires forall i | 0 <= i < |s| :: 48 <= s[i] <= 57 || s[i] == 45
    ensures AtoiText(s, false, 0).Some?
    ensures var r, n := AtoiText(s, false, 0).value, Value(WithoutMinus(s), 0);
            IsIntOf(r, if 45 in s then -n else n)
  {
    AtoiSums(s, false, 0, 0);
  }

  lemma {:induction false} AtoiSums(s: seq<byte>, negative: bool, value: int, exact: int)
    requires forall i | 0 <= i < |s| :: 48 <= s[i] <= 57 || s[i] == 45
    requires -0x8000_0000 <= value < 0x8000_0000 && (exact - value) % 0x1_0000_0000 == 0
    ensures AtoiText(s, negative, value).Some?
    ensures var r, n := AtoiText(s, negative, value).value, Value(WithoutMinus(s), exact);
            IsIntOf(r, if negative || 45 in s then -n else n)
  {
    if s == [] {
      I32IsWrapped(value * -1);
      SumsTo(exact, value, I32(value * -1));
    } else if s[0] == 45 {
      AtoiSums(s[1..], true, value, exact);
    } else {
      var value' := NextSum(exact, value, s[0] - 48);
      DigitStep(s, negative, value, value', exact);
      AtoiSums(s[1..], negative, value', exact * 10 + (s[0] - 48));
    }
  }

  lemma DigitStep(s: seq<byte>, negative: bool, value: int, value': int, exact: int)
    requires s != [] && 48 <= s[0] <= 57 && value' == I32(I32(value * 10) + (s[0] - 48))
    ensures AtoiText(s, negative, value) == AtoiText(s[1..], negative, value')
    ensures Value(WithoutMinus(s), exact) == Value(WithoutMinus(s[1..]), exact * 10 + (s[0] - 48))
    ensures 45 in s <==> 45 in s[1..]
  {
    assert WithoutMinus(s)[1..] == WithoutMinus(s[1..]);
    assert s == [s[0]] + s[1..];
  }

  lemma SumsTo(exact: int, value: int, r: int)
    requires (exact - value) % 0x1_0000_0000 == 0 && (value * -1 - r) % 0x1_0000_0000 == 0
    ensures (r - -exact) % 0x1_0000_0000 == 0
  {
  }

  lemma NextSum(exact: int, value: int, c: int) returns (value': int)
    requires (exact - value) % 0x1_0000_0000 == 0
    ensures value' == I32(I32(value * 10) + c) && -0x8000_0000 <= value' < 0x8000_0000
    ensures (exact * 10 + c - value') % 0x1_0000_0000 == 0
  {
    value' := I32(I32(value * 10) + c);
    I32IsWrapped(value * 10);
    I32IsWrapped(I32(value * 10) + c);
    DigitSums(exact, value, I32(value * 10), value', c);
  }

  lemma DigitSums(exact: int, value: int, ten: int, value': int, c: int)
    requires (exact - value) % 0x1_0000_0000 == 0 && (value * 10 - ten) % 0x1_0000_0000 == 0
    requires (ten + c - value') % 0x1_0000_0000 == 0
    ensures (exact * 10 + c - value') % 0x1_0000_0000 == 0
  {
  }

  lemma {:induction false} AtoiOfDigits(s: seq<byte>, negative: bool, value: nat)
    requires forall i | 0 <= i < |s| :: IsDigit(s[i])
    requires Value(s, value) < 0x8000_0000
    ensures AtoiText(s, negative, value) == Some(if negative then -Value(s, value) else Value(s, value))
  {
    if s != [] {
      var value' := value * 10 + (s[0] - ZERO);
      ValueAtLeast(s[1..], value');
      I32InRange(value * 10);
      I32InRange(value');
      AtoiOfDigits(s[1..], negative, value');
    } else {
      I32InRange(0 - value);
    }
  }

  lemma I32InRange(x: int)
    requires INT_MIN <= x < 0x8000_0000
    ensures I32(x) == x
  {
    if x < 0 { assert U32(x) == U32(x + 0x1_0000_0000) == x + 0x1_0000_0000; }
  }

  /** atoi undoes itoa. */
  lemma AtoiOfItoa(n: int)
    requires INT_MIN < n < 0x8000_0000
    ensures CStr(Numeral(n) + [NUL]) == Numeral(n)
    ensures AtoiText(Numeral(n), false, 0) == Some(n)
  {
    NumeralIsCanonical(n);
    var s := Numeral(n) + [NUL];
    CLenIs(s, |Numeral(n)|);
    assert s[..|Numeral(n)|] == Numeral(n);
    if n < 0 {
      DigitsValue(-n);
      assert Numeral(n)[1..] == Digits(-n);
      AtoiOfDigits(Digits(-n), true, 0);
    } else {
      DigitsValue(n);
      AtoiOfDigits(Numeral(n), false, 0);
    }
  }

  /** Reading further digits never makes the value smaller. */
  lemma {:induction false} ValueAtLeast(s: seq<byte>, start: nat)
    requires forall i | 0 <= i < |s| :: IsDigit(s[i])
    ensures Value(s, start) >= start
  {
    if s != [] { ValueAtLeast(s[1..], start * 10 + (s[0] - ZERO)); }
  }

  // ---- case ----

  /** str_to_lower: its test for "not upper case" is never true, so everything else is shifted too. */
  function ToLower(c: byte): byte {
    if 97 <= c <= 122 then c
    else if (Signed(c) < 65 && Signed(c) > 90) then c
    else (c + 32) % 0x100
  }

  /** The two characters are the same letter of the alphabet in different case, or equal. */
  predicate SameLetter(a: byte, b: byte) {
    a == b || (65 <= a <= 90 && b == a + 32) || (65 <= b <= 90 && a == b + 32)
  }

  /** All the same, str_to_lower identifies exactly the ASCII case pairs; among letters it gives the small one. */
  lemma ToLowerIdentifiesCase(a: byte, b: byte)
    ensures ToLower(a) == ToLower(b) <==> SameLetter(a, b)
    ensures SameLetter(a, b) <==> a == b || (65 <= a <= 90 && b - a == 32) || (65 <= b <= 90 && a - b == 32)
    ensures 65 <= a <= 90 ==> ToLower(a) - a == 32
    ensures 97 <= a <= 122 ==> ToLower(a) == a
  {
  }

  ghost predicate SameUpToCase(s: seq<byte>, t: seq<byte>) {
    |s| == |t| && forall i | 0 <= i < |s| :: SameLetter(s[i], t[i])
  }

  /** A longer string comes behind a shorter one; the first two characters that differ but for case decide the rest. */
  function Order(s: seq<byte>, t: seq<byte>, i: nat): int
    decreases |s| - i
  {
    if |s| != |t| then (if |s| > |t| then 1 else -1)
    else if i >= |s| then 0
    else if SameLetter(s[i], t[i]) then Order(s, t, i + 1)
    else if Signed(ToLower(s[i])) > Signed(ToLower(t[i])) then 1 else -1
  }

  /** str_icmp */
  method StrIcmp(s: array<byte>, t: array<byte>) returns (r: int)
    requires IsString(s[..]) && IsString(t[..])
    ensures r == 0 <==> SameUpToCase(CStr(s[..]), CStr(t[..]))
    ensures r == Order(CStr(s[..]), CStr(t[..]), 0)
  {
    var m := StrLen(s);
    var n := StrLen(t);
    if m > n {
      return 1;
    } else if m < n {
      return -1;
    }
    for i := 0 to m
      invariant forall k | 0 <= k < i :: SameLetter(s[k], t[k])
      invariant Order(CStr(s[..]), CStr(t[..]), 0) == Order(CStr(s[..]), CStr(t[..]), i)
    {
      ToLowerIdentifiesCase(s[i], t[i]);
      var a, b := ToLower(s[i]), ToLower(t[i]);
      if Signed(a) > Signed(b) {
        assert !SameLetter(CStr(s[..])[i], CStr(t[..])[i]);
        return 1;
      } else if Signed(a) < Signed(b) {
        assert !SameLetter(CStr(s[..])[i], CStr(t[..])[i]);
        return -1;
      }
    }
    return 0;
  }
}
