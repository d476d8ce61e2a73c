/**
  lib/print.c: turning a number into a numeral, by a division loop and an
  in-place reversal.
 */
module Digits {
  import opened Words

  const DEFAULT_STRING_SIZE: int := 33

  const CHAR_SET: string := "0123456789ABCDEF"

  /** The digits of a number, least significant first; none for 0. */
  function Low(num: nat, base: nat): (ds: seq<nat>)
    requires 2 <= base
    ensures forall i :: 0 <= i < |ds| ==> ds[i] < base
    decreases num
  {
    if num == 0 then [] else
      QuotientShrinks(num, base);
      [num % base] + Low(num / base, base)
  }

  lemma QuotientShrinks(num: nat, base: nat)
    requires num > 0 && base >= 2
    ensures num / base < num
  {
    var q := num / base;
    assert num == base * q + num % base;
    assert base * q >= 2 * q;
  }

  /** The number a list of digits, least significant first, stands for. */
  function Value(ds: seq<nat>, base: nat): nat {
    if ds == [] then 0 else ds[0] + base * Value(ds[1..], base)
  }

  function Chars(ds: seq<nat>): string
    requires forall i :: 0 <= i < |ds| ==> ds[i] < 16
  {
    seq(|ds|, i requires 0 <= i < |ds| && ds[i] < 16 => CHAR_SET[ds[i]])
  }

  function Reversed(s: string): string {
    seq(|s|, i requires 0 <= i < |s| => s[|s| - 1 - i])
  }

  /** The usual numeral: most significant digit first, and "0" for 0. */
  function Numeral(num: nat, base: nat): string
    requires 2 <= base <= 16
  {
    if num == 0 then "0" else Reversed(Chars(Low(num, base)))
  }

  function DigitOf(c: char): nat {
    if '0' <= c <= '9' then (c - '0') as nat else if 'A' <= c <= 'F' then (c - 'A') as nat + 10 else 0
  }

  /** Reading a numeral, most significant digit first. */
  function Decode(s: string, base: nat): nat {
    if s == [] then 0 else base * Decode(s[..|s| - 1], base) + DigitOf(s[|s| - 1])
  }

  lemma LowUnfold(num: nat, base: nat)
    requires 2 <= base
    ensures num > 0 ==> Low(num, base) == [num % base] + Low(num / base, base)
    ensures Low(num, base) == [] <==> num == 0
  {
  }

  lemma {:induction false} LowValue(num: nat, base: nat)
    requires 2 <= base
    ensures Value(Low(num, base), base) == num
    decreases num
  {
    hide Low;
    LowUnfold(num, base);
    if num > 0 {
      QuotientShrinks(num, base);
      LowValue(num / base, base);
      var rest := Low(num / base, base);
      assert ([num % base] + rest)[1..] == rest;
      DivisionSplits(num, base);
    }
  }

  lemma DivisionSplits(num: nat, base: nat)
    requires base > 0
    ensures num == base * (num / base) + num % base
  {
  }

  lemma {:induction false} DecodeReversed(ds: seq<nat>, base: nat)
    requires forall i :: 0 <= i < |ds| ==> ds[i] < 16
    ensures Decode(Reversed(Chars(ds)), base) == Value(ds, base)
    decreases |ds|
  {
    if ds != [] {
      var s := Reversed(Chars(ds));
      DecodeReversed(ds[1..], base);
      assert s[..|s| - 1] == Reversed(Chars(ds[1..]));
      assert s[|s| - 1] == CHAR_SET[ds[0]];
      assert DigitOf(CHAR_SET[ds[0]]) == ds[0];
    }
  }

  lemma {:induction false} TopDigit(num: nat, base: nat)
    requires 2 <= base && num > 0
    ensures Low(num, base) != [] && Low(num, base)[|Low(num, base)| - 1] != 0
    decreases num
  {
    QuotientShrinks(num, base);
    if num / base > 0 {
      TopDigit(num / base, base);
    } else {
      assert num == base * (num / base) + num % base;
    }
  }

  /** The numeral reads back as the number, and has no leading zero unless it is "0". */
  lemma NumeralDecodes(num: nat, base: nat)
    requires 2 <= base <= 16
    ensures Decode(Numeral(num, base), base) == num
    ensures num > 0 ==> Numeral(num, base) != [] && Numeral(num, base)[0] != '0'
  {
    hide Low, Chars, Reversed, Value;
    if num > 0 {
      LowValue(num, base);
      LowUnfold(num, base);
      NoNul(Low(num, base));
      ReversedAt(Chars(Low(num, base)));
      CharAt(Low(num, base), |Low(num, base)| - 1);
      DecodeReversed(Low(num, base), base);
      TopDigit(num, base);
    } else {
      assert "0"[..0] == "";
      assert Decode("0"[..0], base) == 0;
    }
  }

  function Bound(base: nat, k: nat): nat {
    if k == 0 then 1 else base * Bound(base, k - 1)
  }

  /** A number has at most k digits when it is below base^k, the bound loses one factor with each digit. */
  lemma {:induction false} FewDigits(num: nat, base: nat, k: nat)
    requires 2 <= base && num < Bound(base, k)
    ensures |Low(num, base)| <= k
    decreases k
  {
    hide Low;
    LowUnfold(num, base);
    if num > 0 {
      QuotientBelow(num, base, Bound(base, k - 1));
      FewDigits(num / base, base, k - 1);
    }
  }

  lemma QuotientBelow(num: nat, base: nat, bound: nat)
    requires base > 0 && num < base * bound
    ensures num / base < bound
  {
    var q := num / base;
    DivisionSplits(num, base);
    if q >= bound {
      MulMonotone(base, bound, q);
    }
  }

  lemma MulMonotone(a: nat, b: nat, c: nat)
    requires b <= c
    ensures a * b <= a * c
  {
  }

  /** The loop runs out of room: it has written size - 1 digits. A size of 1 never stops it, because the test comes
      after the first digit. */
  predicate Full(digits: nat, size: nat) {
    size >= 2 && digits >= size - 1
  }

  /** The buffer holds every store the code makes: up to `size` of them, or all digits and the NUL for a size of 1. */
  predicate Holds(str: array<char>, num: nat, size: nat, base: nat)
    requires 2 <= base
  {
    size <= str.Length && 1 <= str.Length && (size == 1 ==> |Low(num, base)| < str.Length && 2 <= str.Length)
  }

  /** `__ulong_to_string`: a number with fewer than size - 1 digits comes out as its numeral. With size - 1 digits or
      more the loop leaves before the reversal, and the lowest size - 1 digits stand there in reverse order. A size of
      0 gives the empty string, and a size of 1 bounds nothing. */
  method UlongToString(num: nat, str: array<char>, size: nat, base: nat)
    requires 2 <= base <= 16 && Holds(str, num, size, base)
    modifies str
    ensures Terminated(str[..], 0)
    ensures size == 0 ==> CStr(str[..], 0) == ""
    ensures size > 0 && (num == 0 || !Full(|Low(num, base)|, size)) ==> CStr(str[..], 0) == Numeral(num, base)
    ensures num > 0 && Full(|Low(num, base)|, size) ==> CStr(str[..], 0) == Chars(Low(num, base))[..size - 1]
  {
    hide CStr, Terminated, Chars, Reversed, Low;
    LowUnfold(num, base);
    if size == 0 {
      str[0] := '\0';
      CStrIs(str[..], 0, 0);
      return;
    }
    if num == 0 {
      str[0] := '0';
      str[1] := '\0';
      CStrIs(str[..], 0, 1);
      return;
    }
    ghost var ds := Low(num, base);
    NoNul(ds);
    var index := WriteDigits(num, str, size, base);
    if index != size - 1 {
      assert Chars(ds)[..index] == Chars(ds);
      Reverse(str, index);
      ReversedAt(Chars(ds));
    }
    ghost var text := str[..index];
    str[index] := '\0';
    assert forall k :: 0 <= k < index ==> str[k] == text[k];
    CStrIs(str[..], 0, index);
    assert str[..][0..index] == text;
  }

  /** The division loop: it stops when the number is used up or when size - 1 digits are written. */
  method WriteDigits(num: nat, str: array<char>, size: nat, base: nat) returns (index: nat)
    requires 2 <= base <= 16 && Holds(str, num, size, base) && size > 0 && num > 0
    modifies str
    ensures index == (if Full(|Low(num, base)|, size) then size - 1 else |Low(num, base)|)
    ensures 0 < index < str.Length && index <= |Low(num, base)|
    ensures |Chars(Low(num, base))| == |Low(num, base)| && str[..index] == Chars(Low(num, base))[..index]
  {
    hide Chars, Low;
    index := 0;
    var n: nat := num;
    ghost var ds := Low(num, base);
    NoNul(ds);
    LowUnfold(num, base);
    while n > 0
      invariant 0 <= index <= |ds| && ds[index..] == Low(n, base) && (size >= 2 ==> index < size - 1)
      invariant n == 0 ==> index > 0
      invariant str[..index] == Chars(ds)[..index]
      decreases |ds| - index
    {
      var val := n % base;
      LowUnfold(n, base);
      LowUnfold(n / base, base);
      assert ds[index] == val && ds[index + 1..] == Low(n / base, base);
      n := n / base;
      str[index] := CHAR_SET[val];
      index := index + 1;
      CharsStep(ds, index - 1);
      assert str[..index] == str[..index - 1] + [CHAR_SET[val]];
      if index == size - 1 {
        return;
      }
    }
    LowUnfold(0, base);
  }

  /** A two-digit number fits a buffer of three, and still comes out backwards: 12 as "21". */
  method ExactFitReversed() returns (str: array<char>)
    ensures str.Length == 3 && CStr(str[..], 0) == "21" && Numeral(12, 10) == "12"
  {
    hide CStr;
    str := new char[3](_ => '\0');
    assert Low(1, 10) == [1] && Low(12, 10) == [2, 1];
    assert Chars([2, 1]) == "21" && Chars([1]) == "1";
    assert Reversed("1") == "1" && Reversed("21") == "12";
    UlongToString(12, str, 3, 10);
  }

  /** The swap loop. */
  method Reverse(str: array<char>, index: nat)
    requires index <= str.Length
    modifies str
    ensures str[..index] == Reversed(old(str[..index]))
  {
    var i, j := 0, index - 1;
    while i < j
      invariant 0 <= i && i + j == index - 1 && i <= j + 1
      invariant forall k :: 0 <= k < i ==> str[k] == old(str[index - 1 - k]) && str[index - 1 - k] == old(str[k])
      invariant forall k :: i <= k < index - i ==> str[k] == old(str[k])
    {
      str[i], str[j] := str[j], str[i];
      i, j := i + 1, j - 1;
    }
    ghost var was := old(str[..index]);
    forall k | 0 <= k < index ensures str[..index][k] == Reversed(was)[k] {
      if k >= i && k != index - 1 - k {
        assert str[index - 1 - (index - 1 - k)] == old(str[index - 1 - k]);
      }
    }
  }

  lemma CharAt(ds: seq<nat>, i: nat)
    requires (forall k :: 0 <= k < |ds| ==> ds[k] < 16) && i < |ds|
    ensures |Chars(ds)| == |ds| && Chars(ds)[i] == CHAR_SET[ds[i]] && (ds[i] != 0 ==> Chars(ds)[i] != '0')
  {
  }

  lemma CharsStep(ds: seq<nat>, i: nat)
    requires (forall k :: 0 <= k < |ds| ==> ds[k] < 16) && i < |ds|
    ensures |Chars(ds)| == |ds| && Chars(ds)[..i + 1] == Chars(ds)[..i] + [CHAR_SET[ds[i]]]
  {
  }

  lemma NoNul(ds: seq<nat>)
    requires forall i :: 0 <= i < |ds| ==> ds[i] < 16
    ensures |Chars(ds)| == |ds| && forall k :: 0 <= k < |ds| ==> Chars(ds)[k] != '\0'
  {
  }

  lemma ReversedAt(s: string)
    ensures |Reversed(s)| == |s| && forall k :: 0 <= k < |s| ==> Reversed(s)[k] == s[|s| - 1 - k]
  {
  }

  /** Every 32-bit number in base 10 or 16 fits the 33-byte buffer the kernel prints with. */
  lemma PrintBufferSuffices(num: nat, base: nat)
    requires num < 0x1_0000_0000 && (base == 10 || base == 16)
    ensures |Low(num, base)| < DEFAULT_STRING_SIZE - 1 && DEFAULT_STRING_SIZE == 33
  {
    assert Bound(10, 5) == 100000;
    assert Bound(10, 10) == 10000000000;
    assert Bound(16, 4) == 0x10000;
    assert Bound(16, 8) == 0x1_0000_0000;
    FewDigits(num, base, if base == 10 then 10 else 8);
  }
}
