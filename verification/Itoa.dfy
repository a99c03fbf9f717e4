/** Numbers as text: kernel/src/libc/string/itoa.c. */
module Itoa {
  import opened Words

  predicate IsBase(base: int) {
    2 <= base <= 16
  }

  /** The digit for a value: '0' to '9', then 'a' to 'f'. */
  function Digit(d: nat): (c: char)
    requires d < 16
    ensures IsDigit(c) && ValueOf(c) == d
  {
    if d < 10 then '0' + d as char else 'a' + (d - 10) as char
  }

  predicate IsDigit(c: char) {
    '0' <= c <= '9' || 'a' <= c <= 'f'
  }

  function ValueOf(c: char): nat
    requires IsDigit(c)
  {
    if c <= '9' then c as nat - '0' as nat else c as nat - 'a' as nat + 10
  }

  /** The digits of a value, the most significant first; none for zero. */
  function Digits(value: nat, base: nat): (s: string)
    requires IsBase(base)
    ensures value != 0 ==> s != []
  {
    if value == 0 then [] else
    QuotientShrinks(value, base);
    Digits(value / base, base) + [Digit(value % base)]
  }

  lemma QuotientShrinks(value: nat, base: nat)
    requires 1 <= value && 2 <= base
    ensures value / base < value && value == base * (value / base) + value % base
  {
    assert value == base * (value / base) + value % base;
    Bigger(base, value / base);
  }

  lemma Bigger(base: nat, q: nat)
    requires 2 <= base
    ensures q == 0 || q < base * q
  {
    if q != 0 {
      assert base * q == q + (base - 1) * q && (base - 1) * q >= 1 * q;
    }
  }

  /** What `itoa` writes before the NUL. */
  function Numeral(value: nat, base: nat): string
    requires IsBase(base)
  {
    if value == 0 then "0" else Digits(value, base)
  }

  // ---------------------------------------------------------------- the inverse

  predicate AreDigits(s: string, base: nat) {
    forall i :: 0 <= i < |s| ==> IsDigit(s[i]) && ValueOf(s[i]) < base
  }

  /** Reading digits from left to right. */
  function Parse(s: string, base: nat): nat
    requires AreDigits(s, base)
  {
    if s == [] then 0 else base * Parse(s[..|s| - 1], base) + ValueOf(s[|s| - 1])
  }

  function Power(base: nat, k: nat): nat {
    if k == 0 then 1 else Power(base, k - 1) * base
  }

  /** No leading zero, except in "0" itself. */
  predicate IsCanonical(s: string, base: nat) {
    s != [] && AreDigits(s, base) && (|s| != 1 ==> s[0] != '0')
  }

  lemma {:induction false} DigitsRead(value: nat, base: nat)
    requires IsBase(base)
    ensures AreDigits(Digits(value, base), base) && Parse(Digits(value, base), base) == value
    ensures value != 0 ==> Digits(value, base)[0] != '0'
  {
    if value != 0 {
      QuotientShrinks(value, base);
      DigitsRead(value / base, base);
      LastDigitRead(Digits(value / base, base), value / base, value % base, base);
    }
  }

  lemma LastDigitRead(front: string, q: nat, r: nat, base: nat)
    requires IsBase(base) && r < base && AreDigits(front, base) && Parse(front, base) == q
    requires if front == [] then r != 0 else front[0] != '0'
    ensures var s := front + [Digit(r)]; AreDigits(s, base) && Parse(s, base) == base * q + r && s[0] != '0'
  {
    ParseAppend(front, Digit(r), base);
  }

  lemma ParseAppend(front: string, c: char, base: nat)
    requires AreDigits(front, base) && IsDigit(c) && ValueOf(c) < base
    ensures AreDigits(front + [c], base) && Parse(front + [c], base) == base * Parse(front, base) + ValueOf(c)
  {
    assert (front + [c])[..|front|] == front;
  }

  /** Reading back what `itoa` writes gives the value, for every value; and there is no leading zero. */
  lemma NumeralReadsBack(value: nat, base: nat)
    requires IsBase(base)
    ensures IsCanonical(Numeral(value, base), base) && Parse(Numeral(value, base), base) == value
  {
    DigitsRead(value, base);
    if value == 0 {
      assert Parse("0"[..0], base) == 0;
    }
  }

  lemma {:induction false} ReadDigits(s: string, base: nat)
    requires IsBase(base) && AreDigits(s, base) && (s != [] ==> s[0] != '0')
    ensures Digits(Parse(s, base), base) == s
    ensures s != [] ==> Parse(s, base) != 0
  {
    if s != [] {
      var front, last := s[..|s| - 1], s[|s| - 1];
      ReadDigits(front, base);
      var q := Parse(front, base);
      QuotientRemainder(q, ValueOf(last), base);
      if front == [] {
        assert s == [last] && ValueOf(last) != 0;
      }
      assert Digit(ValueOf(last)) == last;
      assert s == front + [last];
    }
  }

  /** Every numeral without a leading zero is what `itoa` writes for the value it reads as: `itoa` is a bijection
  between values and canonical numerals. */
  lemma ReadIsWritten(s: string, base: nat)
    requires IsBase(base) && IsCanonical(s, base)
    ensures Numeral(Parse(s, base), base) == s
  {
    if s[0] == '0' {
      assert s == "0" && Parse("0"[..0], base) == 0;
    } else {
      ReadDigits(s, base);
    }
  }

  // ---------------------------------------------------------------- the length

  /** `k` digits hold exactly the values below `base` to the `k`. */
  lemma {:induction false} LengthIff(value: nat, base: nat, k: nat)
    requires IsBase(base)
    ensures |Digits(value, base)| <= k <==> value < Power(base, k)
  {
    if k == 0 {
    } else if value == 0 {
      PowerPositive(base, k);
    } else {
      QuotientShrinks(value, base);
      LengthIff(value / base, base, k - 1);
      QuotientBelow(value, base, Power(base, k - 1));
    }
  }

  lemma {:induction false} PowerPositive(base: nat, k: nat)
    requires 1 <= base
    ensures 1 <= Power(base, k)
  {
    if k != 0 {
      PowerPositive(base, k - 1);
      assert Power(base, k - 1) * base >= 1 * base;
    }
  }

  lemma QuotientBelow(value: nat, base: nat, p: nat)
    requires 1 <= base
    ensures value / base < p <==> value < p * base
  {
    var d := value / base - p;
    assert value == base * (value / base) + value % base;
    assert base * d == base * (value / base) - base * p;
    Multiple(base, d);
  }

  /** The least number of digits. */
  lemma NumeralLength(value: nat, base: nat)
    requires IsBase(base)
    ensures var k := |Numeral(value, base)|; value < Power(base, k) && (1 < k ==> Power(base, k - 1) <= value)
  {
    var k := |Digits(value, base)|;
    LengthIff(value, base, k);
    if value == 0 {
      assert Power(base, 1) == Power(base, 0) * base;
    } else {
      LengthIff(value, base, k - 1);
    }
  }

  lemma {:induction false} PowerSplit(base: nat, a: nat, b: nat)
    ensures Power(base, a + b) == Power(base, a) * Power(base, b)
  {
    if b != 0 {
      PowerSplit(base, a, b - 1);
      Associates(Power(base, a), Power(base, b - 1), base);
    }
  }

  lemma Associates(x: nat, y: nat, z: nat)
    ensures (x * y) * z == x * (y * z)
  {
  }

  lemma Power4(base: nat)
    ensures Power(base, 4) == base * base * base * base
  {
    assert Power(base, 1) == Power(base, 0) * base;
    assert Power(base, 2) == Power(base, 1) * base;
    assert Power(base, 3) == Power(base, 2) * base;
    assert Power(base, 4) == Power(base, 3) * base;
  }

  lemma Powers()
    ensures Power(2, 64) == 0x1_0000_0000_0000_0000 && Power(16, 16) == 0x1_0000_0000_0000_0000
    ensures Power(10, 20) == 100_000_000_000_000_000_000
  {
    Power4(2);
    PowerSplit(2, 4, 4);
    PowerSplit(2, 8, 8);
    PowerSplit(2, 16, 16);
    PowerSplit(2, 32, 32);
    Power4(16);
    PowerSplit(16, 4, 4);
    PowerSplit(16, 8, 8);
    Power4(10);
    PowerSplit(10, 4, 4);
    PowerSplit(10, 8, 8);
    PowerSplit(10, 16, 4);
  }

  /** The buffers of the callers hold every 64-bit value with its NUL, in the bases they ask for: 21 bytes for decimal,
  17 for hexadecimal, 65 for binary. No smaller buffer does. */
  lemma BuffersSuffice(value: u64)
    ensures |Numeral(value, 10)| + 1 <= 21 && |Numeral(value, 16)| + 1 <= 17 && |Numeral(value, 2)| + 1 <= 65
    ensures value == 0xFFFF_FFFF_FFFF_FFFF ==>
      |Numeral(value, 10)| + 1 == 21 && |Numeral(value, 16)| + 1 == 17 && |Numeral(value, 2)| + 1 == 65
  {
    Powers();
    LengthIff(value, 10, 20);
    LengthIff(value, 16, 16);
    LengthIff(value, 2, 64);
    if value == 0xFFFF_FFFF_FFFF_FFFF {
      LengthIff(value, 10, 19);
      LengthIff(value, 16, 15);
      LengthIff(value, 2, 63);
      assert Power(10, 20) == Power(10, 19) * 10;
      assert Power(16, 16) == Power(16, 15) * 16;
      assert Power(2, 64) == Power(2, 63) * 2;
    }
  }

  /** Base two takes the most digits. */
  lemma {:induction false} LongestInBaseTwo(value: nat, base: nat)
    requires IsBase(base)
    ensures |Digits(value, base)| <= |Digits(value, 2)|
    decreases value
  {
    if value != 0 {
      QuotientShrinks(value, base);
      QuotientShrinks(value, 2);
      LongestInBaseTwo(value / base, base);
      SmallerQuotient(value, base);
      MoreDigits(value / base, value / 2);
    }
  }

  lemma SmallerQuotient(value: nat, base: nat)
    requires 2 <= base
    ensures value / base <= value / 2
  {
    var q := value / base;
    assert value == base * q + value % base && base * q >= 2 * q;
  }

  lemma MoreDigits(a: nat, b: nat)
    requires a <= b
    ensures |Digits(a, 2)| <= |Digits(b, 2)|
  {
    LengthIff(b, 2, |Digits(b, 2)|);
    LengthIff(a, 2, |Digits(b, 2)|);
  }

  /** In no base does a 64-bit value need more than the 65 bytes of `putnumber`'s buffer. */
  lemma AnyBaseFits(value: u64, base: nat)
    requires IsBase(base)
    ensures |Numeral(value, base)| + 1 <= 65
  {
    LongestInBaseTwo(value, base);
    BuffersSuffice(value);
  }

  // ---------------------------------------------------------------- the function

  function Reverse(s: string): (r: string)
    ensures |r| == |s| && forall i :: 0 <= i < |s| ==> r[i] == s[|s| - 1 - i]
  {
    seq(|s|, i requires 0 <= i < |s| => s[|s| - 1 - i])
  }

  /** What comes before the reversal: the least significant digit first. */
  method WriteDigits(value: u64, str: array<char>, base: int) returns (end: nat)
    requires IsBase(base) && |Numeral(value, base)| < str.Length
    modifies str
    ensures 1 <= end < str.Length && str[..end] == Reverse(Numeral(value, base))
    ensures forall k :: end <= k < str.Length ==> str[k] == old(str[k])
  {
    if value == 0 {
      str[0] := '0';
      assert str[..1] == ['0'] == Reverse("0");
      return 1;
    }
    end := DigitLoop(value, str, base);
  }

  /** The digit loop. */
  method DigitLoop(value: u64, str: array<char>, base: int) returns (end: nat)
    requires IsBase(base) && value != 0 && |Digits(value, base)| < str.Length
    modifies str
    ensures 1 <= end < str.Length && str[..end] == Reverse(Digits(value, base))
    ensures forall k :: end <= k < str.Length ==> str[k] == old(str[k])
  {
    end := 0;
    var left: nat := value;
    ghost var all := Reverse(Digits(value, base));
    while left > 0
      invariant end <= |all| && (left == 0 ==> 1 <= end) && str[..end] + Reverse(Digits(left, base)) == all
      invariant forall k :: end <= k < str.Length ==> str[k] == old(str[k])
    {
      var c, rest := TakeDigit(left, base);
      PutDigit(str, end, c, Digits(rest, base), all);
      end := end + 1;
      left := rest;
    }
  }

  /** The digit of a step, and `value /= base`. */
  method TakeDigit(value: nat, base: int) returns (c: char, rest: nat)
    requires IsBase(base) && value > 0
    ensures rest < value && Digits(value, base) == Digits(rest, base) + [c]
  {
    var digit := value % base;
    rest := value / base;
    UnfoldDigits(value, base, rest, digit);
    c := Digit(digit);
  }

  lemma UnfoldDigits(value: nat, base: nat, q: nat, r: nat)
    requires IsBase(base) && value > 0 && q == value / base && r == value % base
    ensures q < value && r < 16 && Digits(value, base) == Digits(q, base) + [Digit(r)]
  {
    QuotientShrinks(value, base);
  }

  /** `*end++ = ...`: the next digit of the reversed numeral `all`. */
  method PutDigit(str: array<char>, end: nat, c: char, ghost front: string, ghost all: string)
    requires end <= |all| < str.Length && str[..end] + Reverse(front + [c]) == all
    modifies str
    ensures end < |all| && str[..end + 1] + Reverse(front) == all
    ensures forall k :: end < k < str.Length ==> str[k] == old(str[k])
  {
    NextDigit(str[..end], front, c, all);
    str[end] := c;
    assert str[..end + 1] == old(str[..end]) + [c];
  }

  lemma NextDigit(written: string, front: string, c: char, all: string)
    requires written + Reverse(front + [c]) == all
    ensures |written| < |all| && written + [c] + Reverse(front) == all
  {
    Prepended(front, c);
  }

  lemma Prepended(s: string, c: char)
    ensures Reverse(s + [c]) == [c] + Reverse(s)
  {
  }

  /** The two-pointer loop, in place over the first `n` characters. */
  method ReverseInPlace(str: array<char>, n: nat)
    requires 1 <= n <= str.Length
    modifies str
    ensures str[..n] == Reverse(old(str[..n])) && str[n..] == old(str[n..])
  {
    var ptr: nat, end: nat := 0, n - 1;
    while ptr < end
      invariant ptr + end == n - 1 && ptr <= end + 1
      invariant forall k :: 0 <= k < n ==> str[k] == if ptr <= k <= end then old(str[k]) else old(str[n - 1 - k])
      invariant str[n..] == old(str[n..])
    {
      str[ptr], str[end] := str[end], str[ptr];
      ptr := ptr + 1;
      end := end - 1;
    }
  }

  /** `itoa`: the numeral and a NUL; for a base it does not know, only the NUL. */
  method Write(value: u64, str: array<char>, base: int)
    requires 1 <= str.Length && (IsBase(base) ==> |Numeral(value, base)| < str.Length)
    modifies str
    ensures !IsBase(base) ==> str[..] == ['\0'] + old(str[1..])
    ensures IsBase(base) ==> var s := Numeral(value, base); str[..] == s + ['\0'] + old(str[|s| + 1..])
  {
    if base < 2 || base > 16 {
      str[0] := '\0';
      return;
    }
    var end := WriteDigits(value, str, base);
    Finish(str, end, Numeral(value, base));
  }

  /** The NUL and the reversal. */
  method Finish(str: array<char>, end: nat, ghost s: string)
    requires 1 <= end < str.Length && str[..end] == Reverse(s)
    modifies str
    ensures str[..] == s + ['\0'] + old(str[end + 1..])
  {
    str[end] := '\0';
    assert str[end..] == ['\0'] + old(str[end + 1..]);
    ReverseInPlace(str, end);
    ReverseTwice(s);
    assert str[..] == str[..end] + str[end..];
  }

  lemma ReverseTwice(s: string)
    ensures Reverse(Reverse(s)) == s
  {
  }
}
