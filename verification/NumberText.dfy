/** lib/vsprintf.c: printing a number with width, precision and flags, and reading one. */
module NumberText {
  import opened Basics

  datatype Flags = Flags(zeropad: bool, sign: bool, plus: bool, space: bool, left: bool, special: bool, small: bool)

  const UPPER := "0123456789ABCDEFGHIJKLMNOPQRSTUVWXYZ"
  const LOWER := "0123456789abcdefghijklmnopqrstuvwxyz"

  function DigitChars(small: bool): (r: string)
    ensures |r| == 36
  {
    if small then LOWER else UPPER
  }

  /** Ten figures, then capitals or small letters in the order of the alphabet. */
  lemma DigitCharsAre(small: bool, d: nat)
    requires d < 36
    ensures d < 10 ==> DigitChars(small)[d] as int == '0' as int + d
    ensures d >= 10 ==> DigitChars(small)[d] as int == (if small then 'a' else 'A') as int + d - 10
  {
  }

  // ---- what the printed text is

  /** Most significant digit first, at least one. */
  function Digits(n: nat, base: nat, small: bool): (r: string)
    requires 2 <= base <= 36
    ensures |r| > 0
  {
    if n < base then [DigitChars(small)[n]] else Digits(n / base, base, small) + [DigitChars(small)[n % base]]
  }

  function Rep(c: char, n: int): (r: string)
    ensures |r| == (if n > 0 then n else 0) && forall i :: 0 <= i < |r| ==> r[i] == c
  {
    seq(if n > 0 then n else 0, _ => c)
  }

  function Max(a: int, b: int): int { if a > b then a else b }

  /** `num` as an int is negative from 2^31 on. */
  predicate Negative(num: nat, f: Flags) { f.sign && num >= 0x8000_0000 }

  /** The value printed. */
  function Magnitude(num: nat, f: Flags): nat
    requires num < TWO32
  {
    if Negative(num, f) then TWO32 - num else num
  }

  function SignText(num: nat, f: Flags): string {
    if Negative(num, f) then "-" else if f.plus then "+" else if f.space then " " else ""
  }

  function Prefix(base: nat, f: Flags): string {
    if f.special && base == 8 then "0"
    else if f.special && base == 16 then ['0', DigitChars(f.small)[33]]
    else ""
  }

  function Format(num: nat, base: nat, size: int, precision: int, f: Flags): string
    requires num < TWO32 && 2 <= base <= 36
  {
    var digits := Digits(Magnitude(num, f), base, f.small);
    var number := Rep('0', precision - |digits|) + digits;
    var head := SignText(num, f) + Prefix(base, f);
    var fill := size - |head| - |number|;
    if f.left then head + number + Rep(' ', fill)
    else if f.zeropad then head + Rep('0', fill) + number
    else Rep(' ', fill) + head + number
  }

  /** The width is reached, and exceeded only if sign, prefix and digits need it. */
  lemma FormatLength(num: nat, base: nat, size: int, precision: int, f: Flags)
    requires num < TWO32 && 2 <= base <= 36
    ensures |Format(num, base, size, precision, f)| == Max(size,
      (if Negative(num, f) || f.plus || f.space then 1 else 0)
      + (if f.special && base == 16 then 2 else if f.special && base == 8 then 1 else 0)
      + Max(precision, |Digits(if Negative(num, f) then TWO32 - num else num, base, f.small)|))
  {
  }

  function Pow2(k: nat): nat { if k == 0 then 1 else 2 * Pow2(k - 1) }

  lemma {:induction false} FewDigits(n: nat, base: nat, small: bool, k: nat)
    requires 2 <= base <= 36 && n < Pow2(k) && k > 0
    ensures |Digits(n, base, small)| <= k
    decreases k
  {
    if n >= base {
      Halved(n, base);
      assert n / base < Pow2(k - 1) && n / base > 0;
      FewDigits(n / base, base, small, k - 1);
    }
  }

  lemma Halved(n: nat, base: nat)
    requires base >= 2 && n >= base
    ensures 0 < n / base <= n / 2 && n / base < n
  {
    var q := n / base;
    assert n == q * base + n % base;
    assert q * base >= q * 2;
  }

  lemma Words()
    ensures Pow2(32) == TWO32
  {
    assert Pow2(8) == 256;
    assert Pow2(16) == 65536;
    assert Pow2(24) == 0x100_0000;
  }

  function Reversed(s: string): (r: string)
    ensures |r| == |s| && forall i :: 0 <= i < |s| ==> r[i] == s[|s| - 1 - i]
  {
    seq(|s|, i requires 0 <= i < |s| => s[|s| - 1 - i])
  }

  // ---- printing

  /** The buffer holds the text `w` up to `e`, and what it held behind that. */
  ghost predicate Written(s: string, s0: string, e: nat, w: string) {
    |s| == |s0| && e <= |s| && s[..e] == w && forall k :: e <= k < |s| ==> s[k] == s0[k]
  }

  /** The character `c` as often as the width says, behind the text `w`; the width counts down past 0. */
  method Pad(str: array<char>, at: nat, c: char, size: int, ghost s0: string, ghost w: string) returns (end: nat, rest: int)
    requires at + |Rep(c, size)| <= str.Length && Written(str[..], s0, at, w)
    modifies str
    ensures end == at + |Rep(c, size)| && rest == (if size > 0 then -1 else size - 1)
    ensures Written(str[..], s0, end, w + Rep(c, size))
  {
    end, rest := at, size;
    while rest > 0
      invariant (size > 0 ==> 0 <= rest) && rest <= size && (size <= 0 ==> rest == size) && end == at + (size - rest)
      invariant Written(str[..], s0, end, w + Rep(c, size - rest))
    {
      str[end] := c;
      end, rest := end + 1, rest - 1;
    }
    rest := rest - 1;
  }

  /** The characters of `t` one after the other. */
  method Put(str: array<char>, at: nat, t: string, ghost s0: string, ghost w: string) returns (end: nat)
    requires at + |t| <= str.Length && Written(str[..], s0, at, w)
    modifies str
    ensures end == at + |t| && Written(str[..], s0, end, w + t)
  {
    forall i | 0 <= i < |t| {
      str[at + i] := t[i];
    }
    end := at + |t|;
  }

  /** Lines 96-100: the digits of the value, the last one first; 36 places are enough. */
  method Convert(value: nat, base: nat, small: bool, tmp: array<char>) returns (i: nat)
    requires value < TWO32 && 2 <= base <= 36 && tmp.Length == 36
    modifies tmp
    ensures 0 < i <= 32 && Reversed(tmp[..i]) == Digits(value, base, small)
  {
    hide Digits, DigitChars, Converting, Reversed;
    var num: nat := value;
    i := 0;
    ZeroDigit(base, small);
    if num == 0 {
      tmp[i] := '0';
      i := i + 1;
      OneChar(tmp[..i]);
    } else {
      ghost var all := Digits(value, base, small);
      Words();
      FewDigits(value, base, small, 32);
      ConvertStart(value, base, small, tmp[..0]);
      while num != 0
        invariant i <= 32 && Converting(all, num, base, small, tmp[..i])
        decreases num
      {
        Quot(num, base);
        ghost var before := tmp[..i];
        ConvertStep(all, num, base, small, before);
        tmp[i] := DigitChars(small)[num % base];
        i := i + 1;
        assert tmp[..i] == before + [DigitChars(small)[num % base]];
        num := num / base;
      }
      ConvertEnd(all, base, small, tmp[..i]);
    }
  }

  /** The digits still to come, and those in `t`, make up all of them. */
  ghost predicate Converting(all: string, num: nat, base: nat, small: bool, t: string)
    requires 2 <= base <= 36
  {
    all == (if num == 0 then "" else Digits(num, base, small)) + Reversed(t) && |all| <= 32
  }

  lemma ConvertStart(value: nat, base: nat, small: bool, t: string)
    requires 2 <= base <= 36 && value > 0 && t == "" && |Digits(value, base, small)| <= 32
    ensures Converting(Digits(value, base, small), value, base, small, t)
  {
  }

  lemma ConvertStep(all: string, num: nat, base: nat, small: bool, t: string)
    requires 2 <= base <= 36 && num > 0 && Converting(all, num, base, small, t)
    ensures num % base < 36 && 0 <= num / base && |t| < 32
    ensures Converting(all, num / base, base, small, t + [DigitChars(small)[num % base]])
  {
    hide Digits;
    LastDigit(num, base, small);
    Quot(num, base);
    var d := DigitChars(small)[num % base];
    assert Reversed(t + [d]) == [d] + Reversed(t);
  }

  lemma ConvertEnd(all: string, base: nat, small: bool, t: string)
    requires 2 <= base <= 36 && Converting(all, 0, base, small, t)
    ensures all == Reversed(t)
  {
  }

  lemma OneChar(t: string)
    requires |t| == 1
    ensures Reversed(t) == t
  {
  }

  lemma ZeroDigit(base: nat, small: bool)
    requires 2 <= base <= 36
    ensures Digits(0, base, small) == "0" && DigitChars(small)[0] == '0'
  {
  }

  lemma Quot(n: nat, base: nat)
    requires base >= 2
    ensures 0 <= n / base && 0 <= n % base < base && (n < base ==> n / base == 0 && n % base == n)
    ensures n > 0 ==> n / base < n
    ensures n >= base ==> n / base > 0
  {
    if n >= base { Halved(n, base); }
  }

  lemma LastDigit(n: nat, base: nat, small: bool)
    requires 2 <= base <= 36 && n > 0
    ensures n % base < 36
    ensures Digits(n, base, small) == (if n / base == 0 then "" else Digits(n / base, base, small)) + [DigitChars(small)[n % base]]
  {
    Quot(n, base);
  }

  /** Lines 121-122: the digits from the last one kept to the first. */
  method PutReversed(str: array<char>, at: nat, tmp: array<char>, n: nat, ghost s0: string, ghost w: string) returns (end: nat)
    requires n <= tmp.Length && at + n <= str.Length && str != tmp && Written(str[..], s0, at, w)
    modifies str
    ensures end == at + n && Written(str[..], s0, end, w + Reversed(tmp[..n]))
  {
    var i := n;
    end := at;
    while i > 0
      invariant 0 <= i <= n && end == at + (n - i)
      invariant Written(str[..], s0, end, w + Reversed(tmp[..n])[..n - i])
    {
      i := i - 1;
      str[end] := tmp[i];
      end := end + 1;
    }
  }

  /** Lines 103-116: sign and prefix, with the filling before or behind them unless the text
      stands on the left. */
  method Front(str: array<char>, at: nat, sign: string, base: nat, f: Flags, size: int, ghost s0: string, ghost w: string)
    returns (end: nat, rest: int)
    requires at + |sign| + |Prefix(base, f)| + (if f.left then 0 else |Rep(' ', size)|) <= str.Length && Written(str[..], s0, at, w)
    modifies str
    ensures if f.left then rest == size else rest <= 0
    ensures var zeropad := f.zeropad && !f.left;
      var w' := w + Rep(' ', if !f.left && !zeropad then size else 0)
          + (sign + Prefix(base, f)) + Rep('0', if !f.left && zeropad then size else 0);
      end == at + |w'| - |w| && Written(str[..], s0, end, w')
  {
    hide Rep, Prefix, Written;
    var zeropad := f.zeropad && !f.left;
    var c := if zeropad then '0' else ' ';
    ghost var w1 := w + Rep(' ', if !f.left && !zeropad then size else 0);
    ghost var w2 := w1 + (sign + Prefix(base, f));
    end, rest := at, size;
    NoPad(' ', 0);
    NoPad('0', 0);
    if !zeropad && !f.left {
      end, rest := Pad(str, end, ' ', rest, s0, w);
    } else {
      assert w1 == w;
    }
    end := Head(str, end, sign, base, f, s0, w1);
    NoPad(c, rest);
    if !f.left {
      end, rest := Pad(str, end, c, rest, s0, w2);
    }
    assert w2 + "" == w2;
  }

  /** lib/vsprintf.c `number`: None for a base without digits, and otherwise the text
      written from `at` on and its end. */
  method Number(str: array<char>, at: nat, num: nat, base: nat, size: int, precision: int, f: Flags) returns (end: Option<nat>)
    requires num < TWO32 && at <= str.Length
    requires 2 <= base <= 36 ==> at + |Format(num, base, size, precision, f)| <= str.Length
    modifies str
    ensures end.None? <==> base < 2 || base > 36
    ensures end.None? ==> str[..] == old(str[..])
    ensures end.Some? ==>
      && end.value == at + |Format(num, base, size, precision, f)|
      && Written(str[..], old(str[..]), end.value, old(str[..at]) + Format(num, base, size, precision, f))
  {
    hide Digits, Rep, Reversed, Format, SignText, Prefix, Magnitude, Max, Written;
    var zeropad := f.zeropad && !f.left;
    if base < 2 || base > 36 {
      return None;
    }
    var value, sign, rest := Sign(num, base, size, f);
    var prec := precision;
    var tmp := new char[36](_ => ' ');
    var i := Convert(value, base, f.small, tmp);
    ghost var digits := Reversed(tmp[..i]);
    MaxIs(precision, i);
    if i > prec { prec := i; }
    rest := rest - prec;
    ghost var fill, zeros := rest, Rep('0', prec - i);
    FormatParts(num, base, size, precision, f, fill, zeros, digits);
    ghost var s0, w := str[..], str[..at];
    NothingWritten(s0, at);
    var e: nat;
    e, rest := Front(str, at, sign, base, f, rest, s0, w);
    w := w + Rep(' ', if !f.left && !zeropad then fill else 0)
        + (sign + Prefix(base, f)) + Rep('0', if !f.left && zeropad then fill else 0);
    var none: int;
    e, none := Pad(str, e, '0', prec - i, s0, w);
    w := w + zeros;
    e := PutReversed(str, e, tmp, i, s0, w);
    w := w + digits;
    NoPad(' ', rest);
    NoPad(' ', 0);
    e, rest := Pad(str, e, ' ', rest, s0, w);
    end := Some(e);
    Grouped(s0[..at], Rep(' ', if !f.left && !zeropad then fill else 0), SignText(num, f) + Prefix(base, f),
            Rep('0', if !f.left && zeropad then fill else 0), zeros, digits, Rep(' ', if f.left then fill else 0));
  }

  lemma NothingWritten(s: string, at: nat)
    requires at <= |s|
    ensures Written(s, s, at, s[..at])
  {
  }

  lemma Grouped(p: string, a: string, h: string, b: string, z: string, d: string, c: string)
    ensures p + a + h + b + z + d + c == p + (a + h + b + z + d + c)
  {
  }

  lemma MaxIs(a: int, b: int)
    ensures Max(a, b) == if a > b then a else b
  {
  }

  lemma NoPad(c: char, n: int)
    ensures n <= 0 ==> Rep(c, n) == ""
  {
  }

  /** Lines 84-95: the sign, the value without it, and the width left for the rest. */
  method Sign(num: nat, base: nat, size: int, f: Flags) returns (value: nat, sign: string, rest: int)
    requires num < TWO32 && 2 <= base <= 36
    ensures value == Magnitude(num, f) < TWO32 && sign == SignText(num, f) && rest == size - |sign| - |Prefix(base, f)|
  {
    value, sign, rest := num, "", size;
    if f.sign && num >= 0x8000_0000 {
      sign := "-";
      value := TWO32 - num;
    } else if f.plus {
      sign := "+";
    } else if f.space {
      sign := " ";
    }
    if sign != "" { rest := rest - 1; }
    if f.special {
      if base == 16 { rest := rest - 2; } else if base == 8 { rest := rest - 1; }
    }
  }

  /** Lines 106-115: the sign and what stands in front of octal and hexadecimal numbers. */
  method Head(str: array<char>, at: nat, sign: string, base: nat, f: Flags, ghost s0: string, ghost w: string) returns (end: nat)
    requires at + |sign| + |Prefix(base, f)| <= str.Length && Written(str[..], s0, at, w)
    modifies str
    ensures end == at + |sign| + |Prefix(base, f)| && Written(str[..], s0, end, w + (sign + Prefix(base, f)))
  {
    end := Put(str, at, sign, s0, w);
    if f.special {
      if base == 8 {
        end := Put(str, end, "0", s0, w + sign);
      } else if base == 16 {
        end := Put(str, end, ['0', DigitChars(f.small)[33]], s0, w + sign);
      }
    }
    assert w + sign + Prefix(base, f) == w + (sign + Prefix(base, f));
  }

  /** The text in the order in which it is written; only one of the fillings is not empty. */
  lemma FormatParts(num: nat, base: nat, size: int, precision: int, f: Flags, fill: int, zeros: string, digits: string)
    requires num < TWO32 && 2 <= base <= 36 && digits == Digits(Magnitude(num, f), base, f.small)
    requires zeros == Rep('0', precision - |digits|)
    requires fill == size - |SignText(num, f)| - |Prefix(base, f)| - Max(precision, |digits|)
    ensures Format(num, base, size, precision, f) ==
      Rep(' ', if !f.left && !f.zeropad then fill else 0) + (SignText(num, f) + Prefix(base, f))
      + Rep('0', if !f.left && f.zeropad then fill else 0) + zeros + digits + Rep(' ', if f.left then fill else 0)
  {
    hide Digits, SignText, Prefix, Magnitude;
  }
}
