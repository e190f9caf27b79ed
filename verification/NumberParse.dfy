/** lib/vsprintf.c `simple_strtoul`, and that it reads back what `number` prints. */
module NumberParse {
  import opened Basics
  import opened NumberText

  /** What `isxdigit`, `isdigit`, `islower` and `toupper` make of a character; -1 for none. */
  function DigitValue(c: char): int {
    if '0' <= c <= '9' then c as int - '0' as int
    else if 'A' <= c <= 'F' then c as int - 'A' as int + 10
    else if 'a' <= c <= 'f' then c as int - 32 - 'A' as int + 10
    else -1
  }

  predicate IsDigit(c: char, base: nat) {
    0 <= DigitValue(c) < base
  }

  predicate Terminated(s: string) {
    |s| > 0 && s[|s| - 1] == '\0'
  }

  /** The number that digits stand for. */
  function Val(t: string, base: nat): int {
    if t == "" then 0 else Val(t[..|t| - 1], base) * base + DigitValue(t[|t| - 1])
  }

  /** Where the digits from `i` on end. */
  function Span(s: string, i: nat, base: nat): (e: nat)
    requires i <= |s|
    ensures i <= e <= |s| && (forall k :: i <= k < e ==> IsDigit(s[k], base)) && (e < |s| ==> !IsDigit(s[e], base))
    decreases |s| - i
  {
    if i < |s| && IsDigit(s[i], base) then Span(s, i + 1, base) else i
  }

  /** Where the digits start and in which base, when none is given. */
  function Guess(s: string, base: nat): (nat, nat)
    requires Terminated(s)
  {
    if base != 0 then (0, base)
    else if s[0] != '0' then (0, 10)
    else if s[1] == 'x' && DigitValue(s[2]) >= 0 then (2, 16)
    else (1, 8)
  }

  function Parsed(s: string, base: nat): (int, nat)
    requires Terminated(s)
  {
    var (i, b) := Guess(s, base);
    var e := Span(s, i, b);
    (Val(s[i..e], b) % TWO32, e)
  }

  /** The longest run of digits, its value modulo 2^32, and where it ends. */
  method SimpleStrtoul(s: string, base0: nat) returns (result: nat, end: nat)
    requires Terminated(s)
    ensures (result, end) == Parsed(s, base0) && end < |s|
  {
    hide Val, Span, DigitValue;
    var base, cp := base0, 0;
    if base == 0 {
      base := 10;
      if s[cp] == '0' {
        base := 8;
        cp := cp + 1;
        if s[cp] == 'x' && DigitValue(s[cp + 1]) >= 0 {
          cp := cp + 1;
          base := 16;
        }
      }
    }
    ghost var i := cp;
    result := 0;
    NoDigits(s, i, base);
    while IsDigit(s[cp], base)
      invariant i <= cp < |s|
      invariant result == Val(s[i..cp], base) % TWO32 && Span(s, i, base) == Span(s, cp, base)
      decreases |s| - cp
    {
      OneMore(s, i, cp, base);
      WrapStep(Val(s[i..cp], base), base, DigitValue(s[cp]));
      result := (result * base + DigitValue(s[cp])) % TWO32;
      cp := cp + 1;
    }
    end := cp;
    SpanIs(s, cp, cp, base);
  }

  lemma NoDigits(s: string, i: nat, base: nat)
    requires i < |s|
    ensures Val(s[i..i], base) == 0 && !IsDigit('\0', base)
  {
  }

  lemma OneMore(s: string, i: nat, e: nat, base: nat)
    requires i <= e < |s| && IsDigit(s[e], base)
    ensures Val(s[i..e + 1], base) == Val(s[i..e], base) * base + DigitValue(s[e])
    ensures Span(s, i, base) == Span(s, e, base) ==> Span(s, i, base) == Span(s, e + 1, base)
  {
    assert s[i..e + 1][..e - i] == s[i..e];
  }

  /** Wrapping each step is wrapping once. */
  lemma WrapStep(v: int, base: nat, d: int)
    ensures (v % TWO32 * base + d) % TWO32 == (v * base + d) % TWO32
  {
    var q := v / TWO32;
    assert v * base + d == v % TWO32 * base + d + TWO32 * (q * base) by {
      assert v == TWO32 * q + v % TWO32;
      Spread(TWO32, q, v % TWO32, base);
    }
    WholeTurns(v % TWO32 * base + d, q * base);
  }

  lemma Spread(m: nat, q: int, r: nat, base: nat)
    ensures (m * q + r) * base == m * (q * base) + r * base
  {
  }

  lemma WholeTurns(x: int, k: int)
    ensures (x + TWO32 * k) % TWO32 == x % TWO32
  {
  }

  // ---- reading what was printed

  lemma {:induction false} DigitsRead(n: nat, base: nat, small: bool)
    requires 2 <= base <= 16
    ensures forall i :: 0 <= i < |Digits(n, base, small)| ==> IsDigit(Digits(n, base, small)[i], base)
    ensures Val(Digits(n, base, small), base) == n && (n > 0 ==> Digits(n, base, small)[0] != '0')
    decreases n
  {
    OneDigit(n % base, base, small);
    if n >= base {
      Halved(n, base);
      DigitsRead(n / base, base, small);
      var d := Digits(n, base, small);
      assert d[..|d| - 1] == Digits(n / base, base, small);
      assert n == n / base * base + n % base;
    } else {
      Quot(n, base);
      assert Digits(n, base, small)[..0] == "";
    }
  }

  lemma OneDigit(d: nat, base: nat, small: bool)
    requires d < base <= 16
    ensures DigitValue(DigitChars(small)[d]) == d
  {
  }

  /** A character stands for a value exactly if it is one of these. */
  lemma OnlyThese(c: char)
    ensures DigitValue(c) >= 0 <==> c in "0123456789ABCDEFabcdef"
    ensures DigitValue(c) < 16
  {
    var all, d := "0123456789ABCDEFabcdef", DigitValue(c);
    assert d >= 0 ==> c == all[d] || (d >= 10 && c == all[d + 6]);
  }

  lemma {:induction false} LeadingZeros(z: string, t: string, base: nat)
    requires base >= 2 && forall i :: 0 <= i < |z| ==> z[i] == '0'
    ensures Val(z + t, base) == Val(t, base)
    decreases |z| + |t|
  {
    if t != "" {
      LeadingZeros(z, t[..|t| - 1], base);
      assert (z + t)[..|z + t| - 1] == z + t[..|t| - 1];
    } else if z != "" {
      LeadingZeros(z[..|z| - 1], "", base);
      assert z + "" == z && z[..|z| - 1] + "" == z[..|z| - 1];
    }
  }

  lemma {:induction false} SpanIs(s: string, i: nat, e: nat, base: nat)
    requires i <= e < |s| && (forall k :: i <= k < e ==> IsDigit(s[k], base)) && !IsDigit(s[e], base)
    ensures Span(s, i, base) == e
    decreases e - i
  {
    if i < e { SpanIs(s, i + 1, e, base); }
  }

  /** No sign and no blanks are printed. */
  predicate Unpadded(num: nat, base: nat, size: int, precision: int, f: Flags)
    requires num < TWO32 && 2 <= base <= 36
  {
    && SignText(num, f) == ""
    && ((f.zeropad && !f.left) || size <= |Prefix(base, f)| + Max(precision, |Digits(num, base, f.small)|))
  }

  /** Such a text is the prefix, zeros and the digits of the value. */
  lemma UnpaddedIs(num: nat, base: nat, size: int, precision: int, f: Flags) returns (z: string)
    requires num < TWO32 && 2 <= base <= 16 && Unpadded(num, base, size, precision, f)
    ensures forall i :: 0 <= i < |z| ==> z[i] == '0'
    ensures Format(num, base, size, precision, f) == Prefix(base, f) + (z + Digits(num, base, f.small))
  {
    hide Digits, Format, Prefix;
    var digits := Digits(num, base, f.small);
    var fill := size - |Prefix(base, f)| - Max(precision, |digits|);
    z := (if f.zeropad && !f.left then Rep('0', fill) else "") + Rep('0', precision - |digits|);
    FormatParts(num, base, size, precision, f, fill, Rep('0', precision - |digits|), digits);
  }

  /** Digits between a prefix `p` and an end that starts with no digit, read from behind the prefix. */
  lemma ReadFrom(p: string, z: string, num: nat, base: nat, small: bool, end: string)
    requires num < TWO32 && 2 <= base <= 16 && (forall i :: 0 <= i < |z| ==> z[i] == '0') && |end| > 0 && DigitValue(end[0]) < 0
    ensures var s, e := p + (z + Digits(num, base, small)) + end, |p| + |z + Digits(num, base, small)|;
      && Span(s, |p|, base) == e
      && (forall k :: |p| <= k < e ==> IsDigit(s[k], base))
      && Val(s[|p|..e], base) == num
  {
    hide Digits;
    DigitsRead(num, base, small);
    var t := z + Digits(num, base, small);
    LeadingZeros(z, Digits(num, base, small), base);
    var s, e := p + t + end, |p| + |t|;
    assert s[|p|..e] == t;
    forall k | |p| <= k < e
      ensures IsDigit(s[k], base)
    {
      assert s[k] == t[k - |p|];
    }
    SpanIs(s, |p|, e, base);
  }

  /** Read in the base it was printed in, the text gives the value back and is used up, unless
      it has a prefix with an x. */
  lemma PrintedReadsBack(num: nat, base: nat, size: int, precision: int, f: Flags)
    requires num < TWO32 && 2 <= base <= 16 && Unpadded(num, base, size, precision, f)
    ensures var text := Format(num, base, size, precision, f);
      Parsed(text + "\0", base) == (num, |text|) <==> !(f.special && base == 16)
  {
    hide Digits, Format, Span, Val, Unpadded;
    var z := UnpaddedIs(num, base, size, precision, f);
    if f.special && base == 16 {
      StopsAtX(Prefix(base, f), z + Digits(num, base, f.small), "\0", f);
    } else {
      ZerosRead(Prefix(base, f), z, num, base, f.small, "\0");
    }
  }

  lemma StopsAtX(p: string, t: string, end: string, f: Flags)
    requires p == Prefix(16, f) && f.special && Terminated(end)
    ensures Parsed(p + t + end, 16) == (0, 1) && |p| == 2
  {
    var s := p + t + end;
    assert s[0] == '0' && s[1] == p[1] && !IsDigit(p[1], 16);
    SpanIs(s, 0, 1, 16);
    assert s[0..1] == "0" && Val("0"[..0], 16) == 0;
  }

  lemma ZerosRead(p: string, z: string, num: nat, base: nat, small: bool, end: string)
    requires num < TWO32 && 2 <= base <= 16 && Terminated(end) && DigitValue(end[0]) < 0
    requires (forall i :: 0 <= i < |p| ==> p[i] == '0') && forall i :: 0 <= i < |z| ==> z[i] == '0'
    ensures var text := p + (z + Digits(num, base, small)); Parsed(text + end, base) == (num, |text|)
  {
    hide Digits, Span, Val, DigitValue;
    var text := p + (z + Digits(num, base, small));
    ReadFrom("", p + z, num, base, small, end);
    assert "" + (p + z + Digits(num, base, small)) == text;
  }

  /** Base 0 finds the base of an octal number printed with its prefix. */
  lemma OctalReadsBack(num: nat, size: int, precision: int, f: Flags)
    requires num < TWO32 && Unpadded(num, 8, size, precision, f) && f.special
    ensures var text := Format(num, 8, size, precision, f); Parsed(text + "\0", 0) == (num, |text|)
  {
    hide Digits, Format, Span, Val, Unpadded;
    var z := UnpaddedIs(num, 8, size, precision, f);
    var s := "0" + (z + Digits(num, 8, f.small)) + "\0";
    ReadFrom("0", z, num, 8, f.small, "\0");
    assert s[1] != 'x' by {
      if |s| > 2 { assert IsDigit(s[1], 8); }
    }
  }

  /** Of a hexadecimal number it does exactly if the prefix is a small x. */
  lemma HexReadsBackIff(num: nat, size: int, precision: int, f: Flags)
    requires num < TWO32 && Unpadded(num, 16, size, precision, f) && f.special
    ensures var text := Format(num, 16, size, precision, f); Parsed(text + "\0", 0) == (num, |text|) <==> f.small
  {
    hide Digits, Format, Val, Unpadded;
    var z := UnpaddedIs(num, 16, size, precision, f);
    var p := Prefix(16, f);
    var s := p + (z + Digits(num, 16, f.small)) + "\0";
    assert |p| == 2 && p[0] == '0' && p[1] == if f.small then 'x' else 'X';
    ReadFrom(p, z, num, 16, f.small, "\0");
    assert |s| > 3;
    assert IsDigit(s[2], 16);
    if !f.small {
      assert Guess(s, 0) == (1, 8);
      assert !IsDigit(s[1], 8);
      assert Span(s, 1, 8) == 1;
    }
  }

  /** Decimal text in base 0 exactly if it has no leading zero, or one that does not matter. */
  lemma DecimalReadsBackIff(num: nat, size: int, precision: int, f: Flags)
    requires num < TWO32 && Unpadded(num, 10, size, precision, f)
    ensures var text := Format(num, 10, size, precision, f);
      |text| > 0 && (Parsed(text + "\0", 0) == (num, |text|) <==> text[0] != '0' || num < 8)
  {
    hide Digits, Format, Val, Unpadded, Span;
    var z := UnpaddedIs(num, 10, size, precision, f);
    var d := Digits(num, 10, f.small);
    var text := z + d;
    var s := text + "\0";
    DigitsRead(num, 10, f.small);
    ReadFrom("", z, num, 10, f.small, "\0");
    assert "" + text == text && s[0..|text|] == text;
    if s[0] == '0' {
      assert s[1] != 'x' by {
        if |s| > 2 { assert IsDigit(s[1], 10); }
      }
      AsOctal(text, z, num, f.small);
    }
  }

  /** Decimal digits behind a zero, read as octal. */
  lemma AsOctal(text: string, z: string, num: nat, small: bool)
    requires num < TWO32 && text == z + Digits(num, 10, small) && (forall i :: 0 <= i < |z| ==> z[i] == '0')
    requires text[0] == '0'
    ensures var s := text + "\0"; var e := Span(s, 1, 8); (Val(s[1..e], 8) % TWO32, e) == (num, |text|) <==> num < 8
  {
    hide Val, Span;
    var s := text + "\0";
    var e := Span(s, 1, 8);
    if e == |text| {
      assert s[1..e] == text[1..] && ['0'] + text[1..] == text;
      LeadingZeros("0", text[1..], 8);
      LeadingZeros(z, Digits(num, 10, small), 8);
      OctalLess(num, small);
    }
    if num < 10 { LowDigits(text, z, num, small); }
  }

  lemma SmallDigit(num: nat, small: bool)
    requires num < 10
    ensures Digits(num, 10, small) == [DigitChars(small)[num]] && DigitValue(DigitChars(small)[num]) == num
  {
    OneDigit(num, 10, small);
  }

  lemma LowDigits(text: string, z: string, num: nat, small: bool)
    requires num < 10 && text == z + Digits(num, 10, small) && text[0] == '0' && forall i :: 0 <= i < |z| ==> z[i] == '0'
    ensures Span(text + "\0", 1, 8) == |text| <==> num < 8
  {
    hide Digits, Span, DigitChars;
    var s := text + "\0";
    SmallDigit(num, small);
    assert text[|text| - 1] == DigitChars(small)[num];
    assert s[|text| - 1] == text[|text| - 1];
    if num < 8 {
      forall k | 1 <= k < |text|
        ensures IsDigit(s[k], 8)
      {
        assert s[k] == text[k];
      }
      SpanIs(s, 1, |text|, 8);
    } else {
      assert !IsDigit(s[|text| - 1], 8) && |text| > 1;
    }
  }

  lemma {:induction false} OctalLess(n: nat, small: bool)
    ensures if n < 10 then Val(Digits(n, 10, small), 8) == n else 0 <= Val(Digits(n, 10, small), 8) < n
    decreases n
  {
    OneDigit(n % 10, 10, small);
    var d := Digits(n, 10, small);
    if n < 10 {
      assert d[..0] == "";
      assert Val(d[..0], 8) == 0;
    } else {
      OctalLess(n / 10, small);
      assert d[..|d| - 1] == Digits(n / 10, 10, small);
    }
  }

  // ---- signs and blanks

  function Blanks(s: string): (i: nat)
    requires Terminated(s)
    ensures i < |s| && s[i] != ' ' && forall k :: 0 <= k < i ==> s[k] == ' '
  {
    if s[0] == ' ' then 1 + Blanks(s[1..]) else 0
  }

  /** A reader that skips blanks and takes one sign: the number, where its digits start and where they end. */
  function ReadInt(s: string, base: nat): (int, nat, nat)
    requires Terminated(s)
  {
    var i := Blanks(s);
    var k := if s[i] == '-' || s[i] == '+' then i + 1 else i;
    var (v, e) := Parsed(s[k..], base);
    (if s[i] == '-' then -v else v, k, k + e)
  }

  predicate All(t: string, c: char) {
    forall i :: 0 <= i < |t| ==> t[i] == c
  }

  /** Blanks, a sign, the prefix, zeros and digits, blanks. */
  lemma FormatReads(num: nat, base: nat, size: int, precision: int, f: Flags) returns (lead: string, sign: string, z: string, trail: string)
    requires num < TWO32 && 2 <= base <= 16
    ensures Format(num, base, size, precision, f) ==
      lead + sign + (Prefix(base, f) + (z + Digits(Magnitude(num, f), base, f.small))) + trail
    ensures All(lead, ' ') && All(z, '0') && All(trail, ' ') && (!f.left ==> trail == "")
    ensures sign == if Negative(num, f) then "-" else if f.plus then "+" else ""
    ensures lead != "" ==> (!f.left && !f.zeropad) || (!Negative(num, f) && !f.plus && f.space && lead == " ")
    ensures !Negative(num, f) && !f.plus && f.space ==> lead != ""
    ensures |z + Digits(Magnitude(num, f), base, f.small)| >= precision
  {
    hide Digits, Format, Prefix, Rep, Magnitude, Max;
    var d := Digits(Magnitude(num, f), base, f.small);
    var p := Prefix(base, f);
    var fill := size - |SignText(num, f)| - |p| - Max(precision, |d|);
    var zeros := Rep('0', precision - |d|);
    FormatParts(num, base, size, precision, f, fill, zeros, d);
    var a := Rep(' ', if !f.left && !f.zeropad then fill else 0);
    var b := Rep('0', if !f.left && f.zeropad then fill else 0);
    trail := Rep(' ', if f.left then fill else 0);
    z := b + zeros;
    if Negative(num, f) || f.plus {
      lead, sign := a, SignText(num, f);
    } else {
      lead, sign := a + SignText(num, f), "";
    }
    assert a + SignText(num, f) == lead + sign;
    assert a + (SignText(num, f) + p) + b + zeros + d + trail == lead + sign + (p + (z + d)) + trail;
  }

  /** However it is padded, signed text reads back as the signed number, unless a prefix with an x
      stands in front of one that is not 0; its digits are at least as many as asked for. */
  lemma SignedReadsBack(num: nat, base: nat, size: int, precision: int, f: Flags)
    requires num < TWO32 && 2 <= base <= 16
    ensures var (v, k, e) := ReadInt(Format(num, base, size, precision, f) + "\0", base);
      && (v == (if f.sign then S32(num) else num) <==> !(f.special && base == 16 && num != 0))
      && (!(f.special && base == 16) ==> e - k >= precision)
  {
    hide Digits, Format, Parsed, Prefix, ReadInt, Magnitude;
    var lead, sign, z, trail := FormatReads(num, base, size, precision, f);
    var text := Prefix(base, f) + (z + Digits(Magnitude(num, f), base, f.small));
    var end := trail + "\0";
    assert Format(num, base, size, precision, f) + "\0" == lead + (sign + (text + end));
    SignOf(num, f);
    TextReads(Magnitude(num, f), base, f, z, trail);
    ReadsBehind(lead, sign, text + end, base);
  }

  lemma SignOf(num: nat, f: Flags)
    requires num < TWO32
    ensures Magnitude(num, f) < TWO32 && (Magnitude(num, f) == 0 <==> num == 0)
    ensures Negative(num, f) ==> f.sign && S32(num) + Magnitude(num, f) == 0
    ensures !Negative(num, f) ==> Magnitude(num, f) == num && (f.sign ==> S32(num) == num)
  {
  }

  /** Without sign and blanks: the value, or 0 where an x stops the reader. */
  lemma TextReads(n: nat, base: nat, f: Flags, z: string, trail: string)
    requires n < TWO32 && 2 <= base <= 16 && All(z, '0') && All(trail, ' ')
    ensures var t := Prefix(base, f) + (z + Digits(n, base, f.small)); var s := t + (trail + "\0");
      && Terminated(s) && s[0] != ' ' && s[0] != '-' && s[0] != '+'
      && Parsed(s, base) == if f.special && base == 16 then (0, 1) else (n, |t|)
  {
    hide Digits, Parsed, Prefix, DigitValue;
    var d := Digits(n, base, f.small);
    BlanksEnd(trail);
    if f.special && base == 16 {
      StopsAtX(Prefix(16, f), z + d, trail + "\0", f);
    } else {
      PrefixZeros(base, f);
      ZerosRead(Prefix(base, f), z, n, base, f.small, trail + "\0");
    }
    DigitsRead(n, base, f.small);
    TextStarts(base, f, z, d);
  }

  lemma BlanksEnd(trail: string)
    requires All(trail, ' ')
    ensures Terminated(trail + "\0") && DigitValue((trail + "\0")[0]) < 0
  {
  }

  lemma ReadsBehind(lead: string, sign: string, rest: string, base: nat)
    requires All(lead, ' ') && Terminated(rest) && rest[0] != ' ' && rest[0] != '-' && rest[0] != '+'
    requires sign == "" || sign == "-" || sign == "+"
    ensures var s := lead + (sign + rest);
      && Terminated(s)
      && ReadInt(s, base) ==
        (if sign == "-" then -Parsed(rest, base).0 else Parsed(rest, base).0, |lead + sign|, |lead + sign| + Parsed(rest, base).1)
  {
    hide Parsed;
    SkipsBlanks(lead, sign + rest);
    var s := lead + (sign + rest);
    assert s[|lead + sign|..] == rest;
    assert s[|lead|] == (sign + rest)[0];
  }

  lemma PrefixZeros(base: nat, f: Flags)
    requires !(f.special && base == 16)
    ensures All(Prefix(base, f), '0')
  {
  }

  lemma TextStarts(base: nat, f: Flags, z: string, d: string)
    requires 2 <= base <= 16 && All(z, '0') && |d| > 0 && IsDigit(d[0], base)
    ensures var t := Prefix(base, f) + (z + d); |t| > 0 && t[0] != ' ' && t[0] != '-' && t[0] != '+'
  {
  }

  lemma {:induction false} SkipsBlanks(lead: string, rest: string)
    requires All(lead, ' ') && Terminated(rest) && rest[0] != ' '
    ensures Terminated(lead + rest) && Blanks(lead + rest) == |lead|
  {
    if lead != "" {
      SkipsBlanks(lead[1..], rest);
      assert (lead + rest)[1..] == lead[1..] + rest;
    } else {
      assert lead + rest == rest;
    }
  }

  /** Which signs stand in the text, and on which side blanks do: behind the number only if it is
      on the left, in front of it otherwise, and nowhere but for the sign if zeros take their place. */
  lemma SignsAndBlanks(num: nat, base: nat, size: int, precision: int, f: Flags)
    requires num < TWO32 && 2 <= base <= 16
    ensures var t := Format(num, base, size, precision, f);
      && |t| > 0
      && ('-' in t <==> Negative(num, f))
      && ('+' in t <==> f.plus && !Negative(num, f))
      && (f.space && !f.plus && !Negative(num, f) ==> ' ' in t)
      && (f.left && t[0] == ' ' ==> f.space && !f.plus && !Negative(num, f))
      && (!f.left ==> t[|t| - 1] != ' ')
      && (f.zeropad && !f.left ==> forall i :: 1 <= i < |t| ==> t[i] != ' ')
  {
    hide Digits, Format, Magnitude;
    var lead, sign, z, trail := FormatReads(num, base, size, precision, f);
    var d := Digits(Magnitude(num, f), base, f.small);
    DigitsRead(Magnitude(num, f), base, f.small);
    var text := Prefix(base, f) + (z + d);
    forall i | 0 <= i < |text|
      ensures text[i] != '-' && text[i] != '+' && text[i] != ' '
    {
      NoSign(base, f, z, d, i);
    }
    Placed(lead, sign, text, trail);
  }

  lemma NoSign(base: nat, f: Flags, z: string, d: string, i: nat)
    requires 2 <= base <= 16 && All(z, '0') && (forall k :: 0 <= k < |d| ==> IsDigit(d[k], base)) && i < |Prefix(base, f) + (z + d)|
    ensures var c := (Prefix(base, f) + (z + d))[i]; c != '-' && c != '+' && c != ' '
  {
    var p := Prefix(base, f);
    if i >= |p + z| { assert (p + (z + d))[i] == d[i - |p + z|]; }
  }

  lemma Placed(lead: string, sign: string, text: string, trail: string)
    requires All(lead, ' ') && All(trail, ' ') && |sign| <= 1 && |text| > 0
    requires sign == "" || sign == "-" || sign == "+"
    requires forall i :: 0 <= i < |text| ==> text[i] != '-' && text[i] != '+' && text[i] != ' '
    ensures var t := lead + sign + text + trail;
      && ('-' in t <==> sign == "-") && ('+' in t <==> sign == "+")
      && (t[0] == ' ' <==> lead != "") && (lead != "" ==> ' ' in t)
      && (trail == "" ==> t[|t| - 1] != ' ' && forall i :: |lead| <= i < |t| ==> t[i] != ' ')
  {
    var t := lead + sign + text + trail;
    assert sign != "" ==> t[|lead|] == sign[0];
    forall i | 0 <= i < |t|
      ensures t[i] == '-' ==> sign == "-"
      ensures t[i] == '+' ==> sign == "+"
      ensures |lead| <= i && trail == "" ==> t[i] != ' '
    {
      if |lead + sign| <= i < |lead + sign + text| { assert t[i] == text[i - |lead + sign|]; }
    }
  }
}
