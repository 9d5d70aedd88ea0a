/** What printed numbers look like (lib/mp-printf.c), and what strtoull and strtoll (lib/stdlib.c) make of them. */
module NumberText {
  import opened Numbers

  function Most(a: int, b: int): int { if a < b then b else a }

  function Fewest(a: int, b: int): int { if a < b then a else b }

  /* ---- The layout ---- */

  lemma RepeatJoin(c: char, m: nat, n: nat)
    ensures Repeat(c, m) + Repeat(c, n) == Repeat(c, m + n)
  {
  }

  lemma NoRepeat(c: char, n: int)
    ensures n <= 0 ==> Repeat(c, n) == []
  {
  }

  lemma FillTwice(b: seq<char>, m: nat, n: nat)
    requires |b| <= BUFFER_SIZE
    ensures Fill(Fill(b, m), n) == Fill(b, Most(m, n))
  {
    var k := Fewest(m, BUFFER_SIZE) - |b|;
    var l := Fewest(n, BUFFER_SIZE) - |Fill(b, m)|;
    NoRepeat('0', k);
    NoRepeat('0', l);
    if k > 0 && l > 0 { RepeatJoin('0', k, l); }
    hide Repeat;
    assert k > 0 && l > 0 ==> b + Repeat('0', k) + Repeat('0', l) == b + (Repeat('0', k) + Repeat('0', l));
  }

  /** How many zeros are written. */
  lemma {:induction false} PaddedIs(b: seq<char>, prec: nat, w: nat, f: Format)
    requires |b| <= BUFFER_SIZE
    ensures var fill := if f.zeropad then Most(prec, w) else prec;
      Padded(b, prec, w, f) == b + Repeat('0', if f.left then 0 else Most(0, Fewest(fill, BUFFER_SIZE) - |b|))
  {
    FillTwice(b, prec, w);
    var fill := if f.zeropad then Most(prec, w) else prec;
    NoRepeat('0', Fewest(fill, BUFFER_SIZE) - |b|);
    NoRepeat('0', 0);
    assert b + [] == b;
    assert Fill(b, fill) == b + Repeat('0', Fewest(fill, BUFFER_SIZE) - |b|) by { hide Repeat; }
    hide Repeat, Fill, Fewest, Most;
  }

  lemma ReversedSign(b: seq<char>, c: char)
    ensures Reversed(b + [c]) == [c] + Reversed(b)
  {
  }

  /** How many zeros precede n digits. */
  function ZeroCount(n: nat, negative: bool, prec: nat, width: nat, f: Format): nat {
    var fill := if f.zeropad then Most(prec, if negative || f.plus || f.space then width - 1 else width) else prec;
    if f.left then 0 else Most(0, Fewest(fill, BUFFER_SIZE) - n)
  }

  /** The sign before n digits and zeros. */
  function SignText(n: nat, negative: bool, f: Format): seq<char> {
    if !(negative || f.plus || f.space) || n == BUFFER_SIZE then ""
    else if negative then "-" else if f.plus then "+" else " "
  }

  /** With spaces up to the width on the proper side. */
  function Spaced(text: seq<char>, width: int, f: Format): seq<char> {
    if f.left then text + Repeat(' ', width - |text|)
    else if f.zeropad then text
    else Repeat(' ', width - |text|) + text
  }

  lemma {:induction false} ZerosAre(b: seq<char>, negative: bool, prec: nat, width: nat, f: Format)
    requires |b| <= BUFFER_SIZE
    ensures var zeros := ZeroCount(|b|, negative, prec, width, f);
      Padded(b, prec, Minus(width, negative, f), f) == b + Repeat('0', zeros) && |b| + zeros <= BUFFER_SIZE
  {
    PaddedIs(b, prec, Minus(width, negative, f), f);
  }

  lemma {:induction false} SignIs(p: seq<char>, negative: bool, f: Format)
    requires |p| <= BUFFER_SIZE
    ensures Reversed(Signed(p, negative, f)) == SignText(|p|, negative, f) + Reversed(p)
  {
    ReversedSign(p, if negative then '-' else if f.plus then '+' else ' ');
    hide Reversed;
    assert "" + Reversed(p) == Reversed(p);
  }

  lemma {:induction false} SpacedIs(p: seq<char>, width: nat, negative: bool, f: Format)
    ensures Emitted(p, Minus(width, negative, f), f) == Spaced(Reversed(p), width, f)
  {
    hide Repeat, Reversed;
  }

  lemma {:induction false} SignJoin(x: seq<char>, n: nat, b: seq<char>)
    ensures x + Reversed(b + Repeat('0', n)) == x + Repeat('0', n) + Reversed(b)
  {
    ReversedFill(b, n);
  }

  lemma {:induction false} FormattedIs(b: seq<char>, negative: bool, base: nat, prec: nat, width: nat, f: Format)
    requires !f.hash
    ensures var w := Minus(width, negative, f);
      Formatted(b, negative, base, prec, width, f) == Emitted(Signed(Padded(b, prec, w, f), negative, f), w, f)
  {
    hide Padded, Signed, Emitted, Minus;
  }

  lemma {:induction false} Layout(b: seq<char>, negative: bool, base: nat, prec: nat, width: nat, f: Format)
    requires !f.hash && |b| <= BUFFER_SIZE
    ensures var zeros := ZeroCount(|b|, negative, prec, width, f);
      Formatted(b, negative, base, prec, width, f) ==
        Spaced(SignText(|b| + zeros, negative, f) + Repeat('0', zeros) + Reversed(b), width, f)
  {
    hide *;
    FormattedIs(b, negative, base, prec, width, f);
    ZerosAre(b, negative, prec, width, f);
    LayoutBy(b, ZeroCount(|b|, negative, prec, width, f), negative, width, f);
  }

  lemma {:induction false} LayoutBy(b: seq<char>, zeros: nat, negative: bool, width: nat, f: Format)
    requires |b| + zeros <= BUFFER_SIZE
    ensures Emitted(Signed(b + Repeat('0', zeros), negative, f), Minus(width, negative, f), f) ==
      Spaced(SignText(|b| + zeros, negative, f) + Repeat('0', zeros) + Reversed(b), width, f)
  {
    var p := b + Repeat('0', zeros);
    assert |p| == |b| + zeros;
    hide *;
    SignIs(p, negative, f);
    SpacedIs(Signed(p, negative, f), width, negative, f);
    SignJoin(SignText(|b| + zeros, negative, f), zeros, b);
  }

  /** Without '#', what is printed is at most one sign, zeros and the digits, in that order, with spaces up to the width
      on the side that the flags say.  The sign is '-' for negative numbers, or else '+' or a space if that is asked
      for; it is left out if digits and zeros fill the buffer. */
  lemma {:induction false} PrintedLayout(value: nat, negative: bool, base: nat, prec: nat, width: nat, f: Format)
    requires 2 <= base <= 36 && (!f.hash || value == 0)
    ensures var digits := if f.precision && value == 0 then "" else
        Reversed(Digits(value, base, f.uppercase, BUFFER_SIZE));
      var signed := negative || f.plus || f.space;
      var fill := if f.zeropad then Most(prec, if signed then width - 1 else width) else prec;
      var zeros := if f.left then 0 else Most(0, Fewest(fill, BUFFER_SIZE) - |digits|);
      var sign := if !signed || |digits| + zeros == BUFFER_SIZE then "" else if negative then "-"
        else if f.plus then "+" else " ";
      var text := sign + Repeat('0', zeros) + digits;
      Printed(value, negative, base, prec, width, f) ==
        if f.left then text + Repeat(' ', width - |text|)
        else if f.zeropad then text
        else Repeat(' ', width - |text|) + text
  {
    hide *;
    var digits := PrintedBy(value, negative, base, prec, width, f);
    Expanded(digits, negative, prec, width, f, f.(hash := false));
  }

  lemma {:induction false} PrintedBy(value: nat, negative: bool, base: nat, prec: nat, width: nat, f: Format)
    returns (digits: seq<char>)
    requires 2 <= base <= 36 && (!f.hash || value == 0)
    ensures digits == if f.precision && value == 0 then "" else
      Reversed(Digits(value, base, f.uppercase, BUFFER_SIZE))
    ensures var zeros := ZeroCount(|digits|, negative, prec, width, f.(hash := false));
      Printed(value, negative, base, prec, width, f) ==
        Spaced(SignText(|digits| + zeros, negative, f.(hash := false)) + Repeat('0', zeros) + digits, width,
               f.(hash := false))
  {
    hide Formatted, Digits, ZeroCount, SignText, Spaced, Repeat;
    var b := if f.precision && value == 0 then [] else Digits(value, base, f.uppercase, BUFFER_SIZE);
    digits := Reversed(b);
    Layout(b, negative, base, prec, width, f.(hash := false));
  }

  lemma {:induction false} Expanded(digits: seq<char>, negative: bool, prec: nat, width: nat, f: Format, g: Format)
    requires g == f.(hash := false)
    ensures var zeros := ZeroCount(|digits|, negative, prec, width, g);
      Spaced(SignText(|digits| + zeros, negative, g) + Repeat('0', zeros) + digits, width, g) ==
        var signed := negative || f.plus || f.space;
        var fill := if f.zeropad then Most(prec, if signed then width - 1 else width) else prec;
        var zeros := if f.left then 0 else Most(0, Fewest(fill, BUFFER_SIZE) - |digits|);
        var sign := if !signed || |digits| + zeros == BUFFER_SIZE then "" else if negative then "-"
          else if f.plus then "+" else " ";
        var text := sign + Repeat('0', zeros) + digits;
        if f.left then text + Repeat(' ', width - |text|)
        else if f.zeropad then text
        else Repeat(' ', width - |text|) + text
  {
    hide Repeat, Most, Fewest;
  }

  /** The width is reached, except by zeros that would not fit the buffer. */
  lemma {:induction false} WidthReached(value: nat, negative: bool, base: nat, prec: nat, width: nat, f: Format)
    requires 2 <= base <= 36 && (!f.hash || value == 0)
    ensures |Printed(value, negative, base, prec, width, f)| >= width <==>
      f.left || !f.zeropad || width <= BUFFER_SIZE
  {
    var digits := PrintedBy(value, negative, base, prec, width, f);
    assert |digits| <= BUFFER_SIZE;
    hide *;
    var g := f.(hash := false);
    var zeros := ZeroCount(|digits|, negative, prec, width, g);
    SpacedLength(SignText(|digits| + zeros, negative, g), zeros, digits, width, g);
    WidthFilled(|digits|, negative, prec, width, f);
  }

  lemma {:induction false} SpacedLength(mark: seq<char>, zeros: nat, digits: seq<char>, width: nat, f: Format)
    ensures var n := |mark| + zeros + |digits|;
      |Spaced(mark + Repeat('0', zeros) + digits, width, f)| == if f.zeropad && !f.left then n else Most(n, width)
  {
  }

  lemma WidthFilled(n: nat, negative: bool, prec: nat, width: nat, f: Format)
    requires n <= BUFFER_SIZE
    ensures var g := f.(hash := false);
      var zeros := ZeroCount(n, negative, prec, width, g);
      var len := |SignText(n + zeros, negative, g)| + zeros + n;
      (if g.zeropad && !g.left then len else Most(len, width)) >= width <==>
        f.left || !f.zeropad || width <= BUFFER_SIZE
  {
  }

  /** Letters among the digits are in the case asked for. */
  lemma {:induction false} DigitCase(value: nat, base: nat, uppercase: bool, room: nat)
    requires 2 <= base <= 36
    ensures forall c | c in Digits(value, base, uppercase, room) ::
      '0' <= c <= '9' || if uppercase then 'A' <= c <= 'Z' else 'a' <= c <= 'z'
    decreases room
  {
    hide Rem, Quot;
    if room > 0 && Quot(value, base) != 0 { DigitCase(Quot(value, base), base, uppercase, room - 1); }
  }

  /** The first digit is not zero unless it is the only one, if there is room for all of them. */
  lemma {:induction false} NoLeadingZero(value: nat, base: nat, uppercase: bool, room: nat)
    requires 2 <= base <= 36 && room > 0 && value < Power(base, room)
    ensures var ds := Digits(value, base, uppercase, room); |ds| > 0 && (|ds| > 1 ==> ds[|ds| - 1] != '0')
    decreases room
  {
    var q := Quot(value, base);
    if q != 0 && room > 1 {
      PowerStep(base, room);
      QuotBelow(value, base, Power(base, room - 1));
      hide Power;
      NoLeadingZero(q, base, uppercase, room - 1);
      LastOf(value, base, uppercase, room);
      if |Digits(q, base, uppercase, room - 1)| == 1 {
        OnlyDigit(q, base, uppercase, room - 1);
      }
    } else {
      LastOf(value, base, uppercase, room);
    }
  }

  lemma LastOf(value: nat, base: nat, uppercase: bool, room: nat)
    requires 2 <= base <= 36 && room > 0
    ensures Digits(value, base, uppercase, room) == [DigitChar(Rem(value, base), uppercase)] +
      if Quot(value, base) == 0 then [] else Digits(Quot(value, base), base, uppercase, room - 1)
    ensures Digits(value, base, uppercase, 0) == []
  {
    hide Rem, Quot, DigitChar;
  }

  lemma OnlyDigit(v: nat, base: nat, uppercase: bool, room: nat)
    requires 2 <= base <= 36 && room > 0 && 0 < v < Power(base, room) && |Digits(v, base, uppercase, room)| == 1
    ensures Digits(v, base, uppercase, room)[0] != '0'
  {
    LastOf(v, base, uppercase, room);
    if room == 1 {
      PowerStep(base, 1);
      assert Power(base, 0) == 1;
    }
    QuotZero(v, base);
    hide Power, Digits;
    NotZeroDigit(v, uppercase);
  }

  lemma QuotZero(v: nat, base: nat)
    requires base > 0
    ensures Quot(v, base) == 0 <==> v < base
    ensures v < base ==> Rem(v, base) == v
  {
  }

  lemma NotZeroDigit(d: nat, uppercase: bool)
    ensures 0 < d < 36 ==> DigitChar(d, uppercase) != '0'
  {
  }

  lemma QuotBelow(v: nat, base: nat, p: nat)
    requires base > 0 && v < base * p
    ensures Quot(v, base) < p
  {
    var q := v / base;
    if q >= p { TimesMono(base, base, p, q); }
  }

  /* ---- strtoll ---- */

  const INT64_MAX := 0x7FFF_FFFF_FFFF_FFFF
  const INT64_MIN := -0x8000_0000_0000_0000

  /** The largest magnitude of a number with this sign. */
  function Limit(negative: bool): nat { if negative then -INT64_MIN else INT64_MAX }

  function Minused(negative: bool, magnitude: int): int { if negative then -magnitude else magnitude }

  predicate Negative(s: seq<char>) { AfterSpaces(s) != "" && AfterSpaces(s)[0] == '-' }

  /** The base and the text of the digits: spaces come first here, then the sign, then the prefix. */
  function Numeral(s: seq<char>, base: nat): (nat, seq<char>) {
    Detected(AfterSign(AfterSpaces(s)), base)
  }

  /** The exact magnitude of the longest run of digits. */
  function Magnitude(s: seq<char>, base: nat): nat {
    var (b, u) := Numeral(s, base);
    Value(u[..DigitRun(u, b)], b)
  }

  /** Some digits are within the limit, but no longer so with a zero after them. */
  ghost predicate OverflowsEarly(u: seq<char>, base: nat, limit: nat) {
    exists n: nat {:trigger u[..n]} ::
      n < DigitRun(u, base) && Value(u[..n], base) <= limit && Value(u[..n], base) * base > limit
  }

  /** strtoll: the exact value if it fits 64 bits with its sign, and the end of the number is stored exactly then.
      Numbers too large give INT64_MAX.  Numbers too small give INT64_MIN if the product overflows, but INT64_MAX if
      only adding the last digit does. */
  method Strtoll(str: seq<char>, base0: nat) returns (result: int, end: End)
    ensures INT64_MIN <= result <= INT64_MAX
    ensures var m, negative := Magnitude(str, base0), Negative(str);
      && (m <= Limit(negative) ==> result == Minused(negative, m))
      && (m > Limit(negative) ==>
           result == if negative && OverflowsEarly(Numeral(str, base0).1, Numeral(str, base0).0, Limit(true))
             then INT64_MIN else INT64_MAX)
      && (end.Unset? <==> m > Limit(negative))
    ensures end.At? ==> var (b, u) := Numeral(str, base0); end.pos <= |str| && str[end.pos..] == u[DigitRun(u, b)..]
  {
    var i := 0;
    while i < |str| && IsSpace(str[i])
      invariant i <= |str| && AfterSpaces(str[i..]) == AfterSpaces(str)
    {
      assert str[i..][1..] == str[i + 1..];
      i := i + 1;
    }
    assert str[i..] == AfterSpaces(str);
    var sign := i < |str| && str[i] == '-';
    if i < |str| && (str[i] == '+' || str[i] == '-') { i := i + 1; }
    assert str[i..] == AfterSign(AfterSpaces(str));
    var base;
    i, base := SkipPrefix(str, i, base0);
    hide AfterSpaces, AfterSign, Detected, DigitRun, Value, OverflowsEarly, IsSpace;
    result, end := AccumulateSigned(str, i, base, sign);
  }

  /** Detecting the base. */
  method SkipPrefix(str: seq<char>, start: nat, base0: nat) returns (i: nat, base: nat)
    requires start <= |str|
    ensures i <= |str| && base > 0 && Detected(str[start..], base0) == (base, str[i..])
  {
    i, base := start, base0;
    if base == 0 {
      if i < |str| && str[i] == '0' {
        i := i + 1;
        if i < |str| && (str[i] == 'x' || str[i] == 'X') {
          i := i + 1;
          base := 16;
        } else {
          base := 8;
        }
      } else {
        base := 10;
      }
    }
  }

  /** The digit loop of strtoll: no intermediate value leaves the range of 64 bits. */
  method AccumulateSigned(str: seq<char>, start: nat, base: nat, sign: bool) returns (result: int, stored: End)
    requires start <= |str| && base > 0
    ensures INT64_MIN <= result <= INT64_MAX
    ensures var u := str[start..];
      var m := Value(u[..DigitRun(u, base)], base);
      && (m <= Limit(sign) ==> result == Minused(sign, m))
      && (m > Limit(sign) ==>
           result == if sign && OverflowsEarly(u, base, Limit(true)) then INT64_MIN else INT64_MAX)
      && (stored.Unset? <==> m > Limit(sign))
    ensures stored.At? ==> stored.pos <= |str| && str[stored.pos..] == str[start..][DigitRun(str[start..], base)..]
  {
    hide Value, DigitRun, IsDigit, DigitValue, OverflowsEarly;
    ghost var u, m: nat := str[start..], 0;
    var end := start;
    result := 0;
    NothingRead(u, base, Limit(sign));
    while end < |str|
      invariant start <= end <= |str| && ReadSoFar(u, base, end - start, m, Limit(sign)) && result == Minused(sign, m)
    {
      ghost var n := end - start;
      assert u[n] == str[end];
      var c := DigitValue(str[end]);
      if c == -1 || c >= base {
        StopsHere(u, base, n, m, Limit(sign));
        return result, At(end);
      }
      NextRead(u, base, n, m, c, Limit(sign));
      Overflows(m, base, Limit(sign));
      WhereOverflows(u, base, n, m, c, Limit(sign));
      var fits;
      result, fits := AddDigit(result, base, c, sign, m);
      if !fits { return result, Unset; }
      m := m * base + c;
      end := end + 1;
    }
    StopsHere(u, base, end - start, m, Limit(sign));
    stored := At(end);
  }

  /** One more digit; if it does not fit, what is returned. */
  method AddDigit(result0: int, base: nat, c: int, sign: bool, ghost m: nat) returns (result: int, fits: bool)
    requires result0 == Minused(sign, m) && m <= Limit(sign) && 0 <= c < base
    ensures fits <==> m * base + c <= Limit(sign)
    ensures fits ==> result == Minused(sign, m * base + c)
    ensures !fits ==> result == if sign && m * base > Limit(true) then INT64_MIN else INT64_MAX
  {
    Overflows(m, base, Limit(sign));
    MinusedTimes(sign, m, base);
    if !sign {
      if result0 > INT64_MAX / base { return INT64_MAX, false; }
      result := result0 * base;
      if result > INT64_MAX - c { return INT64_MAX, false; }
      result := result + c;
    } else {
      // C division rounds towards zero
      if result0 < -(-INT64_MIN / base) { return INT64_MIN, false; }
      result := result0 * base;
      if result < INT64_MIN + c { return INT64_MAX, false; }
      result := result - c;
    }
    fits := true;
  }

  lemma MinusedTimes(sign: bool, m: nat, base: nat)
    ensures Minused(sign, m) * base == Minused(sign, m * base)
  {
  }

  /** The digit at which the limit is passed, if it is, decides how. */
  lemma WhereOverflows(u: seq<char>, base: nat, n: nat, m: nat, c: int, limit: nat)
    requires ReadSoFar(u, base, n, m, limit) && base > 0 && n < |u| && c == DigitValue(u[n]) && 0 <= c < base
    ensures m * base > limit ==> OverflowsEarly(u, base, limit)
    ensures m * base <= limit && m * base + c > limit ==> !OverflowsEarly(u, base, limit)
  {
    assert u[..n + 1] == u[..n] + [u[n]];
    assert IsDigit(u[n], base);
    ValueSnoc(u[..n], u[n], base);
    RunAtLeast(u, n + 1, base);
    hide Value, DigitRun, DigitValue, IsDigit;
    if m * base <= limit && m * base + c > limit {
      forall k: nat | k < DigitRun(u, base) && Value(u[..k], base) <= limit
        ensures Value(u[..k], base) * base <= limit
      {
        assert forall d | d in u[..DigitRun(u, base)] :: IsDigit(d, base);
        if k > n {
          ValueGrows(u, n + 1, k, base);
        } else {
          ValueGrows(u, k, n, base);
          TimesMono(Value(u[..k], base), m, base, base);
        }
      }
    }
  }

  /** Zeros at the end multiply by powers of the base. */
  lemma {:induction false} TrailingZeros(s: seq<char>, n: nat, base: nat)
    requires base > 0 && forall c | c in s :: IsDigit(c, base)
    ensures forall c | c in s + Repeat('0', n) :: IsDigit(c, base)
    ensures Value(s + Repeat('0', n), base) == Value(s, base) * Power(base, n)
  {
    if n == 0 {
      assert s + Repeat('0', 0) == s;
    } else {
      TrailingZeros(s, n - 1, base);
      hide *;
      var t := s + Repeat('0', n - 1);
      OneMoreZero(s, n);
      PowerStep(base, n);
      ZeroDigit(t, base);
      Regroup(Value(s, base), Power(base, n - 1), base);
    }
  }

  lemma {:induction false} OneMoreZero(s: seq<char>, n: nat)
    requires n > 0
    ensures s + Repeat('0', n) == s + Repeat('0', n - 1) + ['0']
  {
  }

  lemma ZeroDigit(t: seq<char>, base: nat)
    requires base > 0 && forall c | c in t :: IsDigit(c, base)
    ensures (forall c | c in t + ['0'] :: IsDigit(c, base)) && Value(t + ['0'], base) == Value(t, base) * base
  {
    ValueSnoc(t, '0', base);
  }

  lemma Regroup(a: nat, p: nat, b: nat)
    ensures (a * p) * b == a * (b * p)
  {
  }

  /** The number below INT64_MIN, which strtoll reads as INT64_MAX. */
  lemma {:induction false} JustTooSmall()
    ensures var s := "-" + ("8" + Repeat('0', 14) + "1");
      Magnitude(s, 16) == -INT64_MIN + 1 && Negative(s) && Numeral(s, 16) == (16, s[1..])
      && !OverflowsEarly(s[1..], 16, Limit(true))
  {
    var t := "8" + Repeat('0', 14);
    var u := t + "1";
    EightZeros(t);
    ValueSnoc(t, '1', 16);
    assert u[..|t|] == t && DigitValue('1') == 1;
    hide Value, DigitRun, IsDigit, OverflowsEarly, Repeat;
    WhereOverflows(u, 16, |t|, Value(t, 16), 1, Limit(true));
    RunOf(u, 0, 16);
    assert u + Repeat(' ', 0) == u;
    assert ("-" + u)[1..] == u;
    MagnitudeAs("-" + u, u, 16, u);
  }

  lemma {:induction false} EightZeros(t: seq<char>)
    requires t == "8" + Repeat('0', 14)
    ensures (forall c | c in t + "1" :: IsDigit(c, 16)) && Value(t, 16) == 0x800_0000_0000_0000
  {
    assert IsDigit('8', 16) && IsDigit('1', 16) && IsDigit('0', 16);
    OneEight();
    SixteenPower();
    hide Value, Power;
    TrailingZeros("8", 14, 16);
  }

  lemma OneEight()
    ensures IsDigit('8', 16) && Value("8", 16) == 8
  {
    EmptyValue(16);
    ValueSnoc("", '8', 16);
    assert "" + ['8'] == "8";
  }

  lemma SixteenPower()
    ensures Power(16, 14) == 0x100_0000_0000_0000
  {
    assert Power(16, 7) == 0x1000_0000;
    hide Power;
    PowerSum(16, 7, 7);
  }

  /* ---- There and back ---- */

  lemma MagnitudeAs(text: seq<char>, v: seq<char>, base: nat, ds: seq<char>)
    requires base > 0 && AfterSign(AfterSpaces(text)) == v && DigitRun(v, base) == |ds| <= |v| && v[..|ds|] == ds
    ensures forall c | c in ds :: IsDigit(c, base)
    ensures Numeral(text, base) == (base, v) && Magnitude(text, base) == Value(ds, base)
  {
    hide AfterSpaces, AfterSign;
  }

  lemma ParsedAs(text: seq<char>, u: seq<char>, base: nat, ds: seq<char>)
    requires base > 0 && AfterSpaces(AfterSign(text)) == u && DigitRun(u, base) == |ds| <= |u| && u[..|ds|] == ds
    ensures forall c | c in ds :: IsDigit(c, base)
    ensures Parsed(text, base) == Saturated(Value(ds, base))
  {
    hide AfterSpaces, AfterSign, Saturated;
  }

  lemma RunOf(ds: seq<char>, after: nat, base: nat)
    requires 2 <= base <= 36 && forall c | c in ds :: IsDigit(c, base)
    ensures var rest := ds + Repeat(' ', after); DigitRun(rest, base) == |ds| && rest[..|ds|] == ds
  {
    var rest := ds + Repeat(' ', after);
    assert rest[..|ds|] == ds;
    assert |rest| > |ds| ==> rest[|ds|] == ' ';
    RunIs(rest, base, |ds|);
  }

  /** What follows the spaces before digits that are followed by spaces. */
  lemma {:induction false} AfterFirst(before: nat, ds: seq<char>, after: nat, base: nat)
    requires 2 <= base <= 36 && forall c | c in ds :: IsDigit(c, base)
    ensures var u := AfterSpaces(Repeat(' ', before) + (ds + Repeat(' ', after)));
      DigitRun(u, base) == |ds| <= |u| && u[..|ds|] == ds && (u == "" || (u[0] != '-' && u[0] != '+'))
  {
    var rest := ds + Repeat(' ', after);
    RunOf(ds, after, base);
    hide DigitRun, IsDigit, AfterSpaces;
    if ds == [] {
      SpacesJoin(before, after);
      assert Repeat(' ', before) + rest == Repeat(' ', before + after) + [];
      SpacesSkipped(before + after, []);
      RunOf([], 0, base);
      assert [] + Repeat(' ', 0) == [];
    } else {
      assert rest[0] == ds[0] && ds[0] in ds;
      DigitNoSpace(ds[0], base);
      SpacesSkipped(before, rest);
    }
  }

  /** A sign and digits between spaces, read by strtoll and by strtoull. */
  lemma {:induction false} SignedNumeral(before: nat, sign: seq<char>, ds: seq<char>, after: nat, base: nat)
    requires 2 <= base <= 36 && (forall c | c in ds :: IsDigit(c, base)) && (sign == "-" || sign == "+")
    ensures var text := Repeat(' ', before) + (sign + (ds + Repeat(' ', after)));
      Magnitude(text, base) == Value(ds, base) && (Negative(text) <==> sign == "-")
      && Parsed(text, base) == if before > 0 then 0 else Saturated(Value(ds, base))
  {
    var rest := ds + Repeat(' ', after);
    var text := Repeat(' ', before) + (sign + rest);
    RunOf(ds, after, base);
    AfterFirst(0, ds, after, base);
    assert Repeat(' ', 0) + rest == rest;
    SignSkipped(before, sign, rest, base);
    hide DigitRun, IsDigit, Value, AfterSpaces, AfterSign, Repeat, Saturated;
    MagnitudeAs(text, rest, base, ds);
    if before == 0 {
      ParsedAs(text, AfterSpaces(rest), base, ds);
    } else {
      ParsedAs(text, sign + rest, base, []);
      NothingIsZero(base);
    }
  }

  lemma NothingIsZero(base: nat)
    ensures Saturated(Value([], base)) == 0
  {
  }

  lemma {:induction false} SignSkipped(before: nat, sign: seq<char>, rest: seq<char>, base: nat)
    requires sign == "-" || sign == "+"
    ensures var text := Repeat(' ', before) + (sign + rest);
      && AfterSpaces(text) == sign + rest && AfterSign(AfterSpaces(text)) == rest && (Negative(text) <==> sign == "-")
      && (before == 0 ==> AfterSign(text) == rest)
      && (before > 0 ==> AfterSpaces(AfterSign(text)) == sign + rest && DigitRun(sign + rest, base) == 0)
  {
    var text := Repeat(' ', before) + (sign + rest);
    SpacesSkipped(before, sign + rest);
    assert (sign + rest)[1..] == rest;
    if before == 0 { assert text == sign + rest; }
    if before > 0 { assert text[0] == ' '; }
  }

  /** Digits between spaces. */
  lemma {:induction false} PlainNumeral(before: nat, ds: seq<char>, after: nat, base: nat)
    requires 2 <= base <= 36 && forall c | c in ds :: IsDigit(c, base)
    ensures var text := Repeat(' ', before) + (ds + Repeat(' ', after));
      Magnitude(text, base) == Value(ds, base) && !Negative(text) && Parsed(text, base) == Saturated(Value(ds, base))
  {
    var text := Repeat(' ', before) + (ds + Repeat(' ', after));
    AfterFirst(before, ds, after, base);
    assert text == Repeat(' ', before) + ds + Repeat(' ', after);
    SpacedDigits(before, ds, after, base);
    hide DigitRun, IsDigit, Value, AfterSpaces, Repeat, Parsed;
    MagnitudeAs(text, AfterSpaces(text), base, ds);
  }

  /** Text with spaces on one side of it; a space in place of a sign is one of them. */
  lemma {:induction false} Sides(mark: seq<char>, ds: seq<char>, width: int, f: Format)
    returns (before: nat, sign: seq<char>, after: nat)
    requires mark == "" || mark == "-" || mark == "+" || mark == " "
    ensures Spaced(mark + ds, width, f) == Repeat(' ', before) + (sign + (ds + Repeat(' ', after)))
    ensures sign == if mark == " " then "" else mark
  {
    var n := Most(0, width - |mark + ds|);
    before, after := if f.left || f.zeropad then 0 else n, if f.left then n else 0;
    assert Repeat(' ', width - |mark + ds|) == Repeat(' ', n);
    sign := if mark == " " then "" else mark;
    assert Spaced(mark + ds, width, f) == Repeat(' ', before) + (mark + (ds + Repeat(' ', after)));
    if mark == " " {
      assert Repeat(' ', before + 1) == Repeat(' ', before) + " ";
      assert Repeat(' ', before) + (mark + (ds + Repeat(' ', after))) ==
        Repeat(' ', before + 1) + (sign + (ds + Repeat(' ', after)));
      before := before + 1;
    }
  }

  /** The spaces, the sign and the digits of a printed number. */
  lemma {:induction false} Parts(value: nat, negative: bool, base: nat, prec: nat, width: nat, f: Format)
    returns (before: nat, sign: seq<char>, ds: seq<char>, after: nat)
    requires 2 <= base <= 36 && (!f.hash || value == 0)
    ensures Printed(value, negative, base, prec, width, f) ==
      Repeat(' ', before) + (sign + (ds + Repeat(' ', after)))
    ensures forall c | c in ds :: IsDigit(c, base)
    ensures Power(base, BUFFER_SIZE) > 0 && Value(ds, base) == Rem(value, Power(base, BUFFER_SIZE))
    ensures var n := if f.precision && value == 0 then 0 else |Digits(value, base, f.uppercase, BUFFER_SIZE)|;
      |ds| == n + ZeroCount(n, negative, prec, width, f.(hash := false)) <= BUFFER_SIZE
    ensures sign == if |ds| >= BUFFER_SIZE then "" else if negative then "-" else if f.plus then "+" else ""
  {
    var g := f.(hash := false);
    var digits := PrintedBy(value, negative, base, prec, width, f);
    DigitsIn(value, base, f, digits);
    var n := if f.precision && value == 0 then 0 else |Digits(value, base, f.uppercase, BUFFER_SIZE)|;
    assert |digits| == n <= BUFFER_SIZE;
    hide *;
    MarkIs(n, negative, prec, width, f);
    var zeros := ZeroCount(n, negative, prec, width, g);
    before, sign, ds, after := PartsBy(SignText(n + zeros, negative, g), zeros, digits, width, g, base);
  }

  lemma MarkIs(n: nat, negative: bool, prec: nat, width: nat, f: Format)
    requires n <= BUFFER_SIZE
    ensures var g := f.(hash := false);
      var len := n + ZeroCount(n, negative, prec, width, g);
      var mark := SignText(len, negative, g);
      && len <= BUFFER_SIZE && (mark == "" || mark == "-" || mark == "+" || mark == " ")
      && (if mark == " " then "" else mark) ==
           if len >= BUFFER_SIZE then "" else if negative then "-" else if f.plus then "+" else ""
  {
    assert n + ZeroCount(n, negative, prec, width, f.(hash := false)) <= BUFFER_SIZE;
    hide ZeroCount;
  }

  lemma Grouped(a: seq<char>, b: seq<char>, c: seq<char>)
    ensures a + b + c == a + (b + c)
  {
  }

  lemma {:induction false} PartsBy(mark: seq<char>, zeros: nat, digits: seq<char>, width: int, f: Format, base: nat)
    returns (before: nat, sign: seq<char>, ds: seq<char>, after: nat)
    requires mark == "" || mark == "-" || mark == "+" || mark == " "
    requires 2 <= base && forall c | c in digits :: IsDigit(c, base)
    ensures Spaced(mark + Repeat('0', zeros) + digits, width, f) ==
      Repeat(' ', before) + (sign + (ds + Repeat(' ', after)))
    ensures (forall c | c in ds :: IsDigit(c, base)) && Value(ds, base) == Value(digits, base)
    ensures |ds| == zeros + |digits| && sign == if mark == " " then "" else mark
  {
    ds := Repeat('0', zeros) + digits;
    hide *;
    LeadingZeros(zeros, digits, base);
    Grouped(mark, Repeat('0', zeros), digits);
    before, sign, after := Sides(mark, ds, width, f);
  }

  lemma DigitsIn(value: nat, base: nat, f: Format, digits: seq<char>)
    requires 2 <= base <= 36
    requires digits == if f.precision && value == 0 then "" else
      Reversed(Digits(value, base, f.uppercase, BUFFER_SIZE))
    ensures forall c | c in digits :: IsDigit(c, base)
    ensures Power(base, BUFFER_SIZE) > 0 && Value(digits, base) == Rem(value, Power(base, BUFFER_SIZE))
  {
    DigitsValue(value, base, f.uppercase, BUFFER_SIZE);
    ZeroMod(Power(base, BUFFER_SIZE));
    EmptyValue(base);
    hide *;
  }

  /** The sign is written exactly if there is room for it beside digits and zeros, and nowhere else is there one. */
  lemma {:induction false} SignWritten(value: nat, negative: bool, base: nat, prec: nat, width: nat, f: Format)
    requires 2 <= base <= 36 && (!f.hash || value == 0)
    ensures var n := if f.precision && value == 0 then 0 else |Digits(value, base, f.uppercase, BUFFER_SIZE)|;
      var signed := negative || f.plus || f.space;
      var fill := if f.left then 0 else if f.zeropad then Most(prec, if signed then width - 1 else width) else prec;
      var text := Printed(value, negative, base, prec, width, f);
      && ('-' in text <==> negative && n < BUFFER_SIZE && fill < BUFFER_SIZE)
      && ('+' in text <==> !negative && f.plus && n < BUFFER_SIZE && fill < BUFFER_SIZE)
  {
    var before, sign, ds, after := Parts(value, negative, base, prec, width, f);
    var n := if f.precision && value == 0 then 0 else |Digits(value, base, f.uppercase, BUFFER_SIZE)|;
    RoomLeft(n, negative, prec, width, f);
    hide Printed, Digits, Value, Power, ZeroCount, Rem;
    SignsIn(before, sign, ds, after, base);
  }

  lemma RoomLeft(n: nat, negative: bool, prec: nat, width: nat, f: Format)
    requires n <= BUFFER_SIZE
    ensures var fill := if f.left then 0 else if f.zeropad then
        Most(prec, if negative || f.plus || f.space then width - 1 else width) else prec;
      n + ZeroCount(n, negative, prec, width, f.(hash := false)) >= BUFFER_SIZE <==>
        n >= BUFFER_SIZE || fill >= BUFFER_SIZE
  {
  }

  lemma {:induction false} SignsIn(before: nat, sign: seq<char>, ds: seq<char>, after: nat, base: nat)
    requires forall c | c in ds :: IsDigit(c, base)
    ensures var text := Repeat(' ', before) + (sign + (ds + Repeat(' ', after)));
      ('-' in text <==> '-' in sign) && ('+' in text <==> '+' in sign)
  {
    hide Repeat, IsDigit;
    forall c | c in ds ensures c != '-' && c != '+' { DigitNoSpace(c, base); }
  }

  /** Reading a printed number back.  strtoll gets its magnitude, modulo base ^ 32, and its sign if that was written.
      strtoull, which looks for a sign before it skips spaces, gets the magnitude too, but 0 if there are both. */
  lemma {:induction false} ReadBack(value: nat, negative: bool, base: nat, prec: nat, width: nat, f: Format)
    requires 2 <= base <= 36 && value <= UINT64_MAX && (!f.hash || value == 0)
    ensures Power(base, BUFFER_SIZE) > 0
    ensures var text := Printed(value, negative, base, prec, width, f);
      && Magnitude(text, base) == Rem(value, Power(base, BUFFER_SIZE))
      && (Negative(text) <==> '-' in text)
      && Parsed(text, base) ==
           if text != "" && text[0] == ' ' && ('-' in text || '+' in text) then 0
           else Rem(value, Power(base, BUFFER_SIZE))
  {
    var before, sign, ds, after := Parts(value, negative, base, prec, width, f);
    RemAtMost(value, Power(base, BUFFER_SIZE));
    var text := Printed(value, negative, base, prec, width, f);
    hide Printed, Digits, Value, Power, Rem, ZeroCount, Magnitude, Parsed, Negative, Repeat;
    SignsIn(before, sign, ds, after, base);
    if sign == "" {
      PlainNumeral(before, ds, after, base);
      assert "" + (ds + Repeat(' ', after)) == ds + Repeat(' ', after);
    } else {
      SignedNumeral(before, sign, ds, after, base);
      FirstChar(before, sign, ds + Repeat(' ', after));
    }
  }

  lemma FirstChar(before: nat, sign: seq<char>, rest: seq<char>)
    requires sign == "-" || sign == "+"
    ensures var text := Repeat(' ', before) + (sign + rest); text != "" && (text[0] == ' ' <==> before > 0)
  {
  }

  /** So for numbers of 64 bits with a sign, printing and strtoll are a round trip exactly if the number has at most 32
      digits, and its sign, if it is negative, was written. */
  lemma {:induction false} SignedRoundTrip(value: nat, negative: bool, base: nat, prec: nat, width: nat, f: Format)
    requires 2 <= base <= 36 && value <= Limit(negative) && (!f.hash || value == 0)
    ensures var text := Printed(value, negative, base, prec, width, f);
      Minused(Negative(text), Magnitude(text, base)) == Minused(negative, value) <==>
        value < Power(base, BUFFER_SIZE) && (negative && value > 0 ==> '-' in text)
  {
    ReadBack(value, negative, base, prec, width, f);
    SignWritten(value, negative, base, prec, width, f);
    RemAtMost(value, Power(base, BUFFER_SIZE));
    hide Printed, Digits, Power, Rem, Magnitude, Negative;
  }

  /* ---- '#' ---- */

  /** Where the digits come from a prefix that strtoull is to detect. */
  lemma {:induction false} Prefixed(sign: seq<char>, ds: seq<char>, base: nat)
    requires sign == "" || sign == "-" || sign == "+"
    requires (base == 8 || base == 10 || base == 16) && forall c | c in ds :: IsDigit(c, base)
    ensures base == 16 ==> Parsed(sign + ("0x" + ds), 0) == Parsed(sign + ("0X" + ds), 0) == Saturated(Value(ds, 16))
    ensures base == 8 ==> Parsed(sign + ("0" + ds), 0) == Saturated(Value(ds, 8))
    ensures base == 10 && ds != "" && ds[0] != '0' ==> Parsed(sign + ds, 0) == Saturated(Value(ds, 10))
  {
    AfterFirst(0, ds, 0, base);
    assert Repeat(' ', 0) + (ds + Repeat(' ', 0)) == ds;
    if base == 16 {
      SignGone(sign, "0x" + ds);
      SignGone(sign, "0X" + ds);
      assert ("0x" + ds)[2..] == ds && ("0X" + ds)[2..] == ds;
      DetectedAs(sign + ("0x" + ds), 16, ds);
      DetectedAs(sign + ("0X" + ds), 16, ds);
    } else if base == 8 {
      SignGone(sign, "0" + ds);
      assert ("0" + ds)[1..] == ds;
      if ds != "" { assert IsDigit(ds[0], 8); }
      DetectedAs(sign + ("0" + ds), 8, ds);
    } else if ds != "" && ds[0] != '0' {
      DigitNoSpace(ds[0], 10);
      SignGone(sign, ds);
      DetectedAs(sign + ds, 10, ds);
    }
  }

  lemma SignGone(sign: seq<char>, rest: seq<char>)
    requires sign == "" || sign == "-" || sign == "+"
    requires rest != "" && rest[0] != '-' && rest[0] != '+'
    ensures AfterSign(sign + rest) == rest
  {
    if sign == "" { assert sign + rest == rest; } else { assert (sign + rest)[1..] == rest; }
  }

  lemma DetectedAs(text: seq<char>, base: nat, ds: seq<char>)
    requires Detected(AfterSign(text), 0) == (base, ds) && base > 0
    requires var u := AfterSpaces(ds); DigitRun(u, base) == |ds| <= |u| && u[..|ds|] == ds
    ensures forall c | c in ds :: IsDigit(c, base)
    ensures Parsed(text, 0) == Saturated(Value(ds, base))
  {
    hide AfterSpaces, AfterSign, Saturated, Detected;
  }

  /** A number has at most n digits if it is below base ^ n. */
  lemma {:induction false} AtMost(v: nat, base: nat, uppercase: bool, room: nat, n: nat)
    requires 2 <= base <= 36 && 0 < n && v < Power(base, n)
    ensures |Digits(v, base, uppercase, room)| <= n
    decreases room
  {
    if room > 0 {
      LastOf(v, base, uppercase, room);
      PowerStep(base, n);
      QuotBelow(v, base, Power(base, n - 1));
      if n == 1 { assert Power(base, 0) == 1; }
      hide Digits, Quot;
      if Quot(v, base) != 0 { AtMost(Quot(v, base), base, uppercase, room - 1, n - 1); }
    }
  }

  lemma FewDigits(value: nat, base: nat, uppercase: bool)
    requires value <= UINT64_MAX && (base == 8 || base == 16)
    ensures |Digits(value, base, uppercase, BUFFER_SIZE)| <= 24
  {
    assert Power(8, 6) == 0x4_0000 && Power(16, 6) == 0x100_0000;
    PowerSum(8, 6, 6);
    PowerSum(8, 12, 12);
    PowerSum(16, 6, 6);
    PowerSum(16, 12, 12);
    AtMost(value, base, uppercase, BUFFER_SIZE, 24);
  }

  /** With '#', octal and hexadecimal numbers are printed so that their base can be detected. */
  lemma {:induction false} PrefixRoundTrip(value: nat, negative: bool, base: nat, f: Format)
    requires 0 < value <= UINT64_MAX && (base == 8 || base == 16) && f.hash && !f.space
    ensures Parsed(Printed(value, negative, base, 0, 0, f), 0) == value
  {
    var b := Digits(value, base, f.uppercase, BUFFER_SIZE);
    FewDigits(value, base, f.uppercase);
    DigitsValue(value, base, f.uppercase, BUFFER_SIZE);
    EnoughDigits(base);
    RemAtMost(value, Power(base, BUFFER_SIZE));
    HashText(b, negative, base, f);
    hide Digits, Value, Rem, Power, Parsed, IsDigit, Formatted;
    Prefixed(if negative then "-" else if f.plus then "+" else "", Reversed(b), base);
  }

  lemma {:induction false} HashText(b: seq<char>, negative: bool, base: nat, f: Format)
    requires 0 < |b| <= 24 && (base == 8 || base == 16) && f.hash && !f.space
    ensures Formatted(b, negative, base, 0, 0, f) ==
      (if negative then "-" else if f.plus then "+" else "")
        + ((if base == 8 then "0" else if f.uppercase then "0X" else "0x") + Reversed(b))
  {
    HashMarks(b, base, f);
    var marks := if base == 8 then "0" else if f.uppercase then "X0" else "x0";
    SignIs(b + marks, negative, f);
    hide Padded, Hashed, Signed, Reversed;
    SpacedIs(Signed(b + marks, negative, f), 0, negative, f);
    NoSpaces(Reversed(Signed(b + marks, negative, f)), f);
    hide Emitted, Spaced;
  }

  lemma {:induction false} HashMarks(b: seq<char>, base: nat, f: Format)
    requires 0 < |b| <= 24 && (base == 8 || base == 16) && f.hash
    ensures var marks := if base == 8 then "0" else if f.uppercase then "X0" else "x0";
      Hashed(Padded(b, 0, 0, f), base, 0, 0, f) == b + marks
      && Reversed(b + marks) == (if base == 8 then "0" else if f.uppercase then "0X" else "0x") + Reversed(b)
  {
    Unpadded(b, f);
    HashedIs(b, base, f);
    hide *;
    if base == 8 {
      ReversedMarks(b, 'x');
    } else if f.uppercase {
      ReversedMarks(b, 'X');
    } else {
      ReversedMarks(b, 'x');
    }
  }

  lemma HashedIs(b: seq<char>, base: nat, f: Format)
    requires 0 < |b| <= 24 && (base == 8 || base == 16) && f.hash
    ensures Hashed(b, base, 0, 0, f) ==
      if base == 8 then b + ['0'] else b + [if f.uppercase then 'X' else 'x', '0']
  {
    assert Shortened(b, base, 0, 0, f) == b;
    var c := b + [if f.uppercase then 'X' else 'x'];
    assert c + ['0'] == b + [if f.uppercase then 'X' else 'x', '0'];
    assert Marked(b, base, f) == if base == 8 then b else c;
  }

  lemma Unpadded(b: seq<char>, f: Format)
    requires 0 < |b| <= 24
    ensures Padded(b, 0, 0, f) == b
  {
  }

  lemma ReversedMarks(b: seq<char>, x: char)
    ensures Reversed(b + [x, '0']) == ['0', x] + Reversed(b) && Reversed(b + "0") == "0" + Reversed(b)
  {
    ReversedSign(b, x);
    ReversedSign(b + [x], '0');
    ReversedSign(b, '0');
    assert b + [x] + ['0'] == b + [x, '0'];
    hide Reversed;
  }

  lemma NoSpaces(text: seq<char>, f: Format)
    ensures Spaced(text, 0, f) == text
  {
    assert Repeat(' ', 0 - |text|) == "";
  }

  /** Zeros that fill the width make way for the prefix.  If there are none, digits do: all digits are kept if and only
      if the width is not just filled, or filled with enough zeros. */
  lemma {:induction false} HashKeepsDigits(b: seq<char>, negative: bool, base: nat, width: nat, f: Format)
    requires 0 < |b| <= BUFFER_SIZE && f.hash && !f.precision
    ensures var w := Minus(width, negative, f);
      var filled := if f.zeropad && !f.left then |b| <= w <= BUFFER_SIZE else |b| == w;
      b <= Shortened(Padded(b, 0, w, f), base, 0, w, f) <==> !filled || w - |b| >= if base == 16 && w > 1 then 2 else 1
  {
    var w := Minus(width, negative, f);
    PaddedIs(b, 0, w, f);
  }

  /** So "%#4x" of 0x1234 loses two digits. */
  lemma HashLosesDigits()
    ensures Printed(0x1234, false, 16, 0, 4, Format(false, false, false, false, true, false, false)) == "0x34"
  {
    var f := Format(false, false, false, false, true, false, false);
    LastOf(0x1234, 16, false, 32);
    LastOf(0x123, 16, false, 31);
    LastOf(0x12, 16, false, 30);
    LastOf(0x1, 16, false, 29);
    var b := Digits(0x1234, 16, false, 32);
    assert b == "4321" by { hide Digits; }
    hide Digits;
    assert Padded(b, 0, 4, f) == b;
    assert Hashed(b, 16, 0, 4, f) == "43x0";
    assert Reversed("43x0") == "0x34";
    assert Emitted("43x0", 4, f) == "0x34";
  }
}
