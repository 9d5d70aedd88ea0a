/** Printing a number into a bounded buffer (lib/mp-printf.c) and reading one back (lib/stdlib.c). */
module Numbers {
  const BUFFER_SIZE := 32
  const UINT64_MAX := 0xFFFF_FFFF_FFFF_FFFF

  /** FLAGS_* */
  datatype Format = Format(zeropad: bool, left: bool, plus: bool, space: bool, hash: bool, uppercase: bool,
    precision: bool)

  /* ---- What text means ---- */

  function DigitChar(d: nat, uppercase: bool): char
    requires d < 36
  {
    if d < 10 then '0' + d as char else (if uppercase then 'A' else 'a') + (d - 10) as char
  }

  /** The value of a digit or letter in either case, or -1. */
  function DigitValue(c: char): (d: int)
    ensures -1 <= d < 36
  {
    if '0' <= c <= '9' then c as int - '0' as int
    else if 'A' <= c <= 'Z' then c as int - 'A' as int + 10
    else if 'a' <= c <= 'z' then c as int - 'a' as int + 10
    else -1
  }

  predicate IsDigit(c: char, base: nat) { 0 <= DigitValue(c) < base }

  /** The number written by a string of digits, most significant first. */
  function Value(s: seq<char>, base: nat): (v: nat)
    requires forall c | c in s :: IsDigit(c, base)
  {
    if s == [] then 0 else
      var last := s[|s| - 1];
      assert IsDigit(last, base);
      Value(s[..|s| - 1], base) * base + DigitValue(last)
  }

  function Repeat(c: char, n: int): (s: seq<char>)
    ensures |s| == if n < 0 then 0 else n
    ensures forall k | 0 <= k < |s| :: s[k] == c
  {
    if n <= 0 then [] else Repeat(c, n - 1) + [c]
  }

  function Reversed(s: seq<char>): (r: seq<char>)
    ensures |r| == |s| && forall k | 0 <= k < |s| :: r[k] == s[|s| - 1 - k]
  {
    if s == [] then [] else Reversed(s[1..]) + [s[0]]
  }

  function Power(b: nat, n: nat): nat {
    if n == 0 then 1 else b * Power(b, n - 1)
  }

  /** The quotient and the remainder of a by b. */
  function Quot(a: nat, b: nat): nat
    requires b > 0
  {
    a / b
  }

  function Rem(a: nat, b: nat): (r: nat)
    requires b > 0
    ensures r < b
  {
    a % b
  }

  /** The digits of v, least significant first, as many as there is room for. */
  function Digits(v: nat, base: nat, uppercase: bool, room: nat): (s: seq<char>)
    requires 2 <= base <= 36
    ensures |s| <= room && (room > 0 ==> |s| > 0)
    decreases room
  {
    if room == 0 then [] else
      [DigitChar(Rem(v, base), uppercase)] +
        if Quot(v, base) == 0 then [] else Digits(Quot(v, base), base, uppercase, room - 1)
  }

  lemma DigitBack(d: nat, uppercase: bool)
    requires d < 36
    ensures DigitValue(DigitChar(d, uppercase)) == d
  {
  }

  lemma {:induction false} DigitsValid(v: nat, base: nat, uppercase: bool, room: nat)
    requires 2 <= base <= 36
    ensures forall c | c in Digits(v, base, uppercase, room) :: IsDigit(c, base)
    decreases room
  {
    if room > 0 {
      hide Rem, Quot, DigitChar;
      DigitBack(Rem(v, base), uppercase);
      if Quot(v, base) != 0 { DigitsValid(Quot(v, base), base, uppercase, room - 1); }
    }
  }

  /** All digits but the last. */
  function Higher(v: nat, base: nat, uppercase: bool, room: nat): seq<char>
    requires 2 <= base <= 36 && room > 0
  {
    if Quot(v, base) == 0 then [] else Digits(Quot(v, base), base, uppercase, room - 1)
  }

  lemma LastDigit(v: nat, base: nat, uppercase: bool, room: nat)
    requires 2 <= base <= 36 && room > 0
    ensures Reversed(Digits(v, base, uppercase, room)) ==
      Reversed(Higher(v, base, uppercase, room)) + [DigitChar(Rem(v, base), uppercase)]
    ensures IsDigit(DigitChar(Rem(v, base), uppercase), base)
    ensures DigitValue(DigitChar(Rem(v, base), uppercase)) == Rem(v, base)
    ensures Quot(v, base) == 0 ==> Reversed(Higher(v, base, uppercase, room)) == []
    ensures Quot(v, base) != 0 ==> Higher(v, base, uppercase, room) == Digits(Quot(v, base), base, uppercase, room - 1)
  {
    hide Rem, Quot, DigitChar, DigitValue;
    DigitBack(Rem(v, base), uppercase);
    ReversedCons(DigitChar(Rem(v, base), uppercase), Higher(v, base, uppercase, room));
  }

  lemma ReversedCons(c: char, s: seq<char>)
    ensures Reversed([c] + s) == Reversed(s) + [c]
  {
    assert ([c] + s)[1..] == s;
  }

  /** Read most significant first, the digits that fit give the number modulo base ^ room. */
  lemma {:induction false} DigitsValue(v: nat, base: nat, uppercase: bool, room: nat)
    requires 2 <= base <= 36
    ensures forall c | c in Reversed(Digits(v, base, uppercase, room)) :: IsDigit(c, base)
    ensures Power(base, room) > 0
    ensures Value(Reversed(Digits(v, base, uppercase, room)), base) == Rem(v, Power(base, room))
    decreases room
  {
    hide *;
    if room == 0 {
      NoDigits(v, base, uppercase);
      EmptyValue(base);
      ModOne(v);
    } else {
      DigitsValue(Quot(v, base), base, uppercase, room - 1);
      PowerStep(base, room);
      DigitsStep(v, base, uppercase, room, Power(base, room - 1));
    }
  }

  lemma NoDigits(v: nat, base: nat, uppercase: bool)
    requires 2 <= base <= 36
    ensures Reversed(Digits(v, base, uppercase, 0)) == [] && Power(base, 0) == 1
  {
  }

  lemma PowerStep(base: nat, room: nat)
    requires room > 0
    ensures Power(base, room) == base * Power(base, room - 1)
  {
  }

  lemma DigitsStep(v: nat, base: nat, uppercase: bool, room: nat, p: nat)
    requires 2 <= base <= 36 && room > 0 && p > 0
    requires forall c | c in Reversed(Digits(Quot(v, base), base, uppercase, room - 1)) :: IsDigit(c, base)
    requires Value(Reversed(Digits(Quot(v, base), base, uppercase, room - 1)), base) == Rem(Quot(v, base), p)
    ensures forall c | c in Reversed(Digits(v, base, uppercase, room)) :: IsDigit(c, base)
    ensures base * p > 0 && Value(Reversed(Digits(v, base, uppercase, room)), base) == Rem(v, base * p)
  {
    hide *;
    LastDigit(v, base, uppercase, room);
    ZeroMod(p);
    EmptyValue(base);
    SplitPower(v, base, p);
    LastValue(Reversed(Higher(v, base, uppercase, room)), DigitChar(Rem(v, base), uppercase), base,
      Rem(Quot(v, base), p), Rem(v, base));
  }

  lemma LastValue(s: seq<char>, c: char, base: nat, x: nat, d: nat)
    requires IsDigit(c, base) && (forall e | e in s :: IsDigit(e, base)) && DigitValue(c) == d && Value(s, base) == x
    ensures (forall e | e in s + [c] :: IsDigit(e, base)) && Value(s + [c], base) == x * base + d
  {
    ValueSnoc(s, c, base);
  }

  lemma ModOne(v: nat)
    ensures Rem(v, 1) == 0
  {
  }

  lemma EmptyValue(base: nat)
    ensures Value([], base) == 0
  {
  }

  lemma ZeroMod(p: nat)
    requires p > 0
    ensures Rem(0, p) == 0
  {
  }

  lemma ValueSnoc(s: seq<char>, c: char, base: nat)
    requires IsDigit(c, base) && forall d | d in s :: IsDigit(d, base)
    ensures forall d | d in s + [c] :: IsDigit(d, base)
    ensures Value(s + [c], base) == Value(s, base) * base + DigitValue(c)
  {
    assert (s + [c])[..|s|] == s;
  }

  lemma SplitPower(v: nat, base: nat, p: nat)
    requires base >= 2 && p > 0
    ensures base * p > 0 && Rem(v, base * p) == Rem(Quot(v, base), p) * base + Rem(v, base)
  {
    var w, d := v / base, v % base;
    var q, r := w / p, w % p;
    Assemble(v, base, p, w, d, q, r);
    Below(base, p, r, d);
    ModUnique(v, base * p, q, r * base + d);
  }

  lemma Assemble(v: int, base: int, p: int, w: int, d: int, q: int, r: int)
    requires v == base * w + d && w == p * q + r
    ensures v == (base * p) * q + (r * base + d)
  {
    Distribute(base, p * q, r);
    Associate(base, p, q);
  }

  lemma Distribute(a: int, b: int, c: int)
    ensures a * (b + c) == a * b + c * a
  {
  }

  lemma Associate(a: int, b: int, c: int)
    ensures a * (b * c) == (a * b) * c
  {
  }

  lemma Below(base: int, p: int, r: int, d: int)
    requires 0 <= r < p && 0 <= d < base
    ensures 0 <= r * base + d < base * p
  {
    assert (r + 1) * base <= p * base;
  }

  lemma ModUnique(x: int, d: int, q: int, r: int)
    requires 0 < d && x == d * q + r && 0 <= r < d
    ensures x % d == r
  {
    var e := x / d - q;
    assert d * e == r - x % d;
    if e > 0 { TimesAtLeast(d, e); }
    if e < 0 { TimesAtLeast(d, -e); }
  }

  lemma TimesAtLeast(d: int, e: int)
    requires 0 < d && 0 < e
    ensures d <= d * e
  {
  }

  /** Leading zeros add nothing. */
  lemma {:induction false} LeadingZeros(n: nat, s: seq<char>, base: nat)
    requires 2 <= base && forall c | c in s :: IsDigit(c, base)
    ensures forall c | c in Repeat('0', n) + s :: IsDigit(c, base)
    ensures Value(Repeat('0', n) + s, base) == Value(s, base)
    decreases n + |s|
  {
    var t := Repeat('0', n) + s;
    if s != [] {
      assert t[..|t| - 1] == Repeat('0', n) + s[..|s| - 1];
      LeadingZeros(n, s[..|s| - 1], base);
    } else if n > 0 {
      assert t[..|t| - 1] == Repeat('0', n - 1) + [];
      LeadingZeros(n - 1, [], base);
    }
  }

  /* ---- Printing ---- */

  function Fill(b: seq<char>, n: int): seq<char> {
    b + Repeat('0', (if n < BUFFER_SIZE then n else BUFFER_SIZE) - |b|)
  }

  function Minus(width: nat, negative: bool, f: Format): nat {
    if !f.left && width > 0 && f.zeropad && (negative || f.plus || f.space) then width - 1 else width
  }

  /** The digits with leading zeros for precision and width. */
  function Padded(b: seq<char>, prec: nat, width: nat, f: Format): seq<char> {
    if f.left then b else
      var p := Fill(b, prec);
      if f.zeropad then Fill(p, width) else p
  }

  function Room(b: seq<char>, c: char): seq<char> { if |b| < BUFFER_SIZE then b + [c] else b }

  /** Zeros that fill the width make way for a prefix. */
  function Shortened(b: seq<char>, base: nat, prec: nat, width: nat, f: Format): seq<char> {
    if !f.precision && |b| > 0 && (|b| == prec || |b| == width) then
      b[..if |b| > 1 && base == 16 then |b| - 2 else |b| - 1]
    else b
  }

  function Marked(b: seq<char>, base: nat, f: Format): seq<char> {
    if base == 16 && |b| < BUFFER_SIZE then b + [if f.uppercase then 'X' else 'x']
    else if base == 2 then Room(b, 'b') else b
  }

  /** The 0, 0x, 0X or 0b that FLAGS_HASH asks for, in place of zeros where those fill the width. */
  function Hashed(b: seq<char>, base: nat, prec: nat, width: nat, f: Format): seq<char> {
    if !f.hash then b else Room(Marked(Shortened(b, base, prec, width, f), base, f), '0')
  }

  function Signed(b: seq<char>, negative: bool, f: Format): seq<char> {
    if negative then Room(b, '-') else if f.plus then Room(b, '+') else if f.space then Room(b, ' ') else b
  }

  /** The buffer reversed, with spaces before or after it up to the width. */
  function Emitted(b: seq<char>, width: nat, f: Format): seq<char> {
    (if !f.left && !f.zeropad then Repeat(' ', width - |b|) else [])
      + Reversed(b) + if f.left then Repeat(' ', width - |b|) else []
  }

  function Formatted(b: seq<char>, negative: bool, base: nat, prec: nat, width: nat, f: Format): seq<char> {
    var w := Minus(width, negative, f);
    Emitted(Signed(Hashed(Padded(b, prec, w, f), base, prec, w, f), negative, f), w, f)
  }

  function Printed(value: nat, negative: bool, base: nat, prec: nat, width: nat, f: Format): seq<char>
    requires 2 <= base <= 36
  {
    Formatted(if f.precision && value == 0 then []
      else Digits(value, base, f.uppercase, BUFFER_SIZE), negative, base, prec, width,
              f.(hash := f.hash && value != 0))
  }

  /** The loop of _out_rev over the buffer. */
  method OutReversed(out: seq<char>, buf: array<char>, length: nat) returns (r: seq<char>)
    requires length <= buf.Length
    ensures r == out + Reversed(buf[..length])
  {
    r := out;
    var len := length;
    while len > 0
      invariant 0 <= len <= length && r == out + Reversed(buf[..length])[..length - len]
    {
      len := len - 1;
      r := r + [buf[len]];
    }
    assert r == out + Reversed(buf[..length]);
  }

  /** _out_rev; out is what has been emitted so far. */
  method OutRev(out: seq<char>, buf: array<char>, length: nat, width: nat, f: Format) returns (r: seq<char>)
    requires length <= buf.Length
    ensures r == out + Emitted(buf[..length], width, f)
  {
    r := out;
    var len := length;
    hide Reversed;
    if !f.left && !f.zeropad {
      var i := len;
      while i < width
        invariant len <= i && (i <= width || i == len) && r == out + Repeat(' ', i - len)
      {
        r := r + [' '];
        i := i + 1;
      }
    }
    r := OutReversed(r, buf, len);
    ghost var after := r;
    if f.left {
      while |r| - |out| < width
        invariant r == after + Repeat(' ', |r| - |after|)
        invariant |after| - |out| == length && (|r| - |out| <= width || r == after)
        decreases width + |out| - |r|
      {
        r := r + [' '];
      }
    }
  }

  /** The loops of _ntoa_format that fill the buffer with zeros. */
  method FillZeros(buf: array<char>, len: nat, upto: nat) returns (len': nat)
    requires buf.Length == BUFFER_SIZE && len <= BUFFER_SIZE
    modifies buf
    ensures len' <= BUFFER_SIZE && buf[..len'] == Fill(old(buf[..len]), upto)
  {
    len' := len;
    while len' < upto && len' < BUFFER_SIZE
      invariant len <= len' <= BUFFER_SIZE && (len' <= upto || len' == len)
      invariant buf[..len'] == old(buf[..len]) + Repeat('0', len' - len)
    {
      len' := Append(buf, len', '0');
    }
  }

  /** _ntoa_format */
  method NtoaFormat(out: seq<char>, buf: array<char>, length: nat, negative: bool, base: nat, prec: nat, width0: nat,
                    f: Format) returns (r: seq<char>)
    requires buf.Length == BUFFER_SIZE && length <= BUFFER_SIZE
    modifies buf
    ensures r == out + Formatted(old(buf[..length]), negative, base, prec, width0, f)
  {
    hide Padded, Hashed, Signed, Emitted;
    var width := width0;
    if !f.left && width > 0 && f.zeropad && (negative || f.plus || f.space) { width := width - 1; }
    var len := PadZeros(buf, length, prec, width, f);
    len := AddPrefix(buf, len, base, prec, width, f);
    len := AddSign(buf, len, negative, f);
    r := OutRev(out, buf, len, width, f);
  }

  method PadZeros(buf: array<char>, length: nat, prec: nat, width: nat, f: Format) returns (len: nat)
    requires buf.Length == BUFFER_SIZE && length <= BUFFER_SIZE
    modifies buf
    ensures len <= BUFFER_SIZE && buf[..len] == Padded(old(buf[..length]), prec, width, f)
  {
    hide Fill;
    len := length;
    if !f.left {
      len := FillZeros(buf, len, prec);
      if f.zeropad { len := FillZeros(buf, len, width); }
    }
  }

  method AddPrefix(buf: array<char>, length: nat, base: nat, prec: nat, width: nat, f: Format) returns (len: nat)
    requires buf.Length == BUFFER_SIZE && length <= BUFFER_SIZE
    modifies buf
    ensures len <= BUFFER_SIZE && buf[..len] == Hashed(old(buf[..length]), base, prec, width, f)
  {
    hide Shortened, Marked, Room;
    len := length;
    if f.hash {
      len := Shorten(buf, len, base, prec, width, f);
      len := Mark(buf, len, base, f);
      len := Append(buf, len, '0');
    }
  }

  method Shorten(buf: array<char>, length: nat, base: nat, prec: nat, width: nat, f: Format) returns (len: nat)
    requires length <= buf.Length
    ensures len <= length && buf[..len] == Shortened(buf[..length], base, prec, width, f)
  {
    len := length;
    if !f.precision && len > 0 && (len == prec || len == width) {
      len := len - 1;
      if len > 0 && base == 16 { len := len - 1; }
    }
    assert buf[..len] == buf[..length][..len];
  }

  method Mark(buf: array<char>, length: nat, base: nat, f: Format) returns (len: nat)
    requires buf.Length == BUFFER_SIZE && length <= BUFFER_SIZE
    modifies buf
    ensures len <= BUFFER_SIZE && buf[..len] == Marked(old(buf[..length]), base, f)
  {
    len := length;
    if base == 16 && len < BUFFER_SIZE {
      len := Append(buf, len, if f.uppercase then 'X' else 'x');
    } else if base == 2 {
      len := Append(buf, len, 'b');
    }
  }

  method AddSign(buf: array<char>, length: nat, negative: bool, f: Format) returns (len: nat)
    requires buf.Length == BUFFER_SIZE && length <= BUFFER_SIZE
    modifies buf
    ensures len <= BUFFER_SIZE && buf[..len] == Signed(old(buf[..length]), negative, f)
  {
    len := length;
    if negative {
      len := Append(buf, len, '-');
    } else if f.plus {
      len := Append(buf, len, '+');
    } else if f.space {
      len := Append(buf, len, ' ');
    }
  }

  /** Every write to the buffer: nothing is written past its end. */
  method Append(buf: array<char>, len: nat, c: char) returns (len': nat)
    requires buf.Length == BUFFER_SIZE && len <= BUFFER_SIZE
    modifies buf
    ensures len' <= BUFFER_SIZE && buf[..len'] == Room(old(buf[..len]), c)
    ensures len' == if len < BUFFER_SIZE then len + 1 else len
  {
    len' := len;
    if len < BUFFER_SIZE {
      buf[len] := c;
      len' := len + 1;
    }
  }

  /** The digit loop of _ntoa_long and _ntoa_long_long. */
  method WriteDigits(buf: array<char>, value0: nat, base: nat, uppercase: bool) returns (len: nat)
    requires buf.Length == BUFFER_SIZE && 2 <= base <= 36
    modifies buf
    ensures len <= BUFFER_SIZE && buf[..len] == Digits(value0, base, uppercase, BUFFER_SIZE)
  {
    ghost var all := Digits(value0, base, uppercase, BUFFER_SIZE);
    NoneWritten(value0, base, uppercase);
    hide Written, Digits, DigitChar, Rem, Quot, Added;
    var value: nat, more := value0, true;
    len := 0;
    ghost var room: nat := BUFFER_SIZE;
    while more
      invariant 0 <= len <= BUFFER_SIZE && (more ==> len < BUFFER_SIZE)
      invariant Written(all, buf[..len], value, base, uppercase, room, more) && room == BUFFER_SIZE - len
      decreases BUFFER_SIZE - len, more
    {
      NextDigit(all, buf[..len], value, base, uppercase, room);
      len := WriteDigit(buf, len, Rem(value, base), uppercase);
      value := Quot(value, base);
      room := room - 1;
      more := value != 0 && len < BUFFER_SIZE;
    }
    AllWritten(all, buf[..len], value, base, uppercase, room);
  }

  /** All the digits are those written so far, and then those of v if there is more to write. */
  ghost predicate Written(all: seq<char>, done: seq<char>, v: nat, base: nat, uppercase: bool, room: nat, more: bool)
    requires 2 <= base <= 36
  {
    all == done + if more then Digits(v, base, uppercase, room) else []
  }

  function Added(s: seq<char>, c: char): seq<char> { s + [c] }

  method WriteDigit(buf: array<char>, len: nat, digit: nat, uppercase: bool) returns (len': nat)
    requires buf.Length == BUFFER_SIZE && len < BUFFER_SIZE && digit < 36
    modifies buf
    ensures len' == len + 1 && buf[..len'] == Added(old(buf[..len]), DigitChar(digit, uppercase))
  {
    buf[len] := if digit < 10 then '0' + digit as char else (if uppercase then 'A' else 'a') + (digit - 10) as char;
    len' := len + 1;
  }

  lemma NextDigit(all: seq<char>, done: seq<char>, v: nat, base: nat, uppercase: bool, room: nat)
    requires 2 <= base <= 36 && room > 0 && Written(all, done, v, base, uppercase, room, true)
    ensures Written(all, Added(done, DigitChar(Rem(v, base), uppercase)), Quot(v, base), base, uppercase, room - 1,
                    Quot(v, base) != 0 && room - 1 > 0)
  {
    hide Rem, Quot, DigitChar;
  }

  lemma NoneWritten(v: nat, base: nat, uppercase: bool)
    requires 2 <= base <= 36
    ensures Written(Digits(v, base, uppercase, BUFFER_SIZE), [], v, base, uppercase, BUFFER_SIZE, true)
  {
  }

  lemma AllWritten(all: seq<char>, done: seq<char>, v: nat, base: nat, uppercase: bool, room: nat)
    requires 2 <= base <= 36 && Written(all, done, v, base, uppercase, room, false)
    ensures all == done
  {
  }

  /** _ntoa_long_long, and on values below 2 ^ 32 _ntoa_long. */
  method Ntoa(out: seq<char>, value0: nat, negative: bool, base: nat, prec: nat, width: nat, f0: Format)
    returns (r: seq<char>)
    requires 2 <= base <= 36 && value0 <= UINT64_MAX
    ensures r == out + Printed(value0, negative, base, prec, width, f0)
  {
    var buf := new char[BUFFER_SIZE];
    hide Formatted;
    var len, value, f := 0, value0, f0;
    if value == 0 { f := f.(hash := false); }
    if !f.precision || value != 0 {
      len := WriteDigits(buf, value, base, f.uppercase);
    }
    r := NtoaFormat(out, buf, len, negative, base, prec, width, f);
  }

  /* ---- Parsing ---- */

  predicate IsSpace(c: char) { c == '\t' || c == '\n' || c == 11 as char || c == 12 as char || c == '\r' || c == ' ' }

  function AfterSign(s: seq<char>): seq<char> {
    if s != [] && (s[0] == '+' || s[0] == '-') then s[1..] else s
  }

  /** The base to read in, and what is left to read: a prefix decides if the base is given as 0. */
  function Detected(s: seq<char>, base: nat): (int, seq<char>) {
    if base != 0 then (base, s)
    else if s == [] || s[0] != '0' then (10, s)
    else if |s| > 1 && (s[1] == 'x' || s[1] == 'X') then (16, s[2..])
    else (8, s[1..])
  }

  function AfterSpaces(s: seq<char>): seq<char> {
    if s != [] && IsSpace(s[0]) then AfterSpaces(s[1..]) else s
  }

  /** How many digits of the base a string starts with. */
  function DigitRun(s: seq<char>, base: nat): (n: nat)
    ensures n <= |s| && forall c | c in s[..n] :: IsDigit(c, base)
    ensures n < |s| ==> !IsDigit(s[n], base)
  {
    if s != [] && IsDigit(s[0], base) then 1 + DigitRun(s[1..], base) else 0
  }

  function Saturated(v: nat): nat { if v > UINT64_MAX then UINT64_MAX else v }

  /** What is left after the digits. */
  function Unread(s: seq<char>, base: nat): seq<char> {
    var (b, t) := Detected(AfterSign(s), base);
    var u := AfterSpaces(t);
    u[DigitRun(u, b)..]
  }

  /** The exact value of the longest run of digits. */
  function Exact(s: seq<char>, base: nat): nat {
    var (b, t) := Detected(AfterSign(s), base);
    var u := AfterSpaces(t);
    Value(u[..DigitRun(u, b)], b)
  }

  /** The exact value, or UINT64_MAX if it is larger. */
  function Parsed(s: seq<char>, base: nat): nat { Saturated(Exact(s, base)) }

  lemma {:induction false} ValueGrows(s: seq<char>, i: nat, n: nat, base: nat)
    requires i <= n <= |s| && base > 0 && forall c | c in s[..n] :: IsDigit(c, base)
    ensures forall c | c in s[..i] :: IsDigit(c, base)
    ensures Value(s[..i], base) <= Value(s[..n], base)
    decreases n
  {
    if i < n {
      var p, c := s[..n - 1], s[n - 1];
      assert s[..n] == p + [c];
      assert c in s[..n];
      assert forall d | d in p :: d in s[..n];
      hide Value, DigitValue;
      ValueGrows(s, i, n - 1, base);
      ValueSnoc(p, c, base);
      AtLeastSame(Value(p, base), base);
    }
  }

  lemma AtLeastSame(x: nat, base: nat)
    requires base > 0
    ensures x <= x * base
  {
  }

  lemma Overflows(result: nat, base: nat, limit: nat)
    requires base > 0
    ensures result > limit / base <==> result * base > limit
  {
    var q := limit / base;
    if result > q { assert (q + 1) * base <= result * base; } else { assert result * base <= q * base; }
  }

  lemma {:induction false} RunIs(s: seq<char>, base: nat, n: nat)
    requires n <= |s| && (forall c | c in s[..n] :: IsDigit(c, base)) && (n < |s| ==> !IsDigit(s[n], base))
    ensures DigitRun(s, base) == n
  {
    if n > 0 {
      assert s[0] in s[..n];
      assert s[1..][..n - 1] == s[..n][1..];
      RunIs(s[1..], base, n - 1);
    }
  }

  /** What strtoull stores through endptr. */
  datatype End = Unset | At(pos: nat)

  /** strtoull, from a string without its terminator.  The end of the number is stored unless the value is too large. */
  method Strtoull(str: seq<char>, base0: nat) returns (result: nat, end: End)
    ensures result == Parsed(str, base0) <= UINT64_MAX
    ensures end.Unset? <==> Exact(str, base0) > UINT64_MAX
    ensures end.At? ==> end.pos <= |str| && str[end.pos..] == Unread(str, base0)
  {
    var i, base := 0, base0;
    if i < |str| && (str[i] == '+' || str[i] == '-') { i := i + 1; }
    assert str[i..] == AfterSign(str);
    if base == 0 {
      if i < |str| && str[i] == '0' {
        i := i + 1;
        if i < |str| && (str[i] == 'x' || str[i] == 'X') {
          i := i + 1;
          base := 16;
        } else {
          base := 8;
        }
      } else {
        base := 10;
      }
    }
    assert Detected(AfterSign(str), base0) == (base, str[i..]);
    ghost var t := str[i..];
    while i < |str| && IsSpace(str[i])
      invariant i <= |str| && AfterSpaces(str[i..]) == AfterSpaces(t)
    {
      assert str[i..][1..] == str[i + 1..];
      i := i + 1;
    }
    result, end := Accumulate(str, i, base);
  }

  /** The digit loop of strtoull: no intermediate value exceeds 64 bits. */
  method Accumulate(str: seq<char>, start: nat, base: nat) returns (result: nat, stored: End)
    requires start <= |str| && base > 0
    ensures var exact := Value(str[start..][..DigitRun(str[start..], base)], base);
      result == Saturated(exact) && (stored.Unset? <==> exact > UINT64_MAX)
    ensures stored.At? ==> stored.pos <= |str| && str[stored.pos..] == str[start..][DigitRun(str[start..], base)..]
  {
    hide Value, DigitRun, IsDigit, DigitValue;
    ghost var u := str[start..];
    var end := start;
    result := 0;
    NothingRead(u, base, UINT64_MAX);
    while end < |str|
      invariant start <= end <= |str| && ReadSoFar(u, base, end - start, result, UINT64_MAX)
    {
      ghost var n := end - start;
      assert u[n] == str[end];
      var c := DigitValue(str[end]);
      if c == -1 || c >= base {
        StopsHere(u, base, n, result, UINT64_MAX);
        return result, At(end);
      }
      NextRead(u, base, n, result, c, UINT64_MAX);
      if result > UINT64_MAX / base { return UINT64_MAX, Unset; }
      result := result * base;
      if result > UINT64_MAX - c { return UINT64_MAX, Unset; }
      result := result + c;
      end := end + 1;
    }
    StopsHere(u, base, end - start, result, UINT64_MAX);
    stored := At(end);
  }

  /** The first n characters are digits, and their value, which is within the limit, has been read. */
  ghost predicate ReadSoFar(u: seq<char>, base: nat, n: nat, result: nat, limit: nat) {
    n <= |u| && (forall c | c in u[..n] :: IsDigit(c, base)) && result == Value(u[..n], base) <= limit
  }

  lemma NothingRead(u: seq<char>, base: nat, limit: nat)
    ensures ReadSoFar(u, base, 0, 0, limit)
  {
  }

  /** No digit follows: what has been read is the whole run. */
  lemma StopsHere(u: seq<char>, base: nat, n: nat, result: nat, limit: nat)
    requires ReadSoFar(u, base, n, result, limit)
    requires n < |u| ==> DigitValue(u[n]) == -1 || DigitValue(u[n]) >= base
    ensures n == DigitRun(u, base) && result == Value(u[..n], base) <= limit
  {
    hide Value;
    RunIs(u, base, n);
  }

  /** One more digit: either the value still fits, or the whole run is too large. */
  lemma NextRead(u: seq<char>, base: nat, n: nat, result: nat, c: int, limit: nat)
    requires ReadSoFar(u, base, n, result, limit) && base > 0 && n < |u| && c == DigitValue(u[n]) && 0 <= c < base
    ensures if result > limit / base || result * base > limit - c
      then Value(u[..DigitRun(u, base)], base) > limit
      else ReadSoFar(u, base, n + 1, result * base + c, limit)
  {
    hide Value, DigitRun, DigitValue;
    assert u[..n + 1] == u[..n] + [u[n]];
    ValueSnoc(u[..n], u[n], base);
    Overflows(result, base, limit);
    if result > limit / base || result * base > limit - c { TooLarge(u, n + 1, base, limit); }
  }

  /** Once a prefix of the digits is too large, so is the whole run. */
  lemma TooLarge(u: seq<char>, n: nat, base: nat, limit: nat)
    requires n <= |u| && base > 0 && (forall c | c in u[..n] :: IsDigit(c, base)) && Value(u[..n], base) > limit
    ensures Value(u[..DigitRun(u, base)], base) > limit
  {
    RunAtLeast(u, n, base);
    ValueGrows(u, n, DigitRun(u, base), base);
  }

  lemma {:induction false} RunAtLeast(u: seq<char>, n: nat, base: nat)
    requires n <= |u| && forall c | c in u[..n] :: IsDigit(c, base)
    ensures n <= DigitRun(u, base)
  {
    if n > 0 {
      assert u[0] in u[..n];
      assert u[1..][..n - 1] == u[..n][1..];
      RunAtLeast(u[1..], n - 1, base);
    }
  }

  /* ---- There and back ---- */

  /** No sign and no prefix is asked for. */
  predicate Plain(f: Format) { !f.plus && !f.space && !f.hash }

  lemma ReversedFill(b: seq<char>, n: int)
    ensures Reversed(b + Repeat('0', n)) == Repeat('0', n) + Reversed(b)
  {
  }

  /** What plain formatting amounts to: spaces, zeros, the digits, spaces. */
  lemma PlainShape(b: seq<char>, base: nat, prec: nat, width: nat, f: Format)
    returns (before: nat, zeros: nat, after: nat)
    requires Plain(f)
    ensures Formatted(b, false, base, prec, width, f) ==
      Repeat(' ', before) + (Repeat('0', zeros) + Reversed(b)) + Repeat(' ', after)
  {
    var p := Padded(b, prec, width, f);
    zeros := |p| - |b|;
    assert p == b + Repeat('0', zeros);
    ReversedFill(b, zeros);
    before := if !f.left && !f.zeropad && width > |p| then width - |p| else 0;
    after := if f.left && width > |p| then width - |p| else 0;
  }

  lemma {:induction false} SpacesSkipped(n: nat, s: seq<char>)
    requires s == [] || !IsSpace(s[0])
    ensures AfterSpaces(Repeat(' ', n) + s) == s
  {
    if n > 0 {
      assert (Repeat(' ', n) + s)[1..] == Repeat(' ', n - 1) + s;
      SpacesSkipped(n - 1, s);
    } else {
      assert Repeat(' ', n) + s == s;
    }
  }

  lemma DigitNoSpace(c: char, base: nat)
    requires IsDigit(c, base)
    ensures !IsSpace(c) && c != '+' && c != '-'
  {
  }

  lemma NoSign(before: nat, rest: seq<char>)
    requires rest == [] || (rest[0] != '+' && rest[0] != '-')
    ensures AfterSign(Repeat(' ', before) + rest) == Repeat(' ', before) + rest
  {
    if before == 0 { assert Repeat(' ', before) + rest == rest; }
  }

  /** Digits between spaces read as their value. */
  lemma SpacedDigits(before: nat, ds: seq<char>, after: nat, base: nat)
    requires 2 <= base <= 36 && forall c | c in ds :: IsDigit(c, base)
    ensures Parsed(Repeat(' ', before) + ds + Repeat(' ', after), base) == Saturated(Value(ds, base))
  {
    var text, rest := Repeat(' ', before) + ds + Repeat(' ', after), ds + Repeat(' ', after);
    assert text == Repeat(' ', before) + rest;
    if ds == [] {
      SpacesJoin(before, after);
      assert text == Repeat(' ', before + after) + [];
      NoSign(before + after, []);
      SpacesSkipped(before + after, []);
      RunIs([], base, 0);
      ReadAs(text, [], base, ds);
    } else {
      assert rest[0] == ds[0] && ds[0] in ds && rest[..|ds|] == ds;
      assert |rest| > |ds| ==> rest[|ds|] == ' ';
      DigitNoSpace(ds[0], base);
      NoSign(before, rest);
      SpacesSkipped(before, rest);
      RunIs(rest, base, |ds|);
      ReadAs(text, rest, base, ds);
    }
  }

  lemma ReadAs(text: seq<char>, u: seq<char>, base: nat, ds: seq<char>)
    requires base > 0 && AfterSign(text) == text && AfterSpaces(text) == u && u[..DigitRun(u, base)] == ds
    ensures forall c | c in ds :: IsDigit(c, base)
    ensures Parsed(text, base) == Saturated(Value(ds, base))
  {
  }

  lemma SpacesJoin(m: nat, n: nat)
    ensures Repeat(' ', m) + ([] + Repeat(' ', n)) == Repeat(' ', m + n)
  {
  }

  /** Reading back a printed number gives it modulo base ^ 32, the digits the buffer holds. */
  lemma ParsePrinted(value: nat, base: nat, prec: nat, width: nat, f: Format)
    requires 2 <= base <= 36 && value <= UINT64_MAX && Plain(f)
    ensures Power(base, BUFFER_SIZE) > 0
    ensures Parsed(Printed(value, false, base, prec, width, f), base) == Rem(value, Power(base, BUFFER_SIZE))
  {
    DigitsValue(value, base, f.uppercase, BUFFER_SIZE);
    var b := if f.precision && value == 0 then [] else Digits(value, base, f.uppercase, BUFFER_SIZE);
    var before, zeros, after := PlainShape(b, base, prec, width, f.(hash := f.hash && value != 0));
    ZeroMod(Power(base, BUFFER_SIZE));
    EmptyValue(base);
    assert f.precision && value == 0 ==> Reversed(b) == [];
    LeadingZeros(zeros, Reversed(b), base);
    SpacedDigits(before, Repeat('0', zeros) + Reversed(b), after, base);
    RemAtMost(value, Power(base, BUFFER_SIZE));
  }

  lemma RemAtMost(v: nat, d: nat)
    requires d > 0
    ensures Rem(v, d) <= v && (Rem(v, d) == v <==> v < d)
  {
    if v < d { ModUnique(v, d, 0, v); }
  }

  /** So printing and reading is a round trip exactly for numbers of at most 32 digits, whatever the width, precision,
      padding and case. */
  lemma RoundTrip(value: nat, base: nat, prec: nat, width: nat, f: Format)
    requires 2 <= base <= 36 && value <= UINT64_MAX && Plain(f)
    ensures Parsed(Printed(value, false, base, prec, width, f), base) == value <==> value < Power(base, BUFFER_SIZE)
  {
    ParsePrinted(value, base, prec, width, f);
    RemAtMost(value, Power(base, BUFFER_SIZE));
  }

  /** In base 4 and above that is every 64-bit number; in base 2, those below 2 ^ 32. */
  lemma EnoughDigits(base: nat)
    ensures base >= 4 ==> Power(base, BUFFER_SIZE) > UINT64_MAX
    ensures Power(2, BUFFER_SIZE) == 0x1_0000_0000
  {
    assert Power(4, 8) == 0x1_0000 && Power(2, 8) == 0x100;
    PowerSum(4, 8, 8);
    PowerSum(4, 16, 16);
    PowerSum(2, 8, 8);
    PowerSum(2, 16, 16);
    if base >= 4 { PowerMono(4, base, 32); }
  }

  lemma {:induction false} PowerSum(b: nat, m: nat, n: nat)
    ensures Power(b, m + n) == Power(b, m) * Power(b, n)
  {
    if m > 0 {
      PowerSum(b, m - 1, n);
      Associate(b, Power(b, m - 1), Power(b, n));
    }
  }

  lemma {:induction false} PowerMono(a: nat, b: nat, n: nat)
    requires a <= b
    ensures Power(a, n) <= Power(b, n)
  {
    if n > 0 {
      PowerMono(a, b, n - 1);
      TimesMono(a, b, Power(a, n - 1), Power(b, n - 1));
    }
  }

  lemma TimesMono(a: nat, b: nat, x: nat, y: nat)
    requires a <= b && x <= y
    ensures a * x <= b * y
  {
    assert a * x <= a * y && a * y <= b * y;
  }
}
