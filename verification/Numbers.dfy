/**
 Printing numbers into a buffer and reading them back: digits come out lowest first and are then
 reversed in place.
 */
module Numbers {

  const NUL: char := '\0'

  type digit = d: nat | d < 16

  function DigitChar(d: digit): char {
    "0123456789ABCDEF"[d]
  }

  predicate Base(base: nat) {
    base == 10 || base == 16
  }

  predicate Below(ds: seq<digit>, base: nat) {
    forall i :: 0 <= i < |ds| ==> ds[i] < base
  }

  /** The digits of `value`, highest first. */
  function Positional(base: nat, value: nat): (ds: seq<digit>)
    requires Base(base)
    ensures |ds| > 0 && Below(ds, base)
    decreases value
  {
    if value < base then [value] else Positional(base, value / base) + [value % base]
  }

  function ValueOf(base: nat, ds: seq<digit>): nat {
    if ds == [] then 0 else ValueOf(base, ds[..|ds| - 1]) * base + ds[|ds| - 1]
  }

  /** The digits stand for the number, and only zero starts with a zero. */
  lemma {:induction false} PositionalIs(base: nat, value: nat)
    requires Base(base)
    ensures ValueOf(base, Positional(base, value)) == value
    ensures Positional(base, value)[0] == 0 <==> value == 0
    decreases value
  {
    if value >= base {
      PositionalIs(base, value / base);
      var ds := Positional(base, value);
      assert ds[..|ds| - 1] == Positional(base, value / base);
      LastDigit(base, value);
    } else {
      assert Positional(base, value)[..0] == [];
    }
  }

  lemma LastDigit(base: nat, value: nat)
    requires Base(base)
    ensures value / base * base + value % base == value
    ensures value >= base ==> 0 < value / base < value
  {}

  function Chars(ds: seq<digit>): (s: string)
    ensures |s| == |ds| && forall i :: 0 <= i < |s| ==> s[i] == DigitChar(ds[i])
  {
    if ds == [] then "" else [DigitChar(ds[0])] + Chars(ds[1..])
  }

  function Reversed(s: string): (r: string)
    ensures |r| == |s| && forall i :: 0 <= i < |s| ==> r[i] == s[|s| - 1 - i]
  {
    if s == "" then "" else Reversed(s[1..]) + [s[0]]
  }

  /** What `rtlItoa` should print: canonical decimal, or "0x" and at least two hexadecimal digits. */
  function Decimal(value: nat): string {
    Chars(Positional(10, value))
  }

  function Hexadecimal(value: nat): string {
    "0x" + (if value < 16 then "0" else "") + Chars(Positional(16, value))
  }

  /** The buffer holds `t` as a C string. */
  predicate Holds(buf: seq<char>, t: string) {
    |t| < |buf| && buf[..|t|] == t && buf[|t|] == NUL
  }

  // ----- How many digits there are

  function Pow(base: nat, k: nat): nat {
    if k == 0 then 1 else base * Pow(base, k - 1)
  }

  lemma {:induction false} FewDigits(base: nat, value: nat, k: nat)
    requires Base(base) && k > 0 && value < Pow(base, k)
    ensures |Positional(base, value)| <= k
    decreases k
  {
    if value >= base {
      assert Pow(base, k) == base * Pow(base, k - 1);
      assert k > 1 by {
        assert Pow(base, 0) == 1;
      }
      FewDigits(base, value / base, k - 1);
    }
  }

  lemma {:induction false} PowSum(base: nat, m: nat, n: nat)
    ensures Pow(base, m + n) == Pow(base, m) * Pow(base, n)
    decreases m
  {
    if m == 0 {
      assert Pow(base, 0) == 1;
    } else {
      PowSum(base, m - 1, n);
      assert base * (Pow(base, m - 1) * Pow(base, n)) == base * Pow(base, m - 1) * Pow(base, n);
    }
  }

  lemma WordDigits(value: nat)
    requires value < 0x1_0000_0000_0000_0000
    ensures |Positional(10, value)| <= 20 && |Positional(16, value)| <= 16
  {
    assert Pow(10, 5) == 100000;
    PowSum(10, 5, 5);
    PowSum(10, 10, 10);
    FewDigits(10, value, 20);
    assert Pow(16, 4) == 0x1_0000;
    PowSum(16, 4, 4);
    PowSum(16, 8, 8);
    FewDigits(16, value, 16);
  }

  // ----- Printing

  /** The characters still to come, when `v` is left, and those already put, lowest first. */
  ghost predicate HalfPut(base: nat, v: nat, put: string, all: string)
    requires Base(base)
  {
    (if v == 0 then "" else Chars(Positional(base, v))) + Reversed(put) == all
  }

  /** The last character still to come moves over to those already put. */
  lemma MoveOver(high: string, c: char, put: string, all: string)
    requires high + [c] + Reversed(put) == all
    ensures high + Reversed(put + [c]) == all
  {
    ReversedMore(put, c);
    hide Reversed;
    assert high + ([c] + Reversed(put)) == high + [c] + Reversed(put);
  }

  lemma PutOne(base: nat, v: nat, put: string, all: string)
    requires Base(base) && v > 0 && HalfPut(base, v, put, all)
    ensures HalfPut(base, v / base, put + [DigitChar(v % base)], all)
  {
    hide Chars;
    hide Reversed;
    hide DigitChar;
    hide Positional;
    LastChar(base, v);
    var high := if v < base then "" else Chars(Positional(base, v / base));
    assert "" + [DigitChar(v % base)] == [DigitChar(v % base)];
    MoveOver(high, DigitChar(v % base), put, all);
  }

  lemma LastChar(base: nat, v: nat)
    requires Base(base) && v > 0
    ensures var c := DigitChar(v % base);
            Chars(Positional(base, v)) == if v >= base then Chars(Positional(base, v / base)) + [c] else [c]
    ensures v / base == 0 <==> v < base
  {
    LastDigit(base, v);
    hide Chars;
    hide DigitChar;
    if v >= base {
      CharsMore(Positional(base, v / base), v % base);
    } else {
      CharsOne(v);
    }
  }

  lemma CharsOne(d: digit)
    ensures Chars([d]) == [DigitChar(d)]
  {}

  /** The digit loop, from the lowest digit on; `i` is where it stops. */
  method PutDigits(base: nat, value: nat, buf: array<char>, limit: nat) returns (i: nat)
    requires Base(base) && value > 0 && |Positional(base, value)| <= limit <= buf.Length
    modifies buf
    ensures i == |Positional(base, value)| && buf[..i] == Reversed(Chars(Positional(base, value)))
  {
    hide Positional;
    hide Chars;
    hide Reversed;
    hide DigitChar;
    hide HalfPut;
    var v: nat := value;
    i := 0;
    ghost var all := Chars(Positional(base, value));
    HalfStart(base, v, all);
    assert buf[..0] == "";
    while v > 0
      invariant i <= limit && HalfPut(base, v, buf[..i], all)
      decreases v
    {
      ghost var put := buf[..i];
      HalfLength(base, v, put, all);
      PutOne(base, v, put, all);
      LastDigit(base, v);
      buf[i] := DigitChar(v % base);
      assert buf[..i + 1] == put + [DigitChar(v % base)];
      i := i + 1;
      v := NextValue(base, v);
    }
    assert v == 0;
    HalfDone(base, buf[..i], all);
  }

  function NextValue(base: nat, v: nat): (w: nat)
    requires Base(base) && v > 0
    ensures w == v / base && w < v
  {
    v / base
  }

  lemma HalfStart(base: nat, v: nat, all: string)
    requires Base(base) && v > 0 && all == Chars(Positional(base, v))
    ensures HalfPut(base, v, "", all)
  {
    assert Chars(Positional(base, v)) + "" == Chars(Positional(base, v));
  }

  lemma HalfLength(base: nat, v: nat, put: string, all: string)
    requires Base(base) && HalfPut(base, v, put, all)
    ensures |put| <= |all| && (v > 0 ==> |put| < |all|)
  {}

  lemma HalfDone(base: nat, put: string, all: string)
    requires Base(base) && HalfPut(base, 0, put, all)
    ensures |put| == |all| && put == Reversed(all)
  {
    assert all == Reversed(put);
    ReversedTwice(put);
  }

  lemma {:induction false} ReversedMore(s: string, c: char)
    ensures Reversed(s + [c]) == [c] + Reversed(s)
  {
    var r := Reversed(s + [c]);
    assert forall i :: 0 <= i < |r| ==> r[i] == ([c] + Reversed(s))[i];
  }

  lemma {:induction false} ReversedTwice(s: string)
    ensures Reversed(Reversed(s)) == s
  {
    assert forall i :: 0 <= i < |s| ==> Reversed(Reversed(s))[i] == s[i];
  }

  lemma {:induction false} CharsMore(ds: seq<digit>, d: digit)
    ensures Chars(ds + [d]) == Chars(ds) + [DigitChar(d)]
  {
    var s := Chars(ds + [d]);
    assert forall i :: 0 <= i < |s| ==> s[i] == (Chars(ds) + [DigitChar(d)])[i];
  }

  /** The reversal loops of `itoaBase10Convert` and `itoaConvertBase16`, from both ends inwards. */
  method ReverseInPlace(buf: array<char>, n: nat)
    requires 0 < n <= buf.Length
    modifies buf
    ensures buf[..n] == Reversed(old(buf[..n])) && buf[n..] == old(buf[n..])
  {
    var j, i := 0, n - 1;
    while j < i
      invariant 0 <= j <= i + 1 <= n && j + i == n - 1
      invariant forall k :: 0 <= k < j ==> buf[k] == old(buf[n - 1 - k]) && buf[n - 1 - k] == old(buf[k])
      invariant forall k :: j <= k <= i ==> buf[k] == old(buf[k])
      invariant buf[n..] == old(buf[n..])
    {
      var tmp := buf[j];
      buf[j] := buf[i];
      buf[i] := tmp;
      j := j + 1;
      i := i - 1;
    }
    ReversedWhen(old(buf[..n]), buf[..n]);
  }

  lemma ReversedWhen(was: string, now: string)
    requires |now| == |was| && forall k :: 0 <= k < |was| ==> now[k] == was[|was| - 1 - k]
    ensures now == Reversed(was)
  {}

  /** `itoaBase10Convert`: the negative branch never runs, the value being unsigned. */
  method ItoaBase10(value: nat, buf: array<char>)
    requires value < 0x1_0000_0000_0000_0000 && buf.Length >= 21
    modifies buf
    ensures Holds(buf[..], Decimal(value))
  {
    hide Positional;
    hide Chars;
    hide Reversed;
    if value == 0 {
      buf[0] := '0';
      buf[1] := NUL;
      assert buf[..1] == "0";
      DecimalZero();
      return;
    }
    WordDigits(value);
    var i := PutDigits(10, value, buf, 20);
    ghost var put := buf[..i];
    buf[i] := NUL;
    assert buf[..i] == put;
    ReversedTwice(Decimal(value));
    ReverseInPlace(buf, i);
    assert buf[i..][0] == buf[i];
  }

  lemma DecimalZero()
    ensures Decimal(0) == "0"
  {
    assert Chars([0]) == "0";
  }

  /** `itoaConvertBase16` */
  method ItoaBase16(value: nat, buf: array<char>)
    requires value < 0x1_0000_0000_0000_0000 && buf.Length >= 20
    modifies buf
    ensures Holds(buf[..], Hexadecimal(value))
  {
    hide Positional;
    hide Chars;
    hide Reversed;
    if value == 0 {
      buf[0], buf[1], buf[2], buf[3], buf[4] := '0', 'x', '0', '0', NUL;
      assert buf[..4] == "0x00";
      HexadecimalZero();
      return;
    }
    WordDigits(value);
    var i := PutDigits(16, value, buf, 16);
    ghost var put := buf[..i];
    if value < 0x10 {
      buf[i] := '0';
      i := i + 1;
      assert buf[..i] == put + "0";
    }
    ghost var padded := buf[..i];
    buf[i] := 'x';
    buf[i + 1] := '0';
    i := i + 2;
    buf[i] := NUL;
    assert buf[..i] == padded + "x0";
    HexadecimalReversed(value, put, padded);
    ReverseInPlace(buf, i);
    assert buf[i..][0] == buf[i];
  }

  lemma HexadecimalZero()
    ensures Hexadecimal(0) == "0x00"
  {
    assert Chars([0]) == "0";
  }

  lemma HexadecimalReversed(value: nat, put: string, padded: string)
    requires put == Reversed(Chars(Positional(16, value))) && padded == put + if value < 16 then "0" else ""
    ensures Reversed(padded + "x0") == Hexadecimal(value)
  {
    hide Positional;
    hide Chars;
    hide Reversed;
    var ds := Chars(Positional(16, value));
    PrefixReversed(padded, "x0");
    PrefixReversed(put, if value < 16 then "0" else "");
    ReversedTwice(ds);
    Affixes();
    assert "0x" + ((if value < 16 then "0" else "") + ds) == "0x" + (if value < 16 then "0" else "") + ds;
  }

  lemma Affixes()
    ensures Reversed("x0") == "0x" && Reversed("0") == "0" && Reversed("") == ""
  {}

  lemma {:induction false} PrefixReversed(p: string, s: string)
    ensures Reversed(p + s) == Reversed(s) + Reversed(p)
  {
    var r := Reversed(p + s);
    assert forall i :: 0 <= i < |r| ==> r[i] == (Reversed(s) + Reversed(p))[i];
  }

  // ----- Reading back

  predicate IsDigit(c: char) {
    '0' <= c <= '9'
  }

  /** The value of the digits at the start of `s` behind those already read. */
  function ReadDigits(n: nat, s: string): nat
    decreases |s|
  {
    if s == "" || !IsDigit(s[0]) then n else ReadDigits(10 * n + (s[0] as int - '0' as int), s[1..])
  }

  function SkipSpaces(s: string): string {
    if s != "" && s[0] == ' ' then SkipSpaces(s[1..]) else s
  }

  /** What `rtlToInt32` returns for a C string, as long as no intermediate value leaves 32 bits. */
  function ToInt(s: string): int {
    var t := SkipSpaces(s);
    var sign := if t != "" && t[0] == '-' then -1 else 1;
    var u := if t != "" && (t[0] == '+' || t[0] == '-') then t[1..] else t;
    sign * ReadDigits(0, u)
  }

  /** `rtlToInt32`, pointer by pointer. */
  method ToInt32(buf: seq<char>, ghost s: string) returns (r: int)
    requires Holds(buf, s) && NUL !in s
    ensures r == ToInt(s)
  {
    var p := 0;
    while buf[p] == ' '
      invariant p <= |s| && SkipSpaces(s) == SkipSpaces(s[p..])
      decreases |s| - p
    {
      assert buf[p] == s[p] && s[p..][1..] == s[p + 1..];
      p := p + 1;
    }
    ghost var t := s[p..];
    assert p < |s| ==> buf[p] == s[p] == t[0];
    assert SkipSpaces(t) == t;
    var sign := if buf[p] == '-' then -1 else 1;
    if buf[p] == '+' || buf[p] == '-' {
      p := p + 1;
    }
    ghost var u := s[p..];
    var n: nat := 0;
    while IsDigit(buf[p])
      invariant p <= |s| && ReadDigits(0, u) == ReadDigits(n, s[p..])
      decreases |s| - p
    {
      assert buf[p] == s[p] && s[p..][1..] == s[p + 1..];
      n := 10 * n + (buf[p] as int - '0' as int);
      p := p + 1;
    }
    assert p < |s| ==> buf[p] == s[p];
    r := sign * n;
  }

  // ----- What a text stands for

  /** The value of a character as a digit, -1 if it is none. */
  function CharValue(c: char): int {
    if '0' <= c <= '9' then c as int - '0' as int
    else if 'A' <= c <= 'F' then c as int - 'A' as int + 10
    else -1
  }

  predicate InBase(base: nat, s: string) {
    forall i :: 0 <= i < |s| ==> 0 <= CharValue(s[i]) < base
  }

  /** The number a text of digits stands for, the last digit counting once. */
  function Decode(base: nat, s: string): int {
    if s == "" then 0 else Decode(base, s[..|s| - 1]) * base + CharValue(s[|s| - 1])
  }

  /** A number as it is usually written: no zero in front of other digits. */
  predicate Canonical(base: nat, s: string) {
    s != "" && InBase(base, s) && (s[0] == '0' ==> s == "0")
  }

  lemma DigitValue(d: digit)
    ensures CharValue(DigitChar(d)) == d
  {
    assert forall k: nat :: k < 10 ==> "0123456789ABCDEF"[k] == ('0' as int + k) as char;
  }

  lemma {:induction false} CharsDecode(base: nat, ds: seq<digit>)
    requires Below(ds, base)
    ensures InBase(base, Chars(ds)) && Decode(base, Chars(ds)) == ValueOf(base, ds)
    decreases |ds|
  {
    forall i | 0 <= i < |ds| ensures CharValue(Chars(ds)[i]) == ds[i] {
      DigitValue(ds[i]);
    }
    if ds != [] {
      var n := |ds| - 1;
      CharsDecode(base, ds[..n]);
      CharsMore(ds[..n], ds[n]);
      assert ds[..n] + [ds[n]] == ds;
      assert Chars(ds)[..n] == Chars(ds[..n]);
    }
  }

  /** The digits of a number are its canonical text, and no other text of that form stands for it. */
  lemma DigitsText(base: nat, value: nat)
    requires Base(base)
    ensures var s := Chars(Positional(base, value)); Canonical(base, s) && Decode(base, s) == value
    ensures forall s :: Canonical(base, s) && Decode(base, s) == value ==> s == Chars(Positional(base, value))
  {
    var ds := Positional(base, value);
    PositionalIs(base, value);
    CharsDecode(base, ds);
    DigitValue(ds[0]);
    if ds[0] == 0 {
      assert ds == [0];
    }
    forall s | Canonical(base, s) && Decode(base, s) == value ensures s == Chars(Positional(base, value)) {
      TextPrinted(base, s);
    }
  }

  /** Printing the value of a canonical text gives the text back. */
  lemma {:induction false} TextPrinted(base: nat, s: string)
    requires Base(base) && Canonical(base, s)
    ensures Decode(base, s) >= 0 && Chars(Positional(base, Decode(base, s))) == s
    ensures s[0] != '0' ==> Decode(base, s) > 0
    decreases |s|
  {
    hide *;
    var n := |s| - 1;
    TextSplits(base, s);
    var d := CharValue(s[n]);
    if n == 0 {
      OneDigit(base, d);
    } else {
      TextPrinted(base, s[..n]);
      var high := Decode(base, s[..n]);
      NextDigit(base, high, d);
      CharsMore(Positional(base, high), d);
    }
  }

  /** A canonical text is one digit, or a shorter one that does not stand for zero and a digit. */
  lemma TextSplits(base: nat, s: string)
    requires Base(base) && Canonical(base, s)
    ensures var n := |s| - 1;
            var d := CharValue(s[n]);
            && s != "" && 0 <= d < base && d < 16 && DigitChar(d) == s[n] && s[..n] + [s[n]] == s
            && Decode(base, s) == (if n == 0 then d else Decode(base, s[..n]) * base + d)
            && (if n == 0 then s == [s[0]] && (s[0] != '0' ==> d > 0)
                else s[0] != '0' && Canonical(base, s[..n]) && s[..n][0] == s[0])
  {
    hide Decode;
    hide CharValue;
    hide DigitChar;
    var n := |s| - 1;
    ValueDigit(s[n]);
    DecodeLast(base, s);
  }

  lemma DecodeLast(base: nat, s: string)
    requires s != ""
    ensures var n := |s| - 1;
            Decode(base, s) == if n == 0 then CharValue(s[n]) else Decode(base, s[..n]) * base + CharValue(s[n])
  {
    hide CharValue;
    if |s| == 1 {
      assert s[..0] == "" && Decode(base, "") == 0;
    }
  }

  lemma OneDigit(base: nat, d: nat)
    requires Base(base) && d < base
    ensures d < 16 && Positional(base, d) == [d] && Chars([d]) == [DigitChar(d)]
  {}

  lemma ValueDigit(c: char)
    ensures var d := CharValue(c); 0 <= d < 16 ==> DigitChar(d) == c
    ensures CharValue(c) == 0 <==> c == '0'
  {}

  lemma NextDigit(base: nat, high: nat, d: nat)
    requires Base(base) && high > 0 && d < base
    ensures d < 16 && high * base + d >= base && Positional(base, high * base + d) == Positional(base, high) + [d]
  {
    if base == 10 {
      assert (high * 10 + d) / 10 == high && (high * 10 + d) % 10 == d;
    } else {
      assert (high * 16 + d) / 16 == high && (high * 16 + d) % 16 == d;
    }
  }

  /** Decimal text is the canonical text of the value. */
  lemma DecimalDecodes(value: nat)
    ensures forall s :: s == Decimal(value) <==> Canonical(10, s) && Decode(10, s) == value
  {
    DigitsText(10, value);
  }

  /** Hexadecimal text is "0x" and the canonical text of the value, behind a zero if that has one digit. */
  lemma HexadecimalDecodes(value: nat)
    ensures var s := Hexadecimal(value);
            && |s| >= 4 && s[..2] == "0x" && InBase(16, s[2..]) && Decode(16, s[2..]) == value
            && (s[2] == '0' ==> |s| == 4)
            && Canonical(16, if value < 16 then s[3..] else s[2..])
  {
    hide Positional;
    hide Chars;
    var t := Chars(Positional(16, value));
    DigitsText(16, value);
    LongDigits(value);
    var s := Hexadecimal(value);
    if value < 16 {
      assert s[3..] == t && s[2..] == "0" + t;
      OneDigitText(t, value);
    } else {
      assert s[2..] == t;
    }
  }

  lemma OneDigitText(t: string, value: nat)
    requires |t| == 1 && InBase(16, t) && Decode(16, t) == value
    ensures InBase(16, "0" + t) && Decode(16, "0" + t) == value
  {
    assert ("0" + t)[..1] == "0" && "0"[..0] == "" && t[..0] == "";
    assert Decode(16, "0") == 0;
  }

  lemma LongDigits(value: nat)
    ensures if value < 16 then |Positional(16, value)| == 1 else |Positional(16, value)| >= 2
  {}

  // ----- What reading back promises

  predicate AllDigits(s: string) {
    forall i :: 0 <= i < |s| ==> IsDigit(s[i])
  }

  /** The text is made of spaces, a sign, digits, and a rest that does not go on with digits. */
  predicate Reads(s: string, spaces: string, sign: string, digits: string, rest: string) {
    && s == spaces + (sign + (digits + rest))
    && (forall i :: 0 <= i < |spaces| ==> spaces[i] == ' ') && (sign == "" || sign == "+" || sign == "-")
    && AllDigits(digits) && (rest != "" ==> !IsDigit(rest[0]))
    && (sign == "" && digits == "" && rest != "" ==> rest[0] !in " +-")
  }

  /** The number read is that of the digits, with the sign in front of them. */
  lemma ToIntLaw(s: string, spaces: string, sign: string, digits: string, rest: string)
    requires Reads(s, spaces, sign, digits, rest)
    ensures ToInt(s) == if sign == "-" then -Decode(10, digits) else Decode(10, digits)
  {
    hide *;
    SignBehind(s, spaces, sign, digits, rest);
    SpacesSkipped(spaces, sign + (digits + rest));
    NothingRead();
    ReadOn("", digits, rest);
    assert "" + digits == digits;
    SignRead(s, sign, digits, rest);
  }

  lemma NothingRead()
    ensures Decode(10, "") == 0
  {}

  lemma SignBehind(s: string, spaces: string, sign: string, digits: string, rest: string)
    requires Reads(s, spaces, sign, digits, rest)
    ensures s == spaces + (sign + (digits + rest))
    ensures forall i :: 0 <= i < |spaces| ==> spaces[i] == ' '
    ensures var t := sign + (digits + rest); t != "" ==> t[0] != ' '
    ensures AllDigits(digits) && (rest != "" ==> !IsDigit(rest[0]))
    ensures sign == "" || sign == "+" || sign == "-"
    ensures var u := digits + rest; sign == "" && u != "" ==> u[0] != '+' && u[0] != '-'
  {
    if sign == "" {
      assert sign + (digits + rest) == digits + rest;
    }
  }

  lemma SignRead(s: string, sign: string, digits: string, rest: string)
    requires SkipSpaces(s) == sign + (digits + rest) && (sign == "" || sign == "+" || sign == "-")
    requires var u := digits + rest; sign == "" && u != "" ==> u[0] != '+' && u[0] != '-'
    ensures ToInt(s) == (if sign == "-" then -1 else 1) * ReadDigits(0, digits + rest)
  {
    var t := sign + (digits + rest);
    if sign == "" {
      assert t == digits + rest;
    } else {
      assert t[0] == sign[0] && t[1..] == digits + rest;
    }
  }

  /** Every text can be read in this way. */
  lemma {:induction false} AnyTextReads(s: string) returns (spaces: string, sign: string, digits: string, rest: string)
    ensures Reads(s, spaces, sign, digits, rest)
    decreases |s|
  {
    if s != "" && s[0] == ' ' {
      spaces, sign, digits, rest := AnyTextReads(s[1..]);
      spaces := " " + spaces;
      assert s == " " + s[1..];
    } else {
      spaces := "";
      sign := if s != "" && (s[0] == '+' || s[0] == '-') then [s[0]] else "";
      digits, rest := DigitsFirst(s[|sign|..]);
    }
  }

  lemma {:induction false} DigitsFirst(s: string) returns (digits: string, rest: string)
    ensures s == digits + rest && AllDigits(digits) && (rest != "" ==> !IsDigit(rest[0]))
    decreases |s|
  {
    if s == "" || !IsDigit(s[0]) {
      digits, rest := "", s;
    } else {
      digits, rest := DigitsFirst(s[1..]);
      digits := [s[0]] + digits;
    }
  }

  lemma {:induction false} SpacesSkipped(spaces: string, t: string)
    requires forall i :: 0 <= i < |spaces| ==> spaces[i] == ' '
    requires t != "" ==> t[0] != ' '
    ensures SkipSpaces(spaces + t) == t
    decreases |spaces|
  {
    if spaces == "" {
      assert spaces + t == t;
    } else {
      assert (spaces + t)[1..] == spaces[1..] + t;
      SpacesSkipped(spaces[1..], t);
    }
  }

  /** Reading goes on behind the digits already read. */
  lemma {:induction false} ReadOn(read: string, digits: string, rest: string)
    requires AllDigits(digits) && (rest != "" ==> !IsDigit(rest[0])) && Decode(10, read) >= 0
    ensures Decode(10, read + digits) == ReadDigits(Decode(10, read), digits + rest)
    decreases |digits|
  {
    if digits == "" {
      assert digits + rest == rest && read + digits == read;
    } else {
      var more := read + [digits[0]];
      assert more[..|read|] == read;
      ReadOn(more, digits[1..], rest);
      assert (digits + rest)[1..] == digits[1..] + rest && read + digits == more + digits[1..];
    }
  }

  /** Reading back what was printed gives the number, for every value a 32-bit integer can hold, with either sign in front. */
  lemma PrintedReadsBack(value: nat)
    requires value < 0x8000_0000
    ensures ToInt(Decimal(value)) == value && ToInt("-" + Decimal(value)) == 0 - value
  {
    var s := Decimal(value);
    DecimalDecodes(value);
    assert Canonical(10, s);
    assert s + "" == s && "" + s == s && "" + ("-" + s) == "-" + s;
    ToIntLaw(s, "", "", s, "");
    ToIntLaw("-" + s, "", "-", s, "");
  }
}
