/** Printing numbers (student-distrib/lib.c: itoa, strrev and the number cases of printf;
    syscalls/ece391support.c has the same two routines). */
module Numbers {
  import opened Bytes
  import opened Arithmetic

  const ZERO_CHAR: byte := 48
  const MINUS: byte := 45

  /** `lookup[d]` */
  function Digit(d: nat): byte
    requires d < 36
  {
    if d < 10 then 48 + d else 55 + d
  }

  function DigitValue(c: byte): int {
    if 48 <= c <= 57 then c - 48 else c - 55
  }

  predicate IsDigit(c: byte, radix: nat) {
    (48 <= c <= 57 || 65 <= c <= 90) && DigitValue(c) < radix
  }

  ghost predicate Digits(s: seq<byte>, radix: nat) {
    forall i :: 0 <= i < |s| ==> IsDigit(s[i], radix)
  }

  /** The number a digit string denotes, most significant digit first. */
  function Value(s: seq<byte>, radix: nat): int {
    if s == [] then 0 else Value(s[..|s| - 1], radix) * radix + DigitValue(s[|s| - 1])
  }

  /** The usual numeral: no leading zero, except for zero itself. */
  function Numeral(v: nat, radix: nat): (s: seq<byte>)
    requires 2 <= radix <= 36
    ensures s != []
  {
    if v < radix then [Digit(v)] else Smaller(v, radix); Numeral(v / radix, radix) + [Digit(v % radix)]
  }

  lemma Smaller(v: nat, radix: nat)
    requires radix >= 2 && v >= 1
    ensures v / radix < v && v % radix < radix && v == v / radix * radix + v % radix
  {
    var q := v / radix;
    assert v == radix * q + v % radix;
    if q > 0 { assert radix * q >= 2 * q; }
  }

  /** Reading a numeral back gives the number. */
  lemma {:induction false} NumeralValue(v: nat, radix: nat)
    requires 2 <= radix <= 36
    ensures Value(Numeral(v, radix), radix) == v && Digits(Numeral(v, radix), radix)
    ensures v > 0 ==> Numeral(v, radix)[0] != ZERO_CHAR
  {
    if v < radix {
      assert Numeral(v, radix)[..0] == [];
    } else {
      Smaller(v, radix);
      DivPositive(v, radix);
      NumeralValue(v / radix, radix);
      var front := Numeral(v / radix, radix);
      assert (front + [Digit(v % radix)])[..|front|] == front;
    }
  }

  lemma DivPositive(v: nat, radix: nat)
    requires v >= radix >= 2
    ensures v / radix > 0
  {
    Smaller(v, radix);
    assert v / radix * radix > 0;
  }

  /** There is no other digit string without leading zeros that denotes the same number. */
  lemma {:induction false} NumeralUnique(s: seq<byte>, radix: nat)
    requires 2 <= radix <= 36 && s != [] && Digits(s, radix)
    requires |s| > 1 ==> s[0] != ZERO_CHAR
    ensures Value(s, radix) >= 0 && Numeral(Value(s, radix), radix) == s
    ensures s[0] != ZERO_CHAR ==> Value(s, radix) > 0
  {
    var front, c := s[..|s| - 1], s[|s| - 1];
    assert s == front + [c] && IsDigit(c, radix);
    if |s| > 1 {
      assert front[0] == s[0] && Digits(front, radix);
      NumeralUnique(front, radix);
      NumeralStep(Value(front, radix), DigitValue(c), radix);
    } else {
      assert front == [];
    }
  }

  lemma NumeralStep(q: nat, d: nat, radix: nat)
    requires 2 <= radix <= 36 && q > 0 && d < radix
    ensures q * radix + d > 0
    ensures Numeral(q * radix + d, radix) == Numeral(q, radix) + [Digit(d)]
  {
    Divided(q * radix + d, radix, q, d);
    assert q * radix >= radix;
  }

  lemma {:induction false} NumeralLength(v: nat, radix: nat, n: nat)
    requires 2 <= radix <= 36 && v < Power(radix, n) && n > 0
    ensures |Numeral(v, radix)| <= n
  {
    if v >= radix {
      Smaller(v, radix);
      assert Power(radix, 1) == radix * Power(radix, 0);
      if n > 1 {
        DivBelow(v / radix, radix, Power(radix, n - 1));
        NumeralLength(v / radix, radix, n - 1);
      }
    }
  }

  lemma DivBelow(q: nat, radix: nat, bound: nat)
    requires q * radix < radix * bound
    ensures q < bound
  {
    TimesOrder(bound, q, radix);
  }

  function Power(b: nat, n: nat): nat {
    if n == 0 then 1 else b * Power(b, n - 1)
  }

  // ----- the code

  method Strlen(buf: array<byte>, at: nat) returns (n: nat)
    requires at <= buf.Length && IndexOf(buf[at..], NUL) < buf.Length - at
    ensures n == IndexOf(buf[at..], NUL)
  {
    n := 0;
    ghost var len := IndexOf(buf[at..], NUL);
    while buf[at + n] != NUL
      invariant n <= len
      decreases len - n
    {
      assert buf[at..][n] == buf[at + n];
      n := n + 1;
    }
    assert buf[at..][n] == NUL;
  }

  function Reversed(s: seq<byte>): (r: seq<byte>)
    ensures |r| == |s| && forall i :: 0 <= i < |s| ==> r[i] == s[|s| - 1 - i]
  {
    seq(|s|, i requires 0 <= i < |s| => s[|s| - 1 - i])
  }

  /** Memory `b` is `m` with the outer `done` bytes on both sides of the text swapped. */
  ghost predicate HalfReversed(m: seq<byte>, b: seq<byte>, at: nat, n: nat, done: nat) {
    && |b| == |m| && at + n <= |m| && done <= n
    && forall k {:trigger b[k]} :: 0 <= k < |m| ==>
         b[k] == if at <= k < at + n && (k < at + done || at + n - done <= k) then m[at + at + n - 1 - k] else m[k]
  }

  lemma SwapMore(m: seq<byte>, b: seq<byte>, at: nat, n: nat, done: nat)
    requires HalfReversed(m, b, at, n, done) && 2 * done + 1 < n
    ensures var beg, end := at + done, at + n - 1 - done;
      HalfReversed(m, b[beg := b[end]][end := b[beg]], at, n, done + 1)
  {
    var beg, end := at + done, at + n - 1 - done;
    assert b[beg] == m[beg] && b[end] == m[end];
  }

  /** With at most the middle byte left, the whole text is reversed. */
  lemma AllReversed(m: seq<byte>, b: seq<byte>, at: nat, n: nat, done: nat)
    requires HalfReversed(m, b, at, n, done) && n <= 2 * done + 1
    ensures b[at..at + n] == Reversed(m[at..at + n])
    ensures forall k :: 0 <= k < |m| && !(at <= k < at + n) ==> b[k] == m[k]
  {
    var text := m[at..at + n];
    forall i | 0 <= i < n ensures b[at..at + n][i] == Reversed(text)[i] {
      assert b[at + i] == m[at + n - 1 - i] == text[n - 1 - i];
    }
  }

  /** `strrev` on the text at `at`. */
  method Strrev(buf: array<byte>, at: nat) returns (n: nat)
    requires at <= buf.Length && IndexOf(buf[at..], NUL) < buf.Length - at
    modifies buf
    ensures n == old(IndexOf(buf[at..], NUL))
    ensures buf[at..at + n] == Reversed(old(buf[at..at + IndexOf(buf[at..], NUL)]))
    ensures forall k :: 0 <= k < buf.Length && !(at <= k < at + n) ==> buf[k] == old(buf[k])
  {
    hide IndexOf;
    hide Reversed;
    n := Strlen(buf, at);
    ghost var m, done := buf[..], 0;
    var beg, end := at, at + n - 1;
    assert HalfReversed(m, buf[..], at, n, 0);
    hide HalfReversed;
    while beg < end
      invariant beg == at + done && end == at + n - 1 - done
      invariant HalfReversed(m, buf[..], at, n, done)
    {
      SwapMore(m, buf[..], at, n, done);
      buf[beg], buf[end] := buf[end], buf[beg];
      beg, end := beg + 1, end - 1;
      done := done + 1;
    }
    AllReversed(m, buf[..], at, n, done);
  }

  lemma {:induction false} NumeralPrefix(v: nat, radix: nat, low: seq<byte>)
    requires 2 <= radix <= 36 && v > 0
    ensures (if v / radix == 0 then [] else Numeral(v / radix, radix)) + ([Digit(v % radix)] + low) == Numeral(v, radix) + low
  {
    Smaller(v, radix);
    if v < radix {
      DivSmall(v, radix);
    } else {
      DivPositive(v, radix);
    }
  }

  lemma DivSmall(v: nat, radix: nat)
    requires v < radix
    ensures v / radix == 0 && v % radix == v
  {
    Divided(v, radix, 0, v);
  }

  /** `itoa` into the memory at `at`. */
  method Itoa(value: nat, buf: array<byte>, at: nat, radix: nat)
    requires 2 <= radix <= 36
    requires at + |Numeral(value, radix)| < buf.Length
    modifies buf
    ensures forall k :: 0 <= k < buf.Length && !(at <= k <= at + |Numeral(value, radix)|) ==> buf[k] == old(buf[k])
    ensures buf[at..at + |Numeral(value, radix)|] == Numeral(value, radix)
    ensures buf[at + |Numeral(value, radix)|] == NUL
  {
    hide Digit;
    hide Numeral;
    ghost var numeral := Numeral(value, radix);
    if value == 0 {
      ZeroNumeral(radix);
      buf[at] := ZERO_CHAR;
      buf[at + 1] := NUL;
      return;
    }
    var i := WriteDigits(value, buf, at, radix);
    buf[at + i] := NUL;
    NumeralValue(value, radix);
    NoNul(buf, at, i, numeral, radix);
    var n := Strrev(buf, at);
  }

  /** The divide loop of `itoa`: the digits, lowest place first. */
  method WriteDigits(value: nat, buf: array<byte>, at: nat, radix: nat) returns (i: nat)
    requires 2 <= radix <= 36 && value > 0
    requires at + |Numeral(value, radix)| < buf.Length
    modifies buf
    ensures i == |Numeral(value, radix)|
    ensures forall k :: 0 <= k < buf.Length && !(at <= k < at + i) ==> buf[k] == old(buf[k])
    ensures forall k :: at <= k < at + i ==> buf[k] == Numeral(value, radix)[i - 1 - (k - at)]
  {
    hide Digit;
    hide Numeral;
    ghost var numeral := Numeral(value, radix);
    var newval: nat := value;
    i := 0;
    ghost var low: seq<byte> := [];   // the digits written so far, in the order they will print
    while newval > 0
      invariant i == |low| <= |numeral|
      invariant (if newval == 0 then [] else Numeral(newval, radix)) + low == numeral
      invariant forall k :: 0 <= k < buf.Length && !(at <= k < at + i) ==> buf[k] == old(buf[k])
      invariant forall k :: at <= k < at + i ==> buf[k] == low[i - 1 - (k - at)]
    {
      Smaller(newval, radix);
      NumeralPrefix(newval, radix, low);
      buf[at + i] := Digit(newval % radix);
      low := [Digit(newval % radix)] + low;
      newval := newval / radix;
      i := i + 1;
    }
    assert [] + low == low;
  }

  lemma ZeroNumeral(radix: nat)
    requires 2 <= radix <= 36
    ensures Numeral(0, radix) == [ZERO_CHAR]
  {
  }

  lemma NoNul(buf: array<byte>, at: nat, n: nat, numeral: seq<byte>, radix: nat)
    requires radix <= 36 && Digits(numeral, radix) && n == |numeral|
    requires at + n < buf.Length && buf[at + n] == NUL
    requires forall k :: at <= k < at + n ==> buf[k] == numeral[n - 1 - (k - at)]
    ensures IndexOf(buf[at..], NUL) == n
    ensures Reversed(buf[at..at + n]) == numeral
  {
    forall j | 0 <= j < n ensures buf[at..][j] != NUL {
      assert buf[at + j] == numeral[n - 1 - j] && IsDigit(numeral[n - 1 - j], radix);
    }
    IndexOfIs(buf[at..], NUL, n);
  }

  /** `%u` and `%x`: the 36 or 64 bytes of the conversion buffer always suffice. */
  method PrintUnsigned(value: nat, radix: nat) returns (printed: seq<byte>)
    requires value < 0x1_0000_0000 && (radix == 10 || radix == 16)
    ensures printed == Numeral(value, radix)
    ensures Value(printed, radix) == value && (value > 0 ==> printed[0] != ZERO_CHAR)
  {
    Fits32(value, radix);
    NumeralValue(value, radix);
    var conv := new byte[36];
    Itoa(value, conv, 0, radix);
    printed := PutText(conv, 0, |Numeral(value, radix)|, radix);
  }

  /** `%d` */
  method PrintSigned(value: int) returns (printed: seq<byte>)
    requires -0x8000_0000 <= value < 0x8000_0000
    ensures printed == if value < 0 then [45] + Numeral(-value, 10) else Numeral(value, 10)
  {
    var conv := new byte[36];
    if value < 0 {
      Fits32(-value, 10);
      NumeralValue(-value, 10);
      conv[0] := MINUS;
      Itoa(-value, conv, 1, 10);
      var digits := PutText(conv, 1, |Numeral(-value, 10)|, 10);
      printed := [conv[0]] + digits;
    } else {
      Fits32(value, 10);
      NumeralValue(value, 10);
      Itoa(value, conv, 0, 10);
      printed := PutText(conv, 0, |Numeral(value, 10)|, 10);
    }
  }

  function Zeros(n: nat): seq<byte> {
    seq(n, _ => ZERO_CHAR)
  }

  /** `%#x`: the digits are built from byte 8 on and padded downwards, or rather from byte
      `strlen` up to byte 8. What is printed is exactly eight digits that denote the value. */
  method PrintHexAligned(value: nat) returns (printed: seq<byte>)
    requires value < 0x1_0000_0000
    ensures |printed| == 8 && Digits(printed, 16) && Value(printed, 16) == value
    ensures |Numeral(value, 16)| <= 8 && printed == Zeros(8 - |Numeral(value, 16)|) + Numeral(value, 16)
  {
    hide Numeral;
    hide Value;
    hide Digits;
    hide IndexOf;
    ghost var numeral := Numeral(value, 16);
    HexLength(value);
    NumeralValue(value, 16);
    var conv := new byte[64];
    Itoa(value, conv, 8, 16);
    NoNulForward(conv, 8, numeral, 16);
    var start := Strlen(conv, 8);
    var i := start;
    while i < 8
      invariant start <= i <= 8
      invariant forall k :: start <= k < i ==> conv[k] == ZERO_CHAR
      invariant conv[8..8 + start] == numeral && conv[8 + start] == NUL
    {
      conv[i] := ZERO_CHAR;
      i := i + 1;
    }
    assert conv[start..8] == Zeros(8 - start);
    assert conv[start..start + 8] == conv[start..8] + conv[8..8 + start];
    ZerosValue(8 - start, numeral, 16);
    printed := PutText(conv, start, 8, 16);
  }

  lemma Fits32(value: nat, radix: nat)
    requires value < 0x1_0000_0000 && (radix == 10 || radix == 16)
    ensures |Numeral(value, radix)| < 35
  {
    hide Numeral;
    HexLength(value);
    assert Power(10, 10) == 10_000_000_000 by { Power10(); }
    NumeralLength(value, 10, 10);
  }

  lemma Power10()
    ensures Power(10, 10) == 10_000_000_000
  {
    assert Power(10, 3) == 1000 && Power(10, 4) == 10 * Power(10, 3) && Power(10, 5) == 10 * Power(10, 4);
    assert Power(10, 6) == 10 * Power(10, 5) && Power(10, 7) == 10 * Power(10, 6) && Power(10, 8) == 10 * Power(10, 7);
    assert Power(10, 9) == 10 * Power(10, 8) && Power(10, 10) == 10 * Power(10, 9);
  }

  lemma HexLength(value: nat)
    requires value < 0x1_0000_0000
    ensures |Numeral(value, 16)| <= 8
  {
    hide Numeral;
    assert Power(16, 2) == 0x100;
    assert Power(16, 4) == 0x1_0000;
    assert Power(16, 6) == 0x100_0000;
    assert Power(16, 8) == 0x1_0000_0000;
    NumeralLength(value, 16, 8);
  }

  lemma NoNulForward(buf: array<byte>, at: nat, numeral: seq<byte>, radix: nat)
    requires radix <= 36 && Digits(numeral, radix)
    requires at + |numeral| < buf.Length && buf[at + |numeral|] == NUL
    requires buf[at..at + |numeral|] == numeral
    ensures IndexOf(buf[at..], NUL) == |numeral|
  {
    forall j | 0 <= j < |numeral| ensures buf[at..][j] != NUL {
      assert buf[at..at + |numeral|][j] == buf[at + j] && IsDigit(numeral[j], radix);
    }
    IndexOfIs(buf[at..], NUL, |numeral|);
  }

  /** `puts`: the text from `at` on. */
  method PutText(buf: array<byte>, at: nat, ghost n: nat, ghost radix: nat) returns (printed: seq<byte>)
    requires at + n < buf.Length && buf[at + n] == NUL
    requires radix <= 36 && Digits(buf[at..at + n], radix)
    ensures printed == buf[at..at + n]
  {
    NoNulForward(buf, at, buf[at..at + n], radix);
    printed := [];
    var index := 0;
    while buf[at + index] != NUL
      invariant index <= n && printed == buf[at..at + index]
      decreases n - index
    {
      assert buf[at..][index] == buf[at + index];
      printed := printed + [buf[at + index]];
      index := index + 1;
    }
    assert buf[at..][index] == NUL;
  }

  lemma {:induction false} ZerosValue(n: nat, s: seq<byte>, radix: nat)
    requires radix >= 2 && Digits(s, radix)
    ensures Digits(Zeros(n) + s, radix) && Value(Zeros(n) + s, radix) == Value(s, radix)
    decreases |s|, n
  {
    var all := Zeros(n) + s;
    if s != [] {
      ZerosValue(n, s[..|s| - 1], radix);
      assert all[..|all| - 1] == Zeros(n) + s[..|s| - 1];
    } else if n > 0 {
      ZerosValue(n - 1, s, radix);
      assert all[..|all| - 1] == Zeros(n - 1) + s;
    }
  }
}
