/**
 `kernel_itoa`: the numbers in a log line, written backwards into the buffer and turned
 round in place.
 */
module Numerals {
  import opened SerialDevice
  import opened Syscall

  const MINUS: Byte := 45

  /** The table of characters by digit, for remainders of either sign. */
  const NUM2CH := "FEDCBA9876543210123456789ABCDEF"

  function DigitChar(d: int): (c: Byte)
    requires -15 <= d <= 15
    ensures c != 0 && c != MINUS
  {
    NUM2CH[d + 15] as int as Byte
  }

  /** What a reader takes a character for, -1 if it is no digit. */
  function DigitValue(c: Byte): int {
    if 48 <= c <= 57 then c as int - 48 else if 65 <= c <= 70 then c as int - 65 + 10 else -1
  }

  /** The table is right: each half counts up from the middle. */
  lemma DigitTable(d: int)
    requires -15 <= d <= 15
    ensures DigitValue(DigitChar(d)) == if d < 0 then -d else d
  {
  }

  predicate GoodBase(base: int) {
    base == 2 || base == 8 || base == 10 || base == 16
  }

  /** Remainder and quotient as C has them, rounding towards zero. */
  function CRem(a: int, b: int): int
    requires b > 0
  {
    if a >= 0 then a % b else -((-a) % b)
  }

  function CDiv(a: int, b: int): int
    requires b > 0
  {
    if a >= 0 then a / b else -((-a) / b)
  }

  function Magnitude(n: int): nat {
    if n < 0 then -n else n
  }

  /** The digits of `n`, most significant first. */
  function Digits(n: nat, base: int): (s: seq<Byte>)
    requires GoodBase(base)
    ensures s != []
  {
    if n < base then [DigitChar(n)] else Digits(n / base, base) + [DigitChar(n % base)]
  }

  /** What `kernel_itoa` writes: only decimal numbers are signed, and other bases are empty. */
  function Numeral(num: Int32, base: int): seq<Byte> {
    if !GoodBase(base) then []
    else if num < 0 && base == 10 then [MINUS] + Digits(Magnitude(num), base)
    else Digits(AsWord(num), base)
  }

  // ---------------------------------------------------------------- reading a numeral back

  function Value(s: seq<Byte>, base: int): int {
    if s == [] then 0 else Value(s[..|s| - 1], base) * base + DigitValue(s[|s| - 1])
  }

  /** A number with or without a sign, which is the byte 45. */
  function ReadInt(s: seq<Byte>, base: int): int {
    if s != [] && s[0] == 45 then -Value(s[1..], base) else Value(s, base)
  }

  lemma {:induction false} DigitsValue(n: nat, base: int)
    requires GoodBase(base)
    ensures Value(Digits(n, base), base) == n
    decreases n
  {
    hide DigitChar, DigitValue;
    var s := Digits(n, base);
    DigitTable(if n < base then n else n % base);
    if n < base {
      assert s[..0] == [];
    } else {
      DigitsValue(n / base, base);
      assert s[..|s| - 1] == Digits(n / base, base);
    }
  }

  /** No sign and no NUL among the digits, and a leading zero only for zero itself. */
  lemma {:induction false} DigitsShape(n: nat, base: int)
    requires GoodBase(base)
    ensures forall i :: 0 <= i < |Digits(n, base)| ==> Digits(n, base)[i] != 0 && Digits(n, base)[i] != MINUS
    ensures n > 0 ==> Digits(n, base)[0] != 48
    decreases n
  {
    hide DigitChar;
    if n < base {
      DigitTable(n);
    } else {
      DigitsShape(n / base, base);
    }
  }

  lemma LongNumeralIsPositive(n: nat, base: int)
    requires GoodBase(base)
    ensures |Digits(n, base)| > 1 ==> n > 0
  {
  }

  lemma {:induction false} DigitsInRange(n: nat, base: int)
    requires GoodBase(base)
    ensures forall i :: 0 <= i < |Digits(n, base)| ==> 0 <= DigitValue(Digits(n, base)[i]) < base
    decreases n
  {
    hide DigitChar, DigitValue;
    DigitTable(if n < base then n else n % base);
    if n >= base {
      DigitsInRange(n / base, base);
    }
  }

  /** What it means for `s` to be the numeral of `num`: it reads back as the number, negative
      decimals with a sign and everything else as the unsigned 32-bit value; all but the sign
      are digits of the base; and there is no superfluous leading zero. */
  ghost predicate Denotes(s: seq<Byte>, num: Int32, base: int) {
    && ReadInt(s, base) == (if base == 10 || num >= 0 then num else num + 0x1_0000_0000)
    && var digits := if s != [] && s[0] == 45 then s[1..] else s;
       && (forall i :: 0 <= i < |digits| ==> 0 <= DigitValue(digits[i]) < base)
       && digits != [] && (|digits| > 1 ==> digits[0] != 48)
       && (s[0] == 45 <==> num < 0 && base == 10)
  }

  lemma UnsignedDenotes(num: Int32, base: int)
    requires GoodBase(base) && (num >= 0 || base != 10)
    ensures Denotes(Digits(AsWord(num), base), num, base)
  {
    hide Digits, Value, DigitValue, DigitChar;
    var n := AsWord(num);
    DigitsValue(n, base);
    DigitsShape(n, base);
    DigitsInRange(n, base);
    LongNumeralIsPositive(n, base);
  }

  lemma SignedDenotes(num: Int32)
    requires num < 0
    ensures Denotes([MINUS] + Digits(Magnitude(num), 10), num, 10)
  {
    hide Digits, Value, DigitValue, DigitChar;
    DigitsValue(Magnitude(num), 10);
    DigitsShape(Magnitude(num), 10);
    DigitsInRange(Magnitude(num), 10);
    assert ([MINUS] + Digits(Magnitude(num), 10))[1..] == Digits(Magnitude(num), 10);
  }

  /** Round trip: every 32-bit number is read back from its numeral in each of the four bases,
      and in no other base is there a numeral. */
  lemma NumeralRoundTrip(num: Int32, base: int)
    ensures base in {2, 8, 10, 16} ==> Denotes(Numeral(num, base), num, base)
    ensures Numeral(num, base) == [] <==> base !in {2, 8, 10, 16}
    ensures 0 !in Numeral(num, base)
  {
    hide Digits, Denotes, DigitChar;
    if num < 0 && base == 10 {
      SignedDenotes(num);
      DigitsShape(Magnitude(num), 10);
    } else if GoodBase(base) {
      UnsignedDenotes(num, base);
      DigitsShape(AsWord(num), base);
    }
  }

  // ---------------------------------------------------------------- the code

  function Reversed(s: seq<Byte>): (r: seq<Byte>)
    ensures |r| == |s|
    ensures forall i :: 0 <= i < |s| ==> r[i] == s[|s| - 1 - i]
  {
    seq(|s|, i requires 0 <= i < |s| => s[|s| - 1 - i])
  }

  /** The digits still to come, once at least one has been written. */
  function Remaining(n: nat, base: int): seq<Byte>
    requires GoodBase(base)
  {
    if n == 0 then [] else Digits(n, base)
  }

  lemma NextDigit(n: nat, base: int)
    requires GoodBase(base)
    ensures Digits(n, base) == Remaining(n / base, base) + [DigitChar(n % base)]
  {
    if n < base {
      assert n / base == 0 && n % base == n;
    } else {
      assert n / base > 0;
    }
  }

  /** How far the digits `all` of a number have been written, backwards. */
  ghost predicate Progress(all: seq<Byte>, first: bool, n: int, base: int, written: seq<Byte>)
    requires GoodBase(base)
  {
    if first then written == [] && all == Digits(Magnitude(n), base)
    else all == Remaining(Magnitude(n), base) + Reversed(written)
  }

  lemma QuotientMagnitude(n: int, base: int)
    requires GoodBase(base)
    ensures Magnitude(CDiv(n, base)) == Magnitude(n) / base
  {
    assert 0 <= Magnitude(n) / base;
  }

  /** The table gives a remainder and its negative the same character. */
  lemma DigitOfNegative(d: int)
    requires 0 <= d <= 15
    ensures DigitChar(-d) == DigitChar(d)
  {
  }

  lemma RemainderDigit(n: int, base: int)
    requires GoodBase(base)
    ensures -base < CRem(n, base) < base && DigitChar(CRem(n, base)) == DigitChar(Magnitude(n) % base)
  {
    hide DigitChar;
    var r := Magnitude(n) % base;
    assert 0 <= r < base && (CRem(n, base) == r || CRem(n, base) == -r);
    DigitOfNegative(r);
  }

  lemma QuotientSmaller(m: nat, base: int)
    requires GoodBase(base) && m > 0
    ensures m / base < m
  {
  }

  /** Whatever the sign of `n`, C's remainder selects its last digit and C's quotient the
      number without it. */
  lemma ProgressStep(all: seq<Byte>, first: bool, n: int, base: int, written: seq<Byte>)
    requires GoodBase(base) && Progress(all, first, n, base, written) && (first || n != 0)
    ensures -base < CRem(n, base) < base && |written| < |all|
    ensures Progress(all, false, CDiv(n, base), base, written + [DigitChar(CRem(n, base))])
    ensures first || Magnitude(CDiv(n, base)) < Magnitude(n)
  {
    hide CRem, CDiv, Digits, DigitChar;
    QuotientMagnitude(n, base);
    RemainderDigit(n, base);
    if n != 0 {
      QuotientSmaller(Magnitude(n), base);
    }
    var c := DigitChar(CRem(n, base));
    NextDigit(Magnitude(n), base);
    assert Reversed(written + [c]) == [c] + Reversed(written);
    assert first ==> Reversed(written) == [];
  }

  /** Writes the digits of `num` from position `at`, least significant first. The number may
      be negative, as in the signed branch, or not. */
  method WriteBackwards(buf: array<Byte>, at: nat, num: int, base: int) returns (end: nat)
    requires GoodBase(base)
    requires at + |Digits(Magnitude(num), base)| <= buf.Length
    modifies buf
    ensures end == at + |Digits(Magnitude(num), base)|
    ensures buf[at..end] == Reversed(Digits(Magnitude(num), base))
    ensures buf[..at] == old(buf[..at]) && buf[end..] == old(buf[end..])
  {
    hide Digits, CRem, CDiv, Remaining, Progress, Reversed, DigitChar;
    ghost var all := Digits(Magnitude(num), base);
    ghost var written: seq<Byte> := [];
    ProgressStart(num, base);
    var n, first := num, true;
    end := at;
    while first || n != 0
      invariant Progress(all, first, n, base, written)
      invariant end == at + |written| && |written| <= |all|
      invariant forall k :: at <= k < end ==> buf[k] == written[k - at]
      invariant forall k :: 0 <= k < at || end <= k < buf.Length ==> buf[k] == old(buf[k])
      decreases first, Magnitude(n)
    {
      ProgressStep(all, first, n, base, written);
      buf[end] := DigitChar(CRem(n, base));
      written := written + [DigitChar(CRem(n, base))];
      end, n, first := end + 1, CDiv(n, base), false;
    }
    ProgressDone(all, base, written);
    assert buf[at..end] == written;
  }

  lemma ProgressStart(n: int, base: int)
    requires GoodBase(base)
    ensures Progress(Digits(Magnitude(n), base), true, n, base, [])
  {
  }

  lemma ProgressDone(all: seq<Byte>, base: int, written: seq<Byte>)
    requires GoodBase(base) && Progress(all, false, 0, base, written)
    ensures written == Reversed(all) && |written| == |all|
  {
    assert Reversed(Reversed(written)) == written;
  }

  /** The swaps from both ends towards the middle. */
  method TurnRound(buf: array<Byte>, from: nat, to: nat)
    requires from <= to <= buf.Length
    modifies buf
    ensures buf[from..to] == Reversed(old(buf[from..to]))
    ensures buf[..from] == old(buf[..from]) && buf[to..] == old(buf[to..])
  {
    ghost var was := buf[..];
    var start, p := from, to - 1;
    while start < p
      invariant from <= start <= p + 1 && start + p == from + to - 1
      invariant forall k :: from <= k < start ==> buf[k] == was[from + to - 1 - k]
      invariant forall k :: p < k < to ==> buf[k] == was[from + to - 1 - k]
      invariant forall k :: start <= k <= p ==> buf[k] == was[k]
      invariant forall k :: 0 <= k < from ==> buf[k] == was[k]
      invariant forall k :: to <= k < buf.Length ==> buf[k] == was[k]
    {
      buf[start], buf[p] := buf[p], buf[start];
      start, p := start + 1, p - 1;
    }
    MirrorIsReversed(was, buf[..], from, to);
    assert old(buf[from..to]) == was[from..to];
  }

  lemma MirrorIsReversed(was: seq<Byte>, now: seq<Byte>, from: nat, to: nat)
    requires from <= to <= |was| == |now|
    requires forall k :: from <= k < to ==> now[k] == was[from + to - 1 - k]
    ensures now[from..to] == Reversed(was[from..to])
  {
    var r := Reversed(was[from..to]);
    forall i | 0 <= i < to - from ensures now[from..to][i] == r[i] {
      assert now[from + i] == was[from + to - 1 - (from + i)] == was[from..to][to - from - 1 - i];
    }
  }

  /** Digits, NUL, and the turn. */
  method ItoaDigits(buf: array<Byte>, from: nat, n: int, base: int)
    requires GoodBase(base) && from + |Digits(Magnitude(n), base)| < buf.Length
    modifies buf
    ensures buf[from..from + |Digits(Magnitude(n), base)|] == Digits(Magnitude(n), base)
    ensures buf[from + |Digits(Magnitude(n), base)|] == 0
    ensures buf[..from] == old(buf[..from])
    ensures buf[from + |Digits(Magnitude(n), base)| + 1..] == old(buf[from + |Digits(Magnitude(n), base)| + 1..])
  {
    ghost var digits := Digits(Magnitude(n), base);
    var end := WriteBackwards(buf, from, n, base);
    assert old(buf[end + 1..]) == old(buf[end..])[1..] == buf[end..][1..] == buf[end + 1..];
    buf[end] := 0;
    ghost var low := buf[from..end];
    ghost var high := buf[end..];
    assert low == Reversed(digits) && high[0] == 0;
    TurnRound(buf, from, end);
    assert Reversed(Reversed(digits)) == digits;
    assert buf[end] == buf[end..][0] && buf[end + 1..] == buf[end..][1..] == high[1..];
  }

  /** The sign stays in front when the digits are turned round. */
  method ItoaSigned(buf: array<Byte>, at: nat, num: int)
    requires num < 0 && at + 1 + |Digits(Magnitude(num), 10)| < buf.Length
    modifies buf
    ensures buf[at..at + 1 + |Digits(Magnitude(num), 10)|] == [MINUS] + Digits(Magnitude(num), 10)
    ensures buf[at + 1 + |Digits(Magnitude(num), 10)|] == 0
    ensures buf[..at] == old(buf[..at])
    ensures buf[at + 1 + |Digits(Magnitude(num), 10)| + 1..] == old(buf[at + 1 + |Digits(Magnitude(num), 10)| + 1..])
  {
    hide Digits, Magnitude;
    ghost var end := at + 1 + |Digits(Magnitude(num), 10)|;
    buf[at] := MINUS;
    assert buf[end + 1..] == old(buf[end + 1..]);
    ghost var front := buf[..at + 1];
    assert front[..at] == old(buf[..at]) && front[at] == MINUS;
    ItoaDigits(buf, at + 1, num, 10);
    assert buf[..at + 1] == front;
    assert buf[at] == front[at] && buf[..at] == front[..at];
    assert buf[at..end] == [buf[at]] + buf[at + 1..end];
  }

  /** `kernel_itoa` at position `at` of a buffer with enough room: the numeral, then a NUL,
      and nothing else changed. */
  method Itoa(buf: array<Byte>, at: nat, num: Int32, base: int)
    requires at + |Numeral(num, base)| < buf.Length
    modifies buf
    ensures buf[at..at + |Numeral(num, base)|] == Numeral(num, base)
    ensures buf[at + |Numeral(num, base)|] == 0
    ensures buf[..at] == old(buf[..at])
    ensures buf[at + |Numeral(num, base)| + 1..] == old(buf[at + |Numeral(num, base)| + 1..])
    ensures base !in {2, 8, 10, 16} ==> buf[at] == 0
    ensures base in {2, 8, 10, 16} ==> exists end :: at < end < buf.Length && buf[end] == 0 && Denotes(buf[at..end], num, base)
  {
    hide Digits, Denotes, DigitChar;
    NumeralRoundTrip(num, base);
    if !GoodBase(base) {
      buf[at] := 0;
      return;
    }
    if num < 0 && base == 10 {
      ItoaSigned(buf, at, num);
    } else {
      ItoaDigits(buf, at, AsWord(num), base);
    }
    ghost var end := at + |Numeral(num, base)|;
    assert Denotes(buf[at..end], num, base);
  }
}
