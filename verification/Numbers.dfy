/** Numbers as text: itoa, strrev and the number formats of printf. */
module Numbers {
  import opened Bytes

  const WORD: nat := 0x1_0000_0000
  const ZERO: byte := 48
  const MINUS: byte := 45

  predicate Radix(r: nat) {
    2 <= r <= 36
  }

  function DigitChar(d: nat): byte
    requires d < 36
  {
    if d < 10 then 48 + d else 55 + d
  }

  /** The digits are those of the table in itoa. */
  lemma DigitCharIs(d: nat)
    requires d < 36
    ensures DigitChar(d) == "0123456789ABCDEFGHIJKLMNOPQRSTUVWXYZ"[d] as int
  {
  }

  predicate IsDigit(c: byte, radix: nat) {
    (48 <= c < 58 && c - 48 < radix) || (65 <= c < 91 && c - 55 < radix)
  }

  function DigitValue(c: byte): nat
    requires IsDigit(c, 36)
  {
    if c < 58 then c - 48 else c - 55
  }

  predicate IsNumeral(s: seq<byte>, radix: nat) {
    forall c :: c in s ==> IsDigit(c, radix)
  }

  /** The value of a numeral. */
  function Eval(s: seq<byte>, radix: nat): nat
    requires Radix(radix) && IsNumeral(s, radix)
  {
    if s == [] then 0
    else
      assert s[|s| - 1] in s;
      Eval(s[..|s| - 1], radix) * radix + DigitValue(s[|s| - 1])
  }

  /** The numeral of a value. */
  function Digits(v: nat, radix: nat): (s: seq<byte>)
    requires Radix(radix)
    decreases v
  {
    if v < radix then [DigitChar(v)] else Digits(Quotient(v, radix), radix) + [DigitChar(v % radix)]
  }

  function Quotient(v: nat, radix: nat): (q: nat)
    requires radix >= 2
    ensures v > 0 ==> q < v
    ensures v == q * radix + v % radix && v % radix < radix
  {
    var q := v / radix;
    assert v == radix * q + v % radix;
    if q > 0 then
      assert q * radix >= q * 2;
      q
    else q
  }

  /** The numeral evaluates to the value and has no leading zero, except for zero itself. */
  lemma {:induction false} DigitsEvaluate(v: nat, radix: nat)
    requires Radix(radix)
    ensures IsNumeral(Digits(v, radix), radix) && Eval(Digits(v, radix), radix) == v
    ensures Digits(v, radix) != [] && (Digits(v, radix)[0] == ZERO <==> v == 0)
    decreases v
  {
    if v >= radix {
      var q, s := Quotient(v, radix), Digits(v, radix);
      DigitsEvaluate(q, radix);
      assert s[..|s| - 1] == Digits(q, radix);
      assert q > 0;
    } else {
      assert [DigitChar(v)][..0] == [];
    }
  }

  /** It is the only such numeral. */
  lemma {:induction false} NumeralUnique(s: seq<byte>, radix: nat)
    requires Radix(radix) && IsNumeral(s, radix) && s != [] && (s[0] == ZERO ==> |s| == 1)
    ensures Digits(Eval(s, radix), radix) == s
    decreases |s|
  {
    var n := |s|;
    var front, last := s[..n - 1], s[n - 1];
    assert last in s;
    var d := DigitValue(last);
    if n == 1 {
      assert Eval(s, radix) == Eval([], radix) * radix + d == d;
    } else {
      assert s[0] in s;
      NumeralUnique(front, radix);
      var q := Eval(front, radix);
      DigitsEvaluate(q, radix);
      EvalStep(q, d, radix);
    }
  }

  lemma EvalStep(q: nat, d: nat, radix: nat)
    requires Radix(radix) && 0 < q && d < radix
    ensures Digits(q * radix + d, radix) == Digits(q, radix) + [DigitChar(d)]
  {
    QuotientIs(q, d, radix);
  }

  lemma QuotientIs(q: nat, d: nat, radix: nat)
    requires Radix(radix) && 0 < q && d < radix
    ensures q * radix + d >= radix
    ensures Quotient(q * radix + d, radix) == q && (q * radix + d) % radix == d
  {
    ProductAtLeast(radix, q);
    DivModUnique(q * radix + d, radix, q, d);
  }

  lemma DivModUnique(v: nat, r: nat, q: nat, d: nat)
    requires 0 < r && d < r && v == q * r + d
    ensures v / r == q && v % r == d
  {
    var x := v / r - q;
    assert r * x == d - v % r by {
      assert v == r * (v / r) + v % r;
      assert r * (v / r) == r * q + r * x;
    }
    ProductAtLeast(r, x);
  }

  lemma ProductAtLeast(p: nat, d: int)
    ensures d > 0 ==> p * d >= p
    ensures d < 0 ==> p * d <= -(p as int)
  {
  }

  function Power(b: nat, e: nat): nat {
    if e == 0 then 1 else b * Power(b, e - 1)
  }

  /** A value below radix^k has at most k digits. */
  lemma {:induction false} DigitsLength(v: nat, radix: nat, k: nat)
    requires Radix(radix) && 0 < k && v < Power(radix, k)
    ensures 0 < |Digits(v, radix)| <= k
    decreases k
  {
    assert k == 1 ==> Power(radix, k) == radix * Power(radix, 0);
    if v >= radix {
      var q := Quotient(v, radix);
      assert q < Power(radix, k - 1) by {
        if q >= Power(radix, k - 1) {
          MulMonotone(Power(radix, k - 1), q, radix);
          assert false;
        }
      }
      DigitsLength(q, radix, k - 1);
    }
  }

  lemma MulMonotone(a: nat, b: nat, c: nat)
    requires a <= b
    ensures a * c <= b * c && c * a <= c * b
  {
  }

  lemma {:induction false} PowerMonotone(a: nat, b: nat, e: nat)
    requires a <= b
    ensures Power(a, e) <= Power(b, e)
  {
    if e > 0 {
      PowerMonotone(a, b, e - 1);
      MulMonotone(Power(a, e - 1), Power(b, e - 1), a);
      MulMonotone(a, b, Power(b, e - 1));
    }
  }

  lemma WordIsPower()
    ensures Power(2, 32) == WORD && Power(16, 8) == WORD
  {
    assert Power(2, 8) == 256;
    assert Power(2, 16) == 65536 by { assert Power(2, 12) == 4096; }
    assert Power(2, 24) == 0x100_0000 by { assert Power(2, 20) == 0x10_0000; }
    assert Power(2, 28) == 0x1000_0000;
    assert Power(16, 4) == 65536;
  }

  lemma WordDigits(v: nat, radix: nat)
    requires Radix(radix) && v < WORD
    ensures 0 < |Digits(v, radix)| <= 32
    ensures radix == 16 ==> |Digits(v, radix)| <= 8
  {
    WordIsPower();
    PowerMonotone(2, radix, 32);
    DigitsLength(v, radix, 32);
    if radix == 16 {
      DigitsLength(v, 16, 8);
    }
  }

  // ---------- itoa ----------

  /** The digits as the loop produces them, lowest place first. */
  function LowFirst(v: nat, radix: nat): seq<byte>
    requires Radix(radix)
    decreases v
  {
    if v == 0 then [] else [DigitChar(v % radix)] + LowFirst(Quotient(v, radix), radix)
  }

  function Reverse(s: seq<byte>): (r: seq<byte>)
    ensures |r| == |s| && forall i :: 0 <= i < |s| ==> r[i] == s[|s| - 1 - i]
  {
    if s == [] then [] else Reverse(s[1..]) + [s[0]]
  }

  lemma QuotientPositive(v: nat, radix: nat)
    requires 2 <= radix <= v
    ensures Quotient(v, radix) > 0
  {
  }

  lemma SmallQuotient(v: nat, radix: nat)
    requires 2 <= radix && v < radix
    ensures Quotient(v, radix) == 0 && v % radix == v
  {
    DivModUnique(v, radix, 0, v);
  }

  lemma {:induction false} ReversedDigits(v: nat, radix: nat)
    requires Radix(radix) && v > 0
    ensures Reverse(LowFirst(v, radix)) == Digits(v, radix)
    decreases v
  {
    var q := Quotient(v, radix);
    assert LowFirst(v, radix)[1..] == LowFirst(q, radix);
    if v >= radix {
      QuotientPositive(v, radix);
      ReversedDigits(q, radix);
    } else {
      SmallQuotient(v, radix);
      assert Reverse(LowFirst(v, radix)[1..]) == [];
    }
  }

  lemma {:induction false} NumeralsHaveNoNul(v: nat, radix: nat)
    requires Radix(radix)
    ensures NUL !in LowFirst(v, radix) && NUL !in Digits(v, radix)
    decreases v
  {
    if v > 0 {
      NumeralsHaveNoNul(Quotient(v, radix), radix);
    }
  }

  /** The C string `s` is stored at `at`. */
  predicate Stored(buf: seq<byte>, at: nat, s: seq<byte>) {
    at + |s| < |buf| && (forall i :: at <= i < at + |s| ==> buf[i] == s[i - at]) && buf[at + |s|] == NUL && IsCString(s)
  }

  method StrLen(buf: array<byte>, at: nat, ghost s: seq<byte>) returns (len: nat)
    requires Stored(buf[..], at, s)
    ensures len == |s|
  {
    len := 0;
    assert forall i :: 0 <= i < |s| ==> s[i] in s;
    while buf[at + len] != NUL
      invariant 0 <= len <= |s|
      decreases |s| - len
    {
      len := len + 1;
    }
  }

  /** strrev: in-place reversal of the string at `at`. */
  method StrRev(buf: array<byte>, at: nat, ghost s: seq<byte>)
    requires Stored(buf[..], at, s)
    modifies buf
    ensures Stored(buf[..], at, Reverse(s))
    ensures forall i :: 0 <= i < buf.Length && !(at <= i < at + |s|) ==> buf[i] == old(buf[i])
  {
    var len := StrLen(buf, at, s);
    var beg: int, end: int := 0, len as int - 1;
    while beg < end
      invariant 0 <= beg && beg + end == |s| - 1
      invariant forall i :: at <= i < at + |s| ==>
                  buf[i] == if beg <= i - at <= end then s[i - at] else s[|s| - 1 - (i - at)]
      invariant forall i :: 0 <= i < buf.Length && !(at <= i < at + |s|) ==> buf[i] == old(buf[i])
    {
      var tmp := buf[at + end];
      buf[at + end] := buf[at + beg];
      buf[at + beg] := tmp;
      beg := beg + 1;
      end := end - 1;
    }
    assert forall c :: c in Reverse(s) ==> c in s by {
      assert forall i :: 0 <= i < |s| ==> Reverse(s)[i] in s;
    }
  }

  /** itoa writes the numeral of a 32-bit value. */
  method Itoa(value: nat, buf: array<byte>, at: nat, radix: nat)
    requires Radix(radix) && value < WORD && at + 33 <= buf.Length
    modifies buf
    ensures Stored(buf[..], at, Digits(value, radix)) && |Digits(value, radix)| <= 32
    ensures forall i :: 0 <= i < at ==> buf[i] == old(buf[i])
  {
    WordDigits(value, radix);
    NumeralsHaveNoNul(value, radix);
    if value == 0 {
      buf[at] := 48;
      buf[at + 1] := NUL;
      return;
    }
    ReversedDigits(value, radix);
    ghost var low := LowFirst(value, radix);
    var newval, len := value, 0;
    while newval > 0
      invariant 0 <= newval && 0 <= len <= |low|
      invariant low[len..] == LowFirst(newval, radix)
      invariant forall i :: at <= i < at + len ==> buf[i] == low[i - at]
      invariant forall i :: 0 <= i < at ==> buf[i] == old(buf[i])
      decreases newval
    {
      assert Quotient(newval, radix) == newval / radix;
      assert low[len] == DigitChar(newval % radix);
      assert low[len + 1..] == low[len..][1..];
      buf[at + len] := DigitChar(newval % radix);
      len := len + 1;
      newval := newval / radix;
    }
    buf[at + len] := NUL;
    StrRev(buf, at, low);
  }

  // ---------- printf ----------

  lemma {:induction false} LeadingZeros(n: nat, s: seq<byte>, radix: nat)
    requires Radix(radix) && IsNumeral(s, radix)
    ensures IsNumeral(Repeat(n) + s, radix) && Eval(Repeat(n) + s, radix) == Eval(s, radix)
    decreases n + |s|
  {
    var t := Repeat(n) + s;
    if s != [] {
      assert s[|s| - 1] in s;
      LeadingZeros(n, s[..|s| - 1], radix);
      assert t[..|t| - 1] == Repeat(n) + s[..|s| - 1];
    } else if n > 0 {
      LeadingZeros(n - 1, [], radix);
      assert t[..|t| - 1] == Repeat(n - 1) + [];
    }
  }

  function Repeat(n: nat): (s: seq<byte>)
    ensures |s| == n && forall i :: 0 <= i < n ==> s[i] == ZERO
  {
    seq(n, i => ZERO)
  }

  method Puts(buf: array<byte>, at: nat, ghost s: seq<byte>) returns (out: seq<byte>)
    requires Stored(buf[..], at, s)
    ensures out == s
  {
    var len := StrLen(buf, at, s);
    out := buf[at..at + len];
  }

  /** %#x: always eight digits of the value. */
  method PrintHex8(value: nat) returns (out: seq<byte>)
    requires value < WORD
    ensures |out| == 8 && IsNumeral(out, 16) && Eval(out, 16) == value
  {
    WordDigits(value, 16);
    DigitsEvaluate(value, 16);
    ghost var digits := Digits(value, 16);
    var convBuf := new byte[64];
    Itoa(value, convBuf, 8, 16);
    var start := StrLen(convBuf, 8, digits);
    var i := start;
    while i < 8
      invariant start <= i <= 8
      invariant forall j :: start <= j < i ==> convBuf[j] == ZERO
      invariant Stored(convBuf[..], 8, digits)
    {
      convBuf[i] := 48;
      i := i + 1;
    }
    LeadingZeros(8 - start, digits, 16);
    ghost var whole := Repeat(8 - start) + digits;
    out := Puts(convBuf, start, whole);
  }

  /** %d: the sign, then the numeral of the magnitude, for every 32-bit value. */
  method PrintSigned(value: int) returns (out: seq<byte>)
    requires -0x8000_0000 <= value < 0x8000_0000
    ensures out == if value < 0 then [45] + Digits(-value, 10) else Digits(value, 10)
  {
    var convBuf := new byte[36];
    NumeralsHaveNoNul(if value < 0 then -value else value, 10);
    if value < 0 {
      convBuf[0] := 45;
      Itoa(-value, convBuf, 1, 10);
      ghost var s := [MINUS] + Digits(-value, 10);
      out := Puts(convBuf, 0, s);
    } else {
      Itoa(value, convBuf, 0, 10);
      out := Puts(convBuf, 0, Digits(value, 10));
    }
  }
}
