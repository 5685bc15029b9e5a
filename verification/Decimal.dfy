/** Parsing an unsigned decimal number of 64 bits, without overflow on the way. */
module Decimal {

  newtype byte = x: int | 0 <= x < 0x100
  newtype uint64 = x: int | 0 <= x < 0x1_0000_0000_0000_0000

  const MAX: uint64 := 0xFFFF_FFFF_FFFF_FFFF
  const ZERO: byte := 48
  const NINE: byte := 57

  predicate IsDigit(c: byte) {
    ZERO <= c <= NINE
  }

  predicate AllDigits(s: seq<byte>) {
    forall i :: 0 <= i < |s| ==> IsDigit(s[i])
  }

  function DigitValue(c: byte): int {
    c as int - ZERO as int
  }

  /** The number that a string of digits stands for */
  function Value(s: seq<byte>): int {
    if s == [] then 0 else 10 * Value(s[..|s| - 1]) + DigitValue(s[|s| - 1])
  }

  /** The characters of a C string: those before the first NUL */
  function Chars(bytes: seq<byte>): seq<byte>
    requires 0 in bytes
    ensures |Chars(bytes)| < |bytes| && bytes[|Chars(bytes)|] == 0
    ensures forall i :: 0 <= i < |Chars(bytes)| ==> Chars(bytes)[i] == bytes[i] != 0
  {
    if bytes[0] == 0 then [] else [bytes[0]] + Chars(bytes[1..])
  }

  /** What the parser accepts */
  predicate Accepted(s: seq<byte>) {
    s != [] && AllDigits(s) && Value(s) <= MAX as int
  }

  lemma ValueSnoc(s: seq<byte>, c: byte)
    ensures Value(s + [c]) == 10 * Value(s) + DigitValue(c)
  {
  }

  /** More digits never make the number smaller. */
  lemma {:induction false} ValueGrows(s: seq<byte>, n: nat)
    requires AllDigits(s) && n <= |s|
    ensures 0 <= Value(s[..n]) <= Value(s)
    decreases |s|
  {
    if n < |s| {
      var front := s[..|s| - 1];
      ValueGrows(front, n);
      assert front[..n] == s[..n];
    } else {
      assert s[..n] == s;
      if s != [] {
        ValueGrows(s[..|s| - 1], |s| - 1);
        assert s[..|s| - 1][..|s| - 1] == s[..|s| - 1];
      }
    }
  }

  datatype Pointer = Null | To(bytes: seq<byte>)

  class Cell {
    var value: uint64
  }

  /** The test before the next digit is exactly that of overflow. */
  lemma NextFits(value: int, digit: int)
    requires 0 <= value && 0 <= digit < 10
    ensures value > (MAX as int - digit) / 10 <==> value * 10 + digit > MAX as int
  {
  }

  lemma NextValue(s: seq<byte>, p: nat)
    requires p < |s|
    ensures Value(s[..p + 1]) == Value(s[..p]) * 10 + DigitValue(s[p])
  {
    assert s[..p + 1] == s[..p] + [s[p]];
    ValueSnoc(s[..p], s[p]);
  }

  /** A string with a part that is too large is not accepted, whatever follows. */
  lemma TooLarge(s: seq<byte>, p: nat)
    requires p <= |s| && Value(s[..p]) > MAX as int
    ensures !Accepted(s)
  {
    if AllDigits(s) {
      ValueGrows(s, p);
    }
  }

  lemma NextDigits(s: seq<byte>, p: nat)
    requires p < |s| && AllDigits(s[..p])
    ensures IsDigit(s[p]) <==> AllDigits(s[..p + 1])
    ensures !IsDigit(s[p]) ==> !AllDigits(s)
  {
  }

  method ParseDecimalUnsigned(text: Pointer, out: Cell?) returns (ok: bool)
    requires text.To? ==> 0 in text.bytes
    modifies out
    ensures ok <==> text.To? && out != null && Accepted(Chars(text.bytes))
    ensures ok ==> out.value as int == Value(Chars(text.bytes))
    ensures !ok && out != null ==> out.value == old(out.value)
  {
    if text.Null? || text.bytes[0] == 0 || out == null {
      return false;
    }
    ghost var s := Chars(text.bytes);
    var value: uint64, p := 0, 0;
    while text.bytes[p] != 0
      invariant 0 <= p <= |s| && AllDigits(s[..p]) && value as int == Value(s[..p])
      invariant out.value == old(out.value)
      decreases |s| - p
    {
      var c := text.bytes[p];
      NextValue(s, p);
      NextDigits(s, p);
      if c < ZERO || c > NINE {
        return false;
      }
      var digit := (c - ZERO) as uint64;
      NextFits(value as int, digit as int);
      if value > (MAX - digit) / 10 {
        TooLarge(s, p + 1);
        return false;
      }
      value := value * 10 + digit;
      p := p + 1;
    }
    assert s[..p] == s;
    out.value := value;
    return true;
  }

  // ----- Printing ----------------------------------------------------------------------------------

  function Digit(n: nat): byte
    requires n < 10
  {
    n as byte + ZERO
  }

  /** The decimal digits of n, without leading zeros */
  function Printed(n: nat): seq<byte> {
    if n < 10 then [Digit(n)] else Printed(n / 10) + [Digit(n % 10)]
  }

  /** A printed number is a string of digits with its own value; so it is accepted exactly if it is in range. */
  lemma {:induction false} PrintedValue(n: nat)
    ensures AllDigits(Printed(n)) && Printed(n) != [] && Value(Printed(n)) == n
    ensures Accepted(Printed(n)) <==> n <= MAX as int
  {
    if n < 10 {
      ValueSnoc([], Digit(n));
      assert [] + [Digit(n)] == [Digit(n)];
    } else {
      PrintedValue(n / 10);
      ValueSnoc(Printed(n / 10), Digit(n % 10));
    }
  }

  ghost predicate NoLeadingZero(s: seq<byte>) {
    |s| == 1 || (|s| > 1 && s[0] != ZERO)
  }

  lemma {:induction false} ValuePositive(s: seq<byte>)
    requires AllDigits(s) && s != [] && s[0] != ZERO
    ensures Value(s) > 0
  {
    ValueSnoc([], s[0]);
    assert s[..1] == [] + [s[0]];
    ValueGrows(s, 1);
  }

  /** Printing gives back what was parsed, unless that had leading zeros. */
  lemma {:induction false} ParsedPrinted(s: seq<byte>)
    requires AllDigits(s) && s != []
    ensures 0 <= Value(s)
    ensures Printed(Value(s)) == s <==> NoLeadingZero(s)
    decreases |s|
  {
    ValueGrows(s, |s|);
    assert s[..|s|] == s;
    if NoLeadingZero(s) {
      WithoutZeros(s);
    } else {
      PrintedLeads(Value(s));
    }
  }

  lemma {:induction false} WithoutZeros(s: seq<byte>)
    requires AllDigits(s) && NoLeadingZero(s)
    ensures 0 <= Value(s) && Printed(Value(s)) == s
    decreases |s|
  {
    var front, last := s[..|s| - 1], s[|s| - 1];
    assert s == front + [last];
    ValueSnoc(front, last);
    if |s| == 1 {
      assert front == [];
    } else {
      ValuePositive(front);
      WithoutZeros(front);
      assert Value(s) / 10 == Value(front) && Value(s) % 10 == DigitValue(last);
    }
  }

  lemma {:induction false} PrintedLeads(n: nat)
    ensures NoLeadingZero(Printed(n)) && Printed(n) != [] && (n > 0 ==> Printed(n)[0] != ZERO)
  {
    if n >= 10 {
      PrintedLeads(n / 10);
    }
  }
}
