/** Byte strings, CRLF, and the two number conversions the protocol uses. */
module Text {

  datatype Option<+T> = None | Some(value: T) {
    function UnwrapOr(default: T): T {
      if Some? then value else default
    }
  }

  /** A `std::string`.  Nothing below depends on the range of `char`, so every
      statement holds in particular for strings of bytes. */
  type Bytes = seq<char>

  const CRLF: Bytes := ['\r', '\n']
  const INT_MAX := 0x7FFF_FFFF
  const SIZE_MODULUS := 0x1_0000_0000_0000_0000

  /** There is a CRLF at offset `i`, both characters being buffered. */
  predicate CrlfAt(s: Bytes, i: int) {
    0 <= i && i + 1 < |s| && s[i] == '\r' && s[i + 1] == '\n'
  }

  predicate NoCrlf(s: Bytes) {
    forall i | 0 <= i < |s| :: !CrlfAt(s, i)
  }

  lemma Assoc<T>(a: seq<T>, b: seq<T>, c: seq<T>)
    ensures (a + b) + c == a + (b + c)
  {
  }

  lemma Split<T>(s: seq<T>, k: nat)
    requires k <= |s|
    ensures s == s[..k] + s[k..]
    ensures k < |s| ==> s[..k + 1] == s[..k] + [s[k]] && s[k..] == [s[k]] + s[k + 1..]
    ensures k < |s| ==> s[k..][0] == s[k] && s[k..][1..] == s[k + 1..]
  {
  }

  lemma TakeFromHead<T>(s: seq<T>, k: nat)
    requires k < |s|
    ensures s[..k + 1] != [] && s[..k + 1][0] == s[0] && s[..k + 1][1..] == s[1..][..k]
  {
  }

  // ----- std::to_string on an unsigned value -----

  predicate IsDigit(c: char) {
    '0' <= c <= '9'
  }

  function DigitChar(d: nat): (c: char)
    requires d < 10
    ensures IsDigit(c) && (c as int) - ('0' as int) == d
  {
    '0' + (d as char)
  }

  function Decimal(n: nat): (s: Bytes)
    ensures |s| > 0 && forall i | 0 <= i < |s| :: IsDigit(s[i])
    ensures s[0] == '0' <==> n == 0
    ensures n < 10 <==> |s| == 1
  {
    if n < 10 then [DigitChar(n)] else Decimal(n / 10) + [DigitChar(n % 10)]
  }

  /** The value of the leading digits of `s`, read after `acc`. */
  function DigitsValue(s: Bytes, acc: nat): nat {
    if |s| > 0 && IsDigit(s[0])
    then DigitsValue(s[1..], 10 * acc + ((s[0] as int) - ('0' as int)))
    else acc
  }

  lemma {:induction false} DigitsValueAppend(a: Bytes, b: Bytes, acc: nat)
    requires forall i | 0 <= i < |a| :: IsDigit(a[i])
    ensures DigitsValue(a + b, acc) == DigitsValue(b, DigitsValue(a, acc))
  {
    if a == [] {
      assert a + b == b;
    } else {
      assert (a + b)[1..] == a[1..] + b;
      DigitsValueAppend(a[1..], b, 10 * acc + ((a[0] as int) - ('0' as int)));
    }
  }

  /** Reading back what `Decimal` printed gives the number. */
  lemma {:induction false} DecimalValue(n: nat)
    ensures DigitsValue(Decimal(n), 0) == n
  {
    if n >= 10 {
      DecimalValue(n / 10);
      DigitsValueAppend(Decimal(n / 10), [DigitChar(n % 10)], 0);
      assert [DigitChar(n % 10)][1..] == [];
      assert DigitsValue([DigitChar(n % 10)], n / 10) == 10 * (n / 10) + n % 10;
    } else {
      assert [DigitChar(n)][1..] == [];
    }
  }

  lemma DecimalStep(n: nat, digit: nat)
    requires n > 0 && digit < 10
    ensures Decimal(10 * n + digit) == Decimal(n) + [DigitChar(digit)]
  {
  }

  lemma OneDigit(digit: nat, acc: nat)
    requires digit < 10
    ensures DigitsValue([DigitChar(digit)], acc) == 10 * acc + digit
  {
    assert [DigitChar(digit)][1..] == [];
  }

  /** And `Decimal` is the only form without needless zeros: nothing but digits, and
      no zero in front of others. */
  lemma {:induction false} PlainForm(s: Bytes)
    requires |s| > 0 && (forall i | 0 <= i < |s| :: IsDigit(s[i])) && (|s| > 1 ==> s[0] != '0')
    ensures s == Decimal(DigitsValue(s, 0))
  {
    var n := |s| - 1;
    var front, digit := s[..n], (s[n] as int) - ('0' as int);
    Split(s, n);
    assert s[n..] == [DigitChar(digit)] && s == front + [DigitChar(digit)];
    OneDigit(digit, DigitsValue(front, 0));
    DigitsValueAppend(front, [DigitChar(digit)], 0);
    if front == [] {
      assert DigitsValue(front, 0) == 0;
    } else {
      hide DigitsValue, Decimal;
      PlainForm(front);
      DecimalStep(DigitsValue(front, 0), digit);
    }
  }

  // ----- std::stoi, base 10 -----

  predicate IsSpace(c: char) {
    c == ' ' || '\t' <= c <= '\r'
  }

  function SkipSpace(s: Bytes): Bytes {
    if |s| > 0 && IsSpace(s[0]) then SkipSpace(s[1..]) else s
  }

  /** `std::stoi`: leading white space, an optional sign, then at least one
      digit; what follows the digits is ignored.  `None` stands for both
      exceptions, `std::invalid_argument` and `std::out_of_range`. */
  function Stoi(s: Bytes): (r: Option<int>)
    ensures r.Some? ==> -INT_MAX - 1 <= r.value <= INT_MAX
  {
    var t := SkipSpace(s);
    var negative := |t| > 0 && t[0] == '-';
    var digits := if |t| > 0 && (t[0] == '-' || t[0] == '+') then t[1..] else t;
    if digits == [] || !IsDigit(digits[0]) then None
    else
      var v := if negative then -(DigitsValue(digits, 0) as int) else DigitsValue(digits, 0);
      if -INT_MAX - 1 <= v <= INT_MAX then Some(v) else None
  }

  /** The cast of an `int` to `size_t`. */
  function ToSize(v: int): (n: nat)
    requires -INT_MAX - 1 <= v <= INT_MAX
    ensures n < SIZE_MODULUS && (n - v) % SIZE_MODULUS == 0
  {
    if v < 0 then v + SIZE_MODULUS else v
  }

  lemma {:induction false} SkipsSpace(space: Bytes, rest: Bytes)
    requires forall i | 0 <= i < |space| :: space[i] == ' ' || 9 <= space[i] as int <= 13
    requires rest == [] || !IsSpace(rest[0])
    ensures SkipSpace(space + rest) == rest
  {
    if space == [] {
      assert space + rest == rest;
    } else {
      assert (space + rest)[1..] == space[1..] + rest;
      SkipsSpace(space[1..], rest);
    }
  }

  lemma DigitsEnd(tail: Bytes, acc: nat)
    requires tail == [] || !IsDigit(tail[0])
    ensures DigitsValue(tail, acc) == acc
  {
  }

  lemma StoiBody(s: Bytes, sign: Bytes, number: Bytes)
    requires SkipSpace(s) == sign + number && number != [] && IsDigit(number[0])
    requires sign == [] || sign == ['+'] || sign == ['-']
    ensures var v := if sign == ['-'] then 0 - DigitsValue(number, 0) else DigitsValue(number, 0);
      Stoi(s) == if -INT_MAX - 1 <= v <= INT_MAX then Some(v) else None
  {
    hide SkipSpace, DigitsValue;
    if sign == [] {
      assert sign + number == number;
    } else {
      assert (sign + number)[1..] == number;
    }
  }

  /** What `stoi` takes: white space, a sign, digits, and then anything else; the
      number has to fit an `int`. */
  lemma StoiReads(space: Bytes, sign: Bytes, digits: Bytes, tail: Bytes)
    requires forall i | 0 <= i < |space| :: space[i] == ' ' || 9 <= space[i] as int <= 13
    requires sign == [] || sign == ['+'] || sign == ['-']
    requires |digits| > 0 && forall i | 0 <= i < |digits| :: IsDigit(digits[i])
    requires tail == [] || !IsDigit(tail[0])
    ensures var n := DigitsValue(digits, 0); var v := if sign == ['-'] then 0 - n else n;
      Stoi(space + (sign + (digits + tail))) == if -INT_MAX - 1 <= v <= INT_MAX then Some(v) else None
  {
    hide Stoi, SkipSpace, DigitsValue;
    var number := digits + tail;
    DigitsBefore(digits, tail);
    NotSpace(sign, number);
    SkipsSpace(space, sign + number);
    StoiBody(space + (sign + number), sign, number);
  }

  lemma DigitsBefore(digits: Bytes, tail: Bytes)
    requires |digits| > 0 && (forall i | 0 <= i < |digits| :: IsDigit(digits[i])) && (tail == [] || !IsDigit(tail[0]))
    ensures |digits + tail| > 0 && IsDigit((digits + tail)[0])
    ensures DigitsValue(digits + tail, 0) == DigitsValue(digits, 0)
  {
    DigitsValueAppend(digits, tail, 0);
    DigitsEnd(tail, DigitsValue(digits, 0));
  }

  lemma NotSpace(sign: Bytes, number: Bytes)
    requires number != [] && IsDigit(number[0]) && (sign == [] || sign == ['+'] || sign == ['-'])
    ensures !IsSpace((sign + number)[0])
  {
  }

  /** And nothing else: without a digit in that place it throws. */
  lemma StoiRejects(space: Bytes, sign: Bytes, tail: Bytes)
    requires forall i | 0 <= i < |space| :: space[i] == ' ' || 9 <= space[i] as int <= 13
    requires sign == [] || sign == ['+'] || sign == ['-']
    requires sign == [] && tail != [] ==> tail[0] != '+' && tail[0] != '-' && !IsSpace(tail[0])
    requires tail == [] || !IsDigit(tail[0])
    ensures Stoi(space + (sign + tail)) == None
  {
    SkipsSpace(space, sign + tail);
    assert sign == [] ==> sign + tail == tail;
    assert sign != [] ==> (sign + tail)[1..] == tail;
  }

  /** `stoi` inverts `to_string` exactly on the values that fit an `int`. */
  lemma StoiDecimal(n: nat)
    ensures Stoi(Decimal(n)) == if n <= INT_MAX then Some(n) else None
  {
    DecimalValue(n);
    var s := Decimal(n);
    assert IsDigit(s[0]);
    assert SkipSpace(s) == s;
  }

  /** The line `tag ++ Decimal(n)` holds no CRLF. */
  lemma HeaderHasNoCrlf(tag: char, n: nat)
    requires tag != '\r'
    ensures NoCrlf([tag] + Decimal(n))
  {
    var s := [tag] + Decimal(n);
    forall i | 0 <= i < |s| ensures !CrlfAt(s, i) {
      if i > 0 {
        assert s[i] == Decimal(n)[i - 1];
        assert IsDigit(Decimal(n)[i - 1]);
      }
    }
  }
}
