/** Unsigned integers as bytes, least significant first. */
module LittleEndian {
  import opened Bytes

  function Power256(n: nat): (power: nat)
    ensures power > 0
  {
    if n == 0 then 1 else 256 * Power256(n - 1)
  }

  /** The low `n` bytes of a value, least significant first. */
  function ToLe(value: nat, n: nat): (bytes: seq<Byte>)
    ensures |bytes| == n
    decreases n
  {
    if n == 0 then [] else [value % 256] + ToLe(value / 256, n - 1)
  }

  function FromLe(bytes: seq<Byte>): nat {
    if bytes == [] then 0 else bytes[0] + 256 * FromLe(bytes[1..])
  }

  /** Reading back what was written gives the value, if the value fits the width. */
  lemma {:induction false} LeRoundTrip(value: nat, n: nat)
    requires value < Power256(n)
    ensures FromLe(ToLe(value, n)) == value
    decreases n
  {
    if n > 0 {
      LeRoundTrip(value / 256, n - 1);
      assert ToLe(value, n)[1..] == ToLe(value / 256, n - 1);
    }
  }

  lemma {:induction false} LeBounded(bytes: seq<Byte>)
    ensures FromLe(bytes) < Power256(|bytes|)
  {
    if bytes != [] { LeBounded(bytes[1..]); }
  }

  lemma Widths()
    ensures Power256(2) == 0x1_0000
    ensures Power256(4) == 0x1_0000_0000
    ensures Power256(8) == 0x1_0000_0000_0000_0000
  {
    assert Power256(4) == 65536 * Power256(2);
    assert Power256(8) == 65536 * Power256(6) && Power256(6) == 65536 * Power256(4);
  }

  /* ------------------------------------------------------------------- digits */

  /** Base-256 digits, lowest first. */
  ghost predicate IsFixed(bytes: seq<Byte>, width: nat, value: nat) {
    |bytes| == width && forall i :: 0 <= i < width ==> bytes[i] == value / Power256(i) % 256
  }

  lemma DivideTwice(value: nat, a: nat, b: nat)
    requires a > 0 && b > 0
    ensures a * b > 0 && value / a / b == value / (a * b)
  {
    var p, low := value / a, value % a;
    Compose(value, a, b, p, p / b, p % b, low);
    Quotient(value, a * b, p / b, a * (p % b) + low);
  }

  lemma Compose(value: nat, a: nat, b: nat, p: nat, q: nat, high: nat, low: nat)
    requires value == a * p + low && p == b * q + high && low < a && high < b
    ensures a * b > 0 && value == a * b * q + (a * high + low) && a * high + low < a * b
  {
    Below(a, b, high, low);
  }

  lemma Below(a: nat, b: nat, high: nat, low: nat)
    requires high < b && low < a
    ensures 0 <= a * high + low < a * b
  {
    assert a * high <= a * (b - 1);
  }

  lemma Quotient(value: nat, d: nat, q: nat, rest: nat)
    requires rest < d && value == d * q + rest
    ensures value / d == q
  {
    var p := value / d;
    assert value == d * p + value % d;
    Grows(d, p + 1, q);
    Grows(d, q + 1, p);
  }

  lemma Grows(d: nat, x: nat, y: nat)
    ensures x <= y ==> d * x <= d * y
    ensures d * (x + 1) == d * x + d
  {
  }

  lemma NextDigit256(value: nat, i: nat)
    ensures value / 256 / Power256(i) == value / Power256(i + 1)
  {
    DivideTwice(value, 256, Power256(i));
  }

  lemma {:induction false} LeDigit(value: nat, width: nat, i: nat)
    requires i < width
    ensures ToLe(value, width)[i] == value / Power256(i) % 256
    decreases width
  {
    if i > 0 {
      LeDigit(value / 256, width - 1, i - 1);
      NextDigit256(value, i - 1);
    }
  }

  lemma FixedExactly(bytes: seq<Byte>, width: nat, value: nat)
    ensures IsFixed(bytes, width, value) <==> bytes == ToLe(value, width)
  {
    forall i | 0 <= i < width ensures ToLe(value, width)[i] == value / Power256(i) % 256 { LeDigit(value, width, i); }
  }

  lemma {:induction false} LeDigits(bytes: seq<Byte>)
    ensures bytes == ToLe(FromLe(bytes), |bytes|)
  {
    if bytes != [] {
      LeDigits(bytes[1..]);
      LowDigit(bytes[0], FromLe(bytes[1..]), |bytes|);
      assert bytes == [bytes[0]] + bytes[1..];
    }
  }

  lemma LowDigit(low: Byte, high: nat, width: nat)
    requires width > 0
    ensures ToLe(low + 256 * high, width) == [low] + ToLe(high, width - 1)
  {
    assert (low + 256 * high) % 256 == low && (low + 256 * high) / 256 == high;
  }
}
