/** The decimal text of an i64, as the queue writes a time, and its parse. */
module Decimal {
  import opened Prelude
  import opened MachineInts

  const ZERO: Byte := 48
  const PLUS: Byte := 43
  const MINUS: Byte := 45

  function Digits(n: nat): (b: Bytes)
    ensures b != [] && b[0] != PLUS && b[0] != MINUS
  {
    if n < 10 then [(48 + n) as Byte] else Digits(n / 10) + [(48 + n % 10) as Byte]
  }

  function Magnitude(t: int): nat {
    if t < 0 then -t else t
  }

  function Text(t: I64): Bytes {
    if t < 0 then [MINUS] + Digits(Magnitude(t)) else Digits(Magnitude(t))
  }

  /** One or more digits. */
  function ParseDigits(b: Bytes): Option<nat>
    decreases |b|
  {
    if b == [] || !(48 <= b[|b| - 1] as int < 58) then None
    else
      var d := b[|b| - 1] as int - 48;
      if |b| == 1 then Some(d)
      else
        match ParseDigits(b[..|b| - 1])
        case None => None
        case Some(v) => Some(10 * v + d)
  }

  /** An optional sign and digits, within range. */
  function Parse(b: Bytes): Option<int> {
    if b == [] then None
    else
      var unsigned := if b[0] == PLUS || b[0] == MINUS then b[1..] else b;
      match ParseDigits(unsigned)
      case None => None
      case Some(v) =>
        var t: int := if b[0] == MINUS then 0 - v else v;
        if I64_MIN <= t <= I64_MAX then Some(t) else None
  }

  lemma {:induction false} ParseDigitsOf(n: nat)
    ensures ParseDigits(Digits(n)) == Some(n)
  {
    if n >= 10 {
      ParseDigitsOf(n / 10);
      var b := Digits(n);
      assert b[..|b| - 1] == Digits(n / 10);
    }
  }

  /** Every text parses back. */
  lemma ParseText(t: I64)
    ensures Parse(Text(t)) == Some(t)
  {
    ParseDigitsOf(Magnitude(t));
    if t < 0 {
      assert Text(t)[1..] == Digits(Magnitude(t));
    }
  }

  /** The first digits of a number are a number, and no other number has them. */
  lemma {:induction false} DigitsPrefix(n: nat, b: Bytes) returns (m: nat)
    requires b != [] && b <= Digits(n)
    ensures b == Digits(m) && m <= n && (n > 0 ==> m > 0)
    ensures b != Digits(n) ==> 10 * m <= n && 10 <= n
  {
    if b == Digits(n) {
      m := n;
    } else {
      assert n >= 10 && b <= Digits(n / 10) by {
        assert |b| < |Digits(n)|;
        if n >= 10 {
          assert Digits(n)[..|b|] == Digits(n / 10)[..|b|];
        }
      }
      m := DigitsPrefix(n / 10, b);
    }
  }

  /** A text cut short is refused exactly when no digit is left of it. Otherwise it is the
      text of another time, at most a tenth of the one that was written. */
  lemma CutText(t: I64, b: Bytes) returns (x: I64)
    requires b <= Text(t)
    ensures Parse(b).None? <==> b == [] || b == [MINUS]
    ensures Parse(b).Some? ==> b == Text(x) && Parse(b) == Some(x)
    ensures Parse(b).Some? && b != Text(t) ==> x != t && 10 * Magnitude(x) <= Magnitude(t)
  {
    x := 0;
    var unsigned := if t < 0 && b != [] then b[1..] else b;
    assert unsigned <= Digits(Magnitude(t)) && (t < 0 && b != [] ==> b == [MINUS] + unsigned) by {
      assert t < 0 ==> Text(t)[1..] == Digits(Magnitude(t));
    }
    if unsigned != [] {
      var m: int := DigitsPrefix(Magnitude(t), unsigned);
      x := if t < 0 then 0 - m else m;
      ParseText(x);
    }
  }
}
