/**
 * The block timestamp of `addBlock`: the millisecond clock reading written
 * in decimal, with its last three characters cut off (JavaScript's
 * `slice(0, -3)`), which leaves whole seconds.
 */
module Timestamps {

  /** The character of decimal digit `d`. */
  function Digit(d: nat): (c: char)
    requires d < 10
    ensures '0' <= c <= '9'
  {
    ('0' as int + d) as char
  }

  /** The value of a decimal digit character (0 for anything else). */
  function DigitValue(c: char): nat
  {
    if '0' <= c <= '9' then c as int - '0' as int else 0
  }

  /** `n` written in decimal without leading zeros, as `Number.prototype.toString` does. */
  function Decimal(n: nat): (s: string)
    ensures 1 <= |s|
    ensures forall i :: 0 <= i < |s| ==> '0' <= s[i] <= '9'
    ensures s[0] == '0' ==> n == 0
  {
    if n < 10 then [Digit(n)] else Decimal(n / 10) + [Digit(n % 10)]
  }

  /** The number a string of decimal digits denotes. */
  function Value(s: string): nat
  {
    if s == [] then 0 else 10 * Value(s[..|s| - 1]) + DigitValue(s[|s| - 1])
  }

  /** JavaScript's `s.slice(0, -3)`: everything but the last three characters, or "" if there are fewer. */
  function DropLastThree(s: string): (r: string)
    ensures |s| <= 3 ==> r == ""
    ensures 3 < |s| ==> |r| == |s| - 3 && s == r + s[|s| - 3..]
  {
    if |s| <= 3 then "" else s[..|s| - 3]
  }

  /** The `time` field `addBlock` writes for clock reading `ms` (milliseconds since the epoch). */
  function Seconds(ms: nat): string
  {
    DropLastThree(Decimal(ms))
  }

  /** Reading back a decimal rendering gives the number it renders. */
  lemma {:induction false} ValueOfDecimal(n: nat)
    ensures Value(Decimal(n)) == n
  {
    var s := Decimal(n);
    if n < 10 {
      assert s[..0] == [];
    } else {
      assert s[..|s| - 1] == Decimal(n / 10);
      ValueOfDecimal(n / 10);
    }
  }

  /** Numbers below 1000 have at most three decimal digits. */
  lemma ShortDecimal(n: nat)
    requires n < 1000
    ensures |Decimal(n)| <= 3
  {
    if 10 <= n {
      var a := n / 10;
      assert a < 100 && Decimal(n) == Decimal(a) + [Digit(n % 10)];
      if 10 <= a {
        assert a / 10 < 10 && Decimal(a) == Decimal(a / 10) + [Digit(a % 10)];
      }
    }
  }

  /** Cutting three characters off the millisecond count leaves exactly the whole seconds. */
  lemma SecondsAreWholeSeconds(ms: nat)
    ensures ms < 1000 ==> Seconds(ms) == ""
    ensures 1000 <= ms ==> Seconds(ms) == Decimal(ms / 1000)
    ensures Value(Seconds(ms)) == ms / 1000
  {
    if ms < 1000 {
      ShortDecimal(ms);
    } else {
      var a, b, c := ms / 10, ms / 100, ms / 1000;
      assert b == a / 10 && c == b / 10;
      assert Decimal(ms) == Decimal(a) + [Digit(ms % 10)];
      assert Decimal(a) == Decimal(b) + [Digit(a % 10)];
      assert Decimal(b) == Decimal(c) + [Digit(b % 10)];
      assert Decimal(ms) == Decimal(c) + [Digit(b % 10), Digit(a % 10), Digit(ms % 10)];
      assert Seconds(ms) == Decimal(c);
      ValueOfDecimal(c);
    }
  }
}
