/**
 * The string operations the run loop and the reporter rely on:
 * `String.prototype.includes`, the global backslash replacement, and the
 * decimal rendering behind `Number.prototype.toFixed(2)`.
 */
module Text {

  /** `t` occurs in `s` at index `i`. */
  predicate OccursAt(s: string, t: string, i: nat) {
    i + |t| <= |s| && s[i..i + |t|] == t
  }

  /** The specification of substring containment: some index where `t` occurs. */
  ghost predicate Contains(s: string, t: string) {
    exists i: nat :: OccursAt(s, t, i)
  }

  /** `s.includes(t)`, scanning `s` from the left. */
  function Includes(s: string, t: string): (b: bool)
    ensures b <==> Contains(s, t)
    decreases |s|
  {
    if t <= s then
      assert OccursAt(s, t, 0);
      true
    else if |s| <= |t| then
      assert forall i: nat :: !OccursAt(s, t, i);
      false
    else
      var b := Includes(s[1..], t);
      assert forall i: nat :: OccursAt(s[1..], t, i) <==> OccursAt(s, t, i + 1) by {
        forall i: nat ensures OccursAt(s[1..], t, i) <==> OccursAt(s, t, i + 1) {
          if i + |t| <= |s| - 1 {
            assert s[1..][i..i + |t|] == s[i + 1..i + 1 + |t|];
          }
        }
      }
      assert !OccursAt(s, t, 0);
      assert Contains(s, t) ==> Contains(s[1..], t) by {
        if Contains(s, t) {
          var i: nat :| OccursAt(s, t, i);
          assert i > 0;
          assert OccursAt(s[1..], t, i - 1);
        }
      }
      b
  }

  /** One character of `s.replace(/\\/g, '/')`. */
  function Forward(c: char): char {
    if c == '\\' then '/' else c
  }

  /** `s.replace(/\\/g, '/')`: every backslash becomes a forward slash. */
  function Slashes(s: string): (r: string)
    ensures |r| == |s|
    ensures forall i :: 0 <= i < |s| ==> r[i] == Forward(s[i])
    ensures '\\' !in r
  {
    if s == [] then [] else [Forward(s[0])] + Slashes(s[1..])
  }

  /** A string without backslashes is left as it is. */
  lemma SlashesKeepsPlain(s: string)
    requires '\\' !in s
    ensures Slashes(s) == s
  {
  }

  /** Normalisation distributes over concatenation. */
  lemma {:induction false} SlashesAppend(a: string, b: string)
    ensures Slashes(a + b) == Slashes(a) + Slashes(b)
  {
    if a != [] {
      assert (a + b)[1..] == a[1..] + b;
      SlashesAppend(a[1..], b);
    }
  }

  predicate IsDigit(c: char) {
    '0' <= c <= '9'
  }

  predicate AllDigits(s: string) {
    forall i :: 0 <= i < |s| ==> IsDigit(s[i])
  }

  function DigitChar(d: nat): (c: char)
    requires d < 10
    ensures IsDigit(c) && (c as int) - ('0' as int) == d
  {
    ('0' as int + d) as char
  }

  /** The value of a string of decimal digits, most significant first. */
  function DigitsValue(s: string): nat
    requires AllDigits(s)
  {
    if s == [] then 0
    else DigitsValue(s[..|s| - 1]) * 10 + ((s[|s| - 1] as int) - ('0' as int))
  }

  /** The shortest decimal rendering of `n`, as `String(n)` gives for a non-negative integer. */
  function NatToString(n: nat): (s: string)
    ensures |s| >= 1 && AllDigits(s)
    ensures s[0] != '0' || n == 0
    decreases n
  {
    if n < 10 then [DigitChar(n)] else NatToString(n / 10) + [DigitChar(n % 10)]
  }

  /** Reading the rendering back gives the number. */
  lemma {:induction false} NatToStringValue(n: nat)
    ensures DigitsValue(NatToString(n)) == n
    decreases n
  {
    if n >= 10 {
      var s := NatToString(n);
      assert s[..|s| - 1] == NatToString(n / 10);
      NatToStringValue(n / 10);
    }
  }

  /**
   * `(h / 100).toFixed(2)` for a number held as `h` hundredths: the integer
   * part without leading zeros, a point, and exactly two decimals.
   */
  function FixedTwo(h: nat): (s: string)
    ensures |s| >= 4 && s[|s| - 3] == '.'
    ensures AllDigits(s[..|s| - 3]) && AllDigits(s[|s| - 2..])
    ensures s[0] == '0' ==> |s| == 4
  {
    var s := NatToString(h / 100) + "." + [DigitChar(h / 10 % 10), DigitChar(h % 10)];
    assert s[0] == NatToString(h / 100)[0];
    assert |s| == |NatToString(h / 100)| + 3;
    s
  }

  /** The number of hundredths a `toFixed(2)` rendering spells out. */
  function FixedTwoValue(s: string): nat
    requires |s| >= 4 && s[|s| - 3] == '.'
    requires AllDigits(s[..|s| - 3]) && AllDigits(s[|s| - 2..])
  {
    DigitsValue(s[..|s| - 3]) * 100 + DigitsValue(s[|s| - 2..])
  }

  /** The rendering is the integer part, a point, and the two decimal digits. */
  lemma FixedTwoParts(h: nat)
    ensures var s := FixedTwo(h);
      && s[..|s| - 3] == NatToString(h / 100)
      && s[|s| - 2..] == [DigitChar(h / 10 % 10), DigitChar(h % 10)]
  {
  }

  /** Two digit characters read back as their two-digit number. */
  lemma TwoDigitsValue(a: nat, b: nat)
    requires a < 10 && b < 10
    ensures DigitsValue([DigitChar(a), DigitChar(b)]) == 10 * a + b
  {
    var t := [DigitChar(a), DigitChar(b)];
    assert t[..1] == [DigitChar(a)] && t[..1][..0] == [];
    assert DigitsValue(t[..1]) == a;
    assert DigitsValue(t) == DigitsValue(t[..1]) * 10 + b;
  }

  /** The two-decimal rendering loses nothing of a value held in hundredths. */
  lemma FixedTwoRoundTrip(h: nat)
    ensures FixedTwoValue(FixedTwo(h)) == h
  {
    FixedTwoParts(h);
    NatToStringValue(h / 100);
    TwoDigitsValue(h / 10 % 10, h % 10);
    HundredthsDigits(h);
  }

  /** A number of hundredths is its whole part and its two decimal digits. */
  lemma HundredthsDigits(h: nat)
    ensures (h / 100) * 100 + (h / 10 % 10) * 10 + h % 10 == h
  {
    var r := h % 100;
    assert h == (h / 100) * 100 + r;
    assert h / 10 == (h / 100) * 10 + r / 10;
    assert h / 10 % 10 == r / 10;
    assert h % 10 == r % 10;
  }
}
