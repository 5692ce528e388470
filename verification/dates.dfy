/** Dates as the application writes them: `strftime('%Y-%m-%d')` text. The store
    sorts the `date` column as text; for text of this shape the BINARY collation
    order is the calendar order, which is why `ORDER BY date DESC` lists the
    latest day first. */
module Dates {
  import opened Collation

  predicate IsDigit(c: char) {
    '0' <= c <= '9'
  }

  function Digit(c: char): int {
    c as int - '0' as int
  }

  ghost predicate AllDigits(s: string) {
    forall i | 0 <= i < |s| :: IsDigit(s[i])
  }

  function Pow10(n: nat): (r: int)
    ensures r >= 1
  {
    if n == 0 then 1 else 10 * Pow10(n - 1)
  }

  /** The value of a string of decimal digits, most significant first. */
  function Num(s: string): int
    decreases |s|
  {
    if |s| == 0 then 0 else Digit(s[0]) * Pow10(|s| - 1) + Num(s[1..])
  }

  lemma {:induction false} NumBounds(s: string)
    requires AllDigits(s)
    ensures 0 <= Num(s) < Pow10(|s|)
    decreases |s|
  {
    if |s| > 0 {
      NumBounds(s[1..]);
      var p := Pow10(|s| - 1);
      assert 0 <= Digit(s[0]) <= 9;
      assert Digit(s[0]) * p <= 9 * p;
    }
  }

  lemma LeadingDigitDecides(da: int, db: int, ra: int, rb: int, p: int)
    requires 0 <= da < db && 0 <= ra < p && 0 <= rb
    ensures da * p + ra < db * p + rb
  {
    var k := db - da;
    MulAtLeast(k, p);
    assert db * p == (da + k) * p == da * p + k * p;
  }

  lemma {:induction false} MulAtLeast(k: int, p: int)
    requires k >= 1 && p >= 0
    ensures k * p >= p
    decreases k
  {
    if k > 1 {
      MulAtLeast(k - 1, p);
      assert k * p == (k - 1) * p + p;
    }
  }

  /** On digit strings of one length, text order is numeric order. */
  lemma {:induction false} DigitsOrder(x: string, y: string)
    requires |x| == |y| && AllDigits(x) && AllDigits(y)
    ensures TextLe(x, y) <==> Num(x) <= Num(y)
    decreases |x|
  {
    if |x| > 0 {
      var p := Pow10(|x| - 1);
      var x', y' := x[1..], y[1..];
      assert AllDigits(x') && AllDigits(y') by {
        assert forall i | 0 <= i < |x'| :: x'[i] == x[i + 1] && y'[i] == y[i + 1];
      }
      assert IsDigit(x[0]) && IsDigit(y[0]);
      NumBounds(x');
      NumBounds(y');
      var dx, dy := Digit(x[0]), Digit(y[0]);
      assert Num(x) == dx * p + Num(x') && Num(y) == dy * p + Num(y');
      if x[0] == y[0] {
        DigitsOrder(x', y');
      } else if x[0] < y[0] {
        LeadingDigitDecides(dx, dy, Num(x'), Num(y'), p);
      } else {
        LeadingDigitDecides(dy, dx, Num(y'), Num(x'), p);
      }
    }
  }

  /** Digit strings of one length with the same value are the same string. */
  lemma DigitsInjective(x: string, y: string)
    requires |x| == |y| && AllDigits(x) && AllDigits(y) && Num(x) == Num(y)
    ensures x == y
  {
    DigitsOrder(x, y);
    DigitsOrder(y, x);
    TextLeAntisymmetric(x, y);
  }

  /** Comparing two texts that start with parts of one length: the first parts
      decide unless they are equal. */
  lemma {:induction false} TextLeSplit(x: string, u: string, y: string, v: string)
    requires |x| == |y|
    ensures TextLe(x + u, y + v) == if x == y then TextLe(u, v) else TextLe(x, y)
    decreases |x|
  {
    if |x| > 0 {
      assert (x + u)[0] == x[0] && (y + v)[0] == y[0];
      if x[0] == y[0] {
        TextLeSplit(x[1..], u, y[1..], v);
        assert (x + u)[1..] == x[1..] + u && (y + v)[1..] == y[1..] + v;
        assert x == [x[0]] + x[1..] && y == [y[0]] + y[1..];
      } else {
        assert x != y;
      }
    } else {
      assert x + u == u && y + v == v;
    }
  }

  /** `YYYY-MM-DD`. */
  ghost predicate IsoDate(s: string) {
    && |s| == 10
    && s[4] == '-' && s[7] == '-'
    && AllDigits(s[..4]) && AllDigits(s[5..7]) && AllDigits(s[8..])
  }

  /** The calendar position of a `YYYY-MM-DD` text, as the number YYYYMMDD. */
  function DayNumber(s: string): int
    requires IsoDate(s)
  {
    Num(s[..4]) * 10000 + Num(s[5..7]) * 100 + Num(s[8..])
  }

  /** Comparing two `YYYY-MM-DD` texts as the store does compares the days. */
  lemma IsoDateOrder(a: string, b: string)
    requires IsoDate(a) && IsoDate(b)
    ensures TextLe(a, b) <==> DayNumber(a) <= DayNumber(b)
  {
    var y1, m1, d1 := a[..4], a[5..7], a[8..];
    var y2, m2, d2 := b[..4], b[5..7], b[8..];
    assert a == y1 + ("-" + (m1 + ("-" + d1)));
    assert b == y2 + ("-" + (m2 + ("-" + d2)));
    TextLeSplit(y1, "-" + (m1 + ("-" + d1)), y2, "-" + (m2 + ("-" + d2)));
    TextLeSplit("-", m1 + ("-" + d1), "-", m2 + ("-" + d2));
    TextLeSplit(m1, "-" + d1, m2, "-" + d2);
    TextLeSplit("-", d1, "-", d2);
    NumBounds(m1); NumBounds(m2); NumBounds(d1); NumBounds(d2);
    DigitsOrder(y1, y2);
    DigitsOrder(m1, m2);
    DigitsOrder(d1, d2);
    if Num(y1) == Num(y2) {
      DigitsInjective(y1, y2);
      if Num(m1) == Num(m2) {
        DigitsInjective(m1, m2);
      }
    }
  }
}
