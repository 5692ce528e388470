/** Ordering of TEXT values as SQLite's default BINARY collation compares them.
    BINARY compares the UTF-8 bytes with memcmp and, on a common prefix, puts the
    shorter value first. UTF-8 byte order coincides with code-point order, so on
    Dafny strings (sequences of Unicode scalar values) the collation is plain
    lexicographic order on characters. */
module Collation {

  /** `a` sorts no later than `b` under the BINARY collation. */
  predicate TextLe(a: string, b: string)
    decreases |a|
  {
    if |a| == 0 then true
    else if |b| == 0 then false
    else if a[0] != b[0] then a[0] < b[0]
    else TextLe(a[1..], b[1..])
  }

  /** Reference definition of the same order: `a` is a prefix of `b`, or the two
      first differ at a position where `a` has the smaller character. */
  ghost predicate Lexicographic(a: string, b: string) {
    a <= b || exists k :: 0 <= k < |a| && k < |b| && a[..k] == b[..k] && a[k] < b[k]
  }

  lemma {:induction false} TextLeIsLexicographic(a: string, b: string)
    ensures TextLe(a, b) <==> Lexicographic(a, b)
    decreases |a|
  {
    if |a| == 0 {
      assert a <= b;
    } else if |b| == 0 {
      assert !(a <= b);
    } else if a[0] != b[0] {
      LexicographicHeadsDiffer(a, b);
    } else {
      TextLeIsLexicographic(a[1..], b[1..]);
      LexicographicSameHead(a, b);
    }
  }

  /** When the first characters differ, they alone decide the reference order. */
  lemma LexicographicHeadsDiffer(a: string, b: string)
    requires |a| > 0 && |b| > 0 && a[0] != b[0]
    ensures Lexicographic(a, b) <==> a[0] < b[0]
  {
    if a[0] < b[0] {
      assert a[..0] == b[..0];
    }
    assert !(a <= b);
    forall k | 0 < k <= |a| && k <= |b|
      ensures a[..k] != b[..k]
    {
      assert a[..k][0] == a[0] && b[..k][0] == b[0];
    }
  }

  /** A shared first character drops out of the reference order. */
  lemma LexicographicSameHead(a: string, b: string)
    requires |a| > 0 && |b| > 0 && a[0] == b[0]
    ensures Lexicographic(a, b) <==> Lexicographic(a[1..], b[1..])
  {
    assert a == [a[0]] + a[1..] && b == [b[0]] + b[1..];
    assert a <= b <==> a[1..] <= b[1..];
    if Lexicographic(a[1..], b[1..]) && !(a[1..] <= b[1..]) {
      LexicographicAddHead(a, b);
    }
    if Lexicographic(a, b) && !(a <= b) {
      LexicographicDropHead(a, b);
    }
  }

  lemma LexicographicAddHead(a: string, b: string)
    requires |a| > 0 && |b| > 0 && a[0] == b[0]
    requires Lexicographic(a[1..], b[1..]) && !(a[1..] <= b[1..])
    ensures Lexicographic(a, b)
  {
    var a', b' := a[1..], b[1..];
    var k :| 0 <= k < |a'| && k < |b'| && a'[..k] == b'[..k] && a'[k] < b'[k];
    assert a[..k + 1] == [a[0]] + a'[..k];
    assert b[..k + 1] == [b[0]] + b'[..k];
    assert a[k + 1] < b[k + 1];
  }

  lemma LexicographicDropHead(a: string, b: string)
    requires |a| > 0 && |b| > 0 && a[0] == b[0]
    requires Lexicographic(a, b) && !(a <= b)
    ensures Lexicographic(a[1..], b[1..])
  {
    var a', b' := a[1..], b[1..];
    var k :| 0 <= k < |a| && k < |b| && a[..k] == b[..k] && a[k] < b[k];
    assert k > 0;
    assert a'[..k - 1] == a[..k][1..] == b[..k][1..] == b'[..k - 1];
    assert a'[k - 1] < b'[k - 1];
  }

  lemma {:induction false} TextLeReflexive(a: string)
    ensures TextLe(a, a)
    decreases |a|
  {
    if |a| > 0 {
      TextLeReflexive(a[1..]);
    }
  }

  lemma {:induction false} TextLeTotal(a: string, b: string)
    ensures TextLe(a, b) || TextLe(b, a)
    decreases |a|
  {
    if |a| > 0 && |b| > 0 && a[0] == b[0] {
      TextLeTotal(a[1..], b[1..]);
    }
  }

  lemma {:induction false} TextLeTransitive(a: string, b: string, c: string)
    requires TextLe(a, b) && TextLe(b, c)
    ensures TextLe(a, c)
    decreases |a|
  {
    if |a| > 0 && a[0] == b[0] && b[0] == c[0] {
      TextLeTransitive(a[1..], b[1..], c[1..]);
    }
  }

  lemma {:induction false} TextLeAntisymmetric(a: string, b: string)
    requires TextLe(a, b) && TextLe(b, a)
    ensures a == b
    decreases |a|
  {
    if |a| > 0 {
      TextLeAntisymmetric(a[1..], b[1..]);
      assert a == [a[0]] + a[1..] && b == [b[0]] + b[1..];
    }
  }
}
