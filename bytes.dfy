/** Octets, byte strings, and the order in which the key-value engine's
    cursors visit keys. */
module Bytes {

  /** Go's `byte`. */
  type byte = b: int | 0 <= b < 256

  type Bytes = seq<byte>

  /** Lexicographic order on byte strings: `a` sorts no later than `b`.
      Keys of a sub-container are visited by cursors in this order. */
  predicate LexLe(a: Bytes, b: Bytes)
    decreases |a|
  {
    |a| == 0 || (|b| > 0 && (a[0] < b[0] || (a[0] == b[0] && LexLe(a[1..], b[1..]))))
  }

  /** `a` sorts strictly before `b`. */
  predicate LexLt(a: Bytes, b: Bytes)
  {
    LexLe(a, b) && a != b
  }

  lemma {:induction false} LexLeReflexive(a: Bytes)
    ensures LexLe(a, a)
  {
    if |a| > 0 {
      LexLeReflexive(a[1..]);
    }
  }

  lemma {:induction false} LexLeAntisymmetric(a: Bytes, b: Bytes)
    requires LexLe(a, b) && LexLe(b, a)
    ensures a == b
  {
    if |a| > 0 {
      LexLeAntisymmetric(a[1..], b[1..]);
      assert a == [a[0]] + a[1..] && b == [b[0]] + b[1..];
    }
  }

  lemma {:induction false} LexLeTransitive(a: Bytes, b: Bytes, c: Bytes)
    requires LexLe(a, b) && LexLe(b, c)
    ensures LexLe(a, c)
  {
    if |a| > 0 && a[0] == b[0] && b[0] == c[0] {
      LexLeTransitive(a[1..], b[1..], c[1..]);
    }
  }

  lemma {:induction false} LexLeTotal(a: Bytes, b: Bytes)
    ensures LexLe(a, b) || LexLe(b, a)
  {
    if |a| > 0 && |b| > 0 && a[0] == b[0] {
      LexLeTotal(a[1..], b[1..]);
    }
  }

  /** A shared prefix does not affect the order of two keys. */
  lemma {:induction false} LexLeCommonPrefix(p: Bytes, a: Bytes, b: Bytes)
    ensures LexLe(p + a, p + b) <==> LexLe(a, b)
  {
    if |p| == 0 {
      assert p + a == a && p + b == b;
    } else {
      assert (p + a)[1..] == p[1..] + a;
      assert (p + b)[1..] == p[1..] + b;
      LexLeCommonPrefix(p[1..], a, b);
    }
  }

  /** Two byte strings of the same length that differ only in their last byte
      are ordered by their prefixes first. */
  lemma {:induction false} LexLeSnoc(x: Bytes, c: byte, y: Bytes, d: byte)
    requires |x| == |y|
    ensures LexLe(x + [c], y + [d]) <==> LexLt(x, y) || (x == y && c <= d)
  {
    if |x| == 0 {
      assert x + [c] == [c] && y + [d] == [d];
    } else {
      assert (x + [c])[1..] == x[1..] + [c];
      assert (y + [d])[1..] == y[1..] + [d];
      LexLeSnoc(x[1..], c, y[1..], d);
      assert x == [x[0]] + x[1..] && y == [y[0]] + y[1..];
    }
  }

  predicate HasPrefix(s: Bytes, p: Bytes)
  {
    |p| <= |s| && s[..|p|] == p
  }

  /** The bytes of an ASCII string literal. */
  function Ascii(s: string): Bytes
    requires forall i | 0 <= i < |s| :: s[i] as int < 128
  {
    seq(|s|, i requires 0 <= i < |s| => s[i] as int)
  }
}
