/** Cursors over a sub-container: the keys in key order, reversed for a
    descending scan, or restricted to the keys carrying a prefix. */
module Cursors {
  import opened Bytes

  predicate IsLeast(k: Bytes, s: set<Bytes>)
  {
    k in s && forall j | j in s :: LexLe(k, j)
  }

  lemma {:induction false} LeastExists(s: set<Bytes>)
    requires s != {}
    ensures exists k :: IsLeast(k, s)
    decreases |s|
  {
    var x :| x in s;
    LexLeReflexive(x);
    if s == {x} {
      assert IsLeast(x, s);
    } else {
      LeastExists(s - {x});
      var m :| IsLeast(m, s - {x});
      LexLeTotal(m, x);
      if LexLe(m, x) {
        assert IsLeast(m, s);
      } else {
        forall j | j in s
          ensures LexLe(x, j)
        {
          if j != x {
            LexLeTransitive(x, m, j);
          }
        }
        assert IsLeast(x, s);
      }
    }
  }

  lemma LeastUnique(s: set<Bytes>)
    ensures forall a, b | IsLeast(a, s) && IsLeast(b, s) :: a == b
  {
    forall a, b | IsLeast(a, s) && IsLeast(b, s)
      ensures a == b
    {
      LexLeAntisymmetric(a, b);
    }
  }

  predicate Increasing(ks: seq<Bytes>)
  {
    forall i, j | 0 <= i < j < |ks| :: LexLt(ks[i], ks[j])
  }

  predicate Decreasing(ks: seq<Bytes>)
  {
    forall i, j | 0 <= i < j < |ks| :: LexLt(ks[j], ks[i])
  }

  /** The keys of a sub-container in the order an ascending cursor yields them. */
  function SortedKeys(s: set<Bytes>): (r: seq<Bytes>)
    ensures |r| == |s|
    ensures forall k :: k in r <==> k in s
    ensures Increasing(r)
    decreases |s|
  {
    if s == {} then []
    else
      LeastExists(s);
      LeastUnique(s);
      var k :| IsLeast(k, s);
      var rest := SortedKeys(s - {k});
      assert forall j | j in rest :: LexLt(k, j);
      [k] + rest
  }

  function Reverse(ks: seq<Bytes>): (r: seq<Bytes>)
    ensures |r| == |ks|
    ensures forall i | 0 <= i < |ks| :: r[i] == ks[|ks| - 1 - i]
  {
    seq(|ks|, i requires 0 <= i < |ks| => ks[|ks| - 1 - i])
  }

  /** `ForwardCursor(nil)` with or without the descending option. */
  function ScanKeys(m: map<Bytes, Bytes>, descending: bool): (r: seq<Bytes>)
    ensures forall k :: k in r <==> k in m
    ensures |r| == |m|
    ensures if descending then Decreasing(r) else Increasing(r)
  {
    var ks := SortedKeys(m.Keys);
    if descending then
      var r := Reverse(ks);
      assert forall k | k in ks :: k in r by {
        forall k | k in ks ensures k in r {
          var i :| 0 <= i < |ks| && ks[i] == k;
          assert r[|ks| - 1 - i] == k;
        }
      }
      r
    else ks
  }

  /** The keys of `ks` carrying prefix `p`, in the same order. */
  function WithPrefix(ks: seq<Bytes>, p: Bytes): (r: seq<Bytes>)
    ensures forall k :: k in r <==> k in ks && HasPrefix(k, p)
    ensures |r| <= |ks|
    ensures Increasing(ks) ==> Increasing(r)
  {
    if ks == [] then []
    else
      var rest := WithPrefix(ks[1..], p);
      assert forall k | k in ks[1..] :: k in ks;
      if HasPrefix(ks[0], p) then
        assert Increasing(ks) ==> forall j | j in rest :: LexLt(ks[0], j);
        [ks[0]] + rest
      else rest
  }

  /** `ForwardCursor(prefix, WithCursorPrefix(prefix))`: an ascending scan of
      the keys that carry the prefix. */
  function PrefixKeys(m: map<Bytes, Bytes>, p: Bytes): (r: seq<Bytes>)
    ensures forall k :: k in r <==> k in m && HasPrefix(k, p)
    ensures Increasing(r)
  {
    WithPrefix(SortedKeys(m.Keys), p)
  }
}
