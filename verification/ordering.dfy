/** The order Python's `sorted` uses on sort keys, and a stable sort of row
    positions by key. */
module Ordering {
  import opened Values

  /** A sort key: ints and bools compare as numbers, strings as text. */
  datatype Key = Num(n: int) | Text(t: string)

  /** The key a value sorts by; `True` and `1` are the same key because Python
      treats them as equal. */
  function KeyOf(v: Value): (k: Key)
    ensures k.Text? <==> v.StrV?
  {
    match v
    case StrV(s) => Text(s)
    case _ => Num(Numeric(v))
  }

  /** Two values have the same key exactly when Python's `==` holds of them. */
  lemma KeyOfMatchesEquality(a: Value, b: Value)
    ensures KeyOf(a) == KeyOf(b) <==> PyEq(a, b)
  {
  }

  /** Python's `<` on strings: lexicographic by code point, a proper prefix first. */
  function LexLess(a: string, b: string): bool {
    if |a| == 0 then |b| > 0
    else if |b| == 0 then false
    else if a[0] != b[0] then a[0] < b[0]
    else LexLess(a[1..], b[1..])
  }

  /** Python's `<` on keys of one kind. Keys of different kinds are never
      compared by a sort that succeeds; numbers are put first only so that the
      order is total. */
  function KeyLess(x: Key, y: Key): bool {
    match (x, y)
    case (Num(a), Num(b)) => a < b
    case (Text(a), Text(b)) => LexLess(a, b)
    case (Num(_), Text(_)) => true
    case (Text(_), Num(_)) => false
  }

  lemma {:induction false} LexLessIrreflexive(a: string)
    ensures !LexLess(a, a)
  {
    if |a| > 0 {
      LexLessIrreflexive(a[1..]);
    }
  }

  lemma {:induction false} LexLessTotal(a: string, b: string)
    ensures a == b || LexLess(a, b) || LexLess(b, a)
  {
    if |a| > 0 && |b| > 0 && a[0] == b[0] {
      LexLessTotal(a[1..], b[1..]);
      assert a == [a[0]] + a[1..] && b == [b[0]] + b[1..];
    }
  }

  lemma {:induction false} LexLessTransitive(a: string, b: string, c: string)
    requires LexLess(a, b) && LexLess(b, c)
    ensures LexLess(a, c)
  {
    if |a| > 0 && a[0] == b[0] && b[0] == c[0] {
      LexLessTransitive(a[1..], b[1..], c[1..]);
    }
  }

  /** KeyLess is a strict total order. */
  lemma KeyLessStrictTotal(x: Key, y: Key, z: Key)
    ensures !KeyLess(x, x)
    ensures x == y || KeyLess(x, y) || KeyLess(y, x)
    ensures KeyLess(x, y) && KeyLess(y, z) ==> KeyLess(x, z)
  {
    if x.Text? {
      LexLessIrreflexive(x.t);
      if y.Text? {
        LexLessTotal(x.t, y.t);
        if z.Text? && KeyLess(x, y) && KeyLess(y, z) {
          LexLessTransitive(x.t, y.t, z.t);
        }
      }
    }
  }

  /** Position x goes before position y in a stable sort by keys: a smaller
      key, or an equal key and an earlier position. */
  predicate Before(keys: seq<Key>, x: nat, y: nat)
    requires x < |keys| && y < |keys|
  {
    KeyLess(keys[x], keys[y]) || (keys[x] == keys[y] && x < y)
  }

  /** Every pair of positions in p, not only neighbours, is in stable order. */
  predicate StablySorted(keys: seq<Key>, p: seq<nat>) {
    (forall t :: 0 <= t < |p| ==> p[t] < |keys|) &&
    forall a, b :: 0 <= a < b < |p| ==> Before(keys, p[a], p[b])
  }

  /** The positions 0 .. n-1 in order. */
  function Range(n: nat): (r: seq<nat>)
    ensures |r| == n && forall i :: 0 <= i < n ==> r[i] == i
  {
    if n == 0 then [] else Range(n - 1) + [n - 1]
  }

  /** Insert position i into p before the first position with a larger key. */
  function InsertPosition(keys: seq<Key>, p: seq<nat>, i: nat): (r: seq<nat>)
    requires i < |keys| && forall t :: 0 <= t < |p| ==> p[t] < |keys|
    ensures multiset(r) == multiset(p) + multiset{i}
    ensures forall t :: 0 <= t < |r| ==> r[t] < |keys|
  {
    if |p| == 0 then [i]
    else if KeyLess(keys[i], keys[p[0]]) then [i] + p
    else
      assert p == [p[0]] + p[1..];
      [p[0]] + InsertPosition(keys, p[1..], i)
  }

  /** Insertion sort of the positions 0 .. n-1 by their keys. */
  function SortPrefix(keys: seq<Key>, n: nat): (p: seq<nat>)
    requires n <= |keys|
    ensures multiset(p) == multiset(Range(n))
    ensures forall t :: 0 <= t < |p| ==> p[t] < n
    ensures StablySorted(keys, p)
  {
    if n == 0 then []
    else
      var q := SortPrefix(keys, n - 1);
      var r := InsertPosition(keys, q, n - 1);
      InsertPositionSorted(keys, q, n - 1);
      assert forall t :: 0 <= t < |r| ==> r[t] < n by {
        forall t | 0 <= t < |r| ensures r[t] < n {
          assert r[t] in multiset(r);
          if r[t] != n - 1 {
            assert r[t] in multiset(q);
            assert r[t] in q;
          }
        }
      }
      r
  }

  /** Inserting a position later than all of p into a stably sorted p keeps
      it stably sorted. */
  lemma {:induction false} InsertPositionSorted(keys: seq<Key>, p: seq<nat>, i: nat)
    requires i < |keys| && StablySorted(keys, p)
    requires forall t :: 0 <= t < |p| ==> p[t] < i
    ensures StablySorted(keys, InsertPosition(keys, p, i))
  {
    if |p| > 0 {
      var r := InsertPosition(keys, p, i);
      if KeyLess(keys[i], keys[p[0]]) {
        forall b | 0 < b < |r| ensures Before(keys, r[0], r[b]) {
          if b > 1 {
            KeyLessStrictTotal(keys[i], keys[p[0]], keys[p[b - 1]]);
          }
        }
      } else {
        var rest := p[1..];
        InsertPositionSorted(keys, rest, i);
        var tail := InsertPosition(keys, rest, i);
        assert r == [p[0]] + tail;
        KeyLessStrictTotal(keys[i], keys[p[0]], keys[i]);
        assert Before(keys, p[0], i);
        forall b | 0 < b < |r| ensures Before(keys, r[0], r[b]) {
          var y := tail[b - 1];
          assert y in multiset(tail);
          if y != i {
            assert y in multiset(rest);
            var c :| 0 <= c < |rest| && rest[c] == y;
            assert p[c + 1] == y;
          }
        }
      }
    }
  }

  /** The order `sorted` puts positions in: a permutation of 0 .. |keys|-1,
      ordered by key, with equal keys kept in their original order. */
  function SortOrder(keys: seq<Key>): (p: seq<nat>)
    ensures |p| == |keys| && multiset(p) == multiset(Range(|keys|))
    ensures StablySorted(keys, p)
  {
    var p := SortPrefix(keys, |keys|);
    assert |multiset(p)| == |multiset(Range(|keys|))|;
    p
  }
}
