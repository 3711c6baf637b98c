/**
  Python's order on strings (lexicographic by code point, a proper prefix
  first), and `sorted` of a set of strings: the ascending sequence of its
  elements.
 */
module Ordering {

  /** `a < b` on Python strings. */
  predicate Below(a: string, b: string) {
    if a == [] then b != []
    else if b == [] then false
    else if a[0] != b[0] then a[0] < b[0]
    else Below(a[1..], b[1..])
  }

  lemma {:induction false} BelowIrreflexive(a: string)
    ensures !Below(a, a)
  {
    if a != [] {
      BelowIrreflexive(a[1..]);
    }
  }

  lemma {:induction false} BelowTransitive(a: string, b: string, c: string)
    requires Below(a, b) && Below(b, c)
    ensures Below(a, c)
  {
    if a != [] && b != [] && c != [] && a[0] == b[0] && b[0] == c[0] {
      BelowTransitive(a[1..], b[1..], c[1..]);
    }
  }

  /** Any two different strings are ordered one way or the other. */
  lemma {:induction false} BelowTotal(a: string, b: string)
    requires a != b
    ensures Below(a, b) || Below(b, a)
  {
    if a != [] && b != [] && a[0] == b[0] {
      assert a == [a[0]] + a[1..] && b == [b[0]] + b[1..];
      BelowTotal(a[1..], b[1..]);
    }
  }

  /** The smallest element of a non-empty set of strings. */
  ghost function Least(s: set<string>): (m: string)
    requires s != {}
    ensures m in s
    ensures forall x | x in s && x != m :: Below(m, x)
  {
    var x :| x in s;
    if s == {x} then x
    else
      var y := Least(s - {x});
      if Below(x, y) then
        assert forall z | z in s && z != x :: Below(x, z) by {
          forall z | z in s && z != x ensures Below(x, z) {
            if z != y {
              BelowTransitive(x, y, z);
            }
          }
        }
        x
      else
        assert Below(y, x) by {
          BelowTotal(x, y);
        }
        y
  }

  /** Strictly ascending in string order. */
  predicate Ascending(r: seq<string>) {
    forall i, j | 0 <= i < j < |r| :: Below(r[i], r[j])
  }

  /** `sorted(s)`: every element once, in strictly ascending order. */
  ghost function SortedSet(s: set<string>): (r: seq<string>)
    ensures |r| == |s|
    ensures forall x :: x in r <==> x in s
    ensures Ascending(r)
    decreases |s|
  {
    if s == {} then []
    else
      var m := Least(s);
      var rest := SortedSet(s - {m});
      LeastFirst(s, rest);
      AscendingCons(m, rest);
      [m] + rest
  }

  lemma AscendingCons(m: string, rest: seq<string>)
    requires Ascending(rest)
    requires forall j | 0 <= j < |rest| :: Below(m, rest[j])
    ensures Ascending([m] + rest)
  {
    var r := [m] + rest;
    forall i, j | 0 <= i < j < |r| ensures Below(r[i], r[j]) {
      assert r[j] == rest[j - 1];
      if i > 0 {
        assert r[i] == rest[i - 1];
      }
    }
  }

  lemma LeastFirst(s: set<string>, rest: seq<string>)
    requires s != {}
    requires forall x :: x in rest <==> x in s - {Least(s)}
    ensures forall j | 0 <= j < |rest| :: Below(Least(s), rest[j])
  {
    forall j | 0 <= j < |rest| ensures Below(Least(s), rest[j]) {
      assert rest[j] in s - {Least(s)};
    }
  }

  /** A strictly ascending sequence holds no element twice. */
  lemma SortedDistinct(r: seq<string>)
    requires Ascending(r)
    ensures forall i, j | 0 <= i < j < |r| :: r[i] != r[j]
  {
    forall i, j | 0 <= i < j < |r| ensures r[i] != r[j] {
      BelowIrreflexive(r[i]);
    }
  }
}
