/** Sequence operations the other modules have in common. */
module Sequences {

  ghost predicate Distinct<T>(s: seq<T>) {
    forall i, j | 0 <= i < j < |s| :: s[i] != s[j]
  }

  function Inserted<T>(s: seq<T>, i: nat, x: T): (t: seq<T>)
    requires i <= |s|
    ensures |t| == |s| + 1
  {
    s[..i] + [x] + s[i..]
  }

  function Removed<T>(s: seq<T>, i: nat): (t: seq<T>)
    requires i < |s|
    ensures |t| == |s| - 1
  {
    s[..i] + s[i + 1..]
  }

  lemma InsertedAt<T>(s: seq<T>, i: nat, x: T, j: nat)
    requires i <= |s| && j <= |s|
    ensures Inserted(s, i, x)[j] == if j < i then s[j] else if j == i then x else s[j - 1]
  {
  }

  lemma RemovedAt<T>(s: seq<T>, i: nat, j: nat)
    requires i < |s| && j < |s| - 1
    ensures Removed(s, i)[j] == if j < i then s[j] else s[j + 1]
  {
  }

  function Elements<T(==)>(s: seq<T>): (r: set<T>) {
    set x | x in s
  }

  lemma ElementsAre<T>(s: seq<T>)
    ensures forall x :: x in Elements(s) <==> x in s
  {
  }

  lemma {:induction false} DistinctCount<T>(s: seq<T>)
    requires Distinct(s)
    ensures |Elements(s)| == |s|
  {
    if s == [] {
      assert Elements(s) == {};
    } else {
      DistinctCount(s[1..]);
      assert s == [s[0]] + s[1..];
      assert s[0] !in Elements(s[1..]);
      assert Elements(s) == {s[0]} + Elements(s[1..]);
    }
  }

  lemma InsertedElements<T>(s: seq<T>, i: nat, x: T)
    requires i <= |s|
    ensures forall y :: y in Inserted(s, i, x) <==> y == x || y in s
    ensures multiset(Inserted(s, i, x)) == multiset(s) + multiset{x}
  {
    assert s == s[..i] + s[i..];
    var t := Inserted(s, i, x);
    forall y ensures y in t <==> y == x || y in s {
      assert y in t <==> y in multiset(t);
      assert y in s <==> y in multiset(s);
    }
  }

  lemma RemovedElements<T>(s: seq<T>, i: nat)
    requires i < |s|
    ensures multiset(s) == multiset(Removed(s, i)) + multiset{s[i]}
    ensures Distinct(s) ==> forall y :: y in Removed(s, i) <==> y in s && y != s[i]
  {
    assert s == s[..i] + [s[i]] + s[i + 1..];
    var t := Removed(s, i);
    if Distinct(s) {
      forall y ensures y in t <==> y in s && y != s[i] {
        if y in s && y != s[i] {
          var j :| 0 <= j < |s| && s[j] == y;
          assert t[if j < i then j else j - 1] == y;
        }
      }
    }
  }

  lemma Associative<T>(a: seq<T>, b: seq<T>, c: seq<T>)
    ensures (a + b) + c == a + (b + c)
  {
  }
}
