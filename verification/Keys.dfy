/** The order in which a `QMap` with string keys lists them. */
module Keys {

  predicate LessEq(a: string, b: string) {
    if a == [] then true
    else if b == [] then false
    else a[0] < b[0] || (a[0] == b[0] && LessEq(a[1..], b[1..]))
  }

  lemma {:induction false} LessEqTotal(a: string, b: string)
    ensures LessEq(a, b) || LessEq(b, a)
  {
    if a != [] && b != [] {
      LessEqTotal(a[1..], b[1..]);
    }
  }

  lemma {:induction false} LessEqAntisymmetric(a: string, b: string)
    requires LessEq(a, b) && LessEq(b, a)
    ensures a == b
  {
    if a != [] {
      LessEqAntisymmetric(a[1..], b[1..]);
      assert a == [a[0]] + a[1..] && b == [b[0]] + b[1..];
    }
  }

  lemma {:induction false} LessEqTransitive(a: string, b: string, c: string)
    requires LessEq(a, b) && LessEq(b, c)
    ensures LessEq(a, c)
  {
    if a != [] && a[0] == b[0] && b[0] == c[0] {
      LessEqTransitive(a[1..], b[1..], c[1..]);
    }
  }

  predicate IsLeast(k: string, s: set<string>) {
    k in s && forall j <- s :: LessEq(k, j)
  }

  lemma LeastExists(s: set<string>)
    requires s != {}
    ensures exists k :: IsLeast(k, s)
  {
    var k :| k in s;
    if s == {k} {
      LessEqTotal(k, k);
      assert IsLeast(k, s);
    } else {
      LeastExists(s - {k});
      var m :| IsLeast(m, s - {k});
      LessEqTotal(k, m);
      LessEqTotal(k, k);
      var least := if LessEq(k, m) then k else m;
      forall j | j in s
        ensures LessEq(least, j)
      {
        if j != k && least == k {
          LessEqTransitive(k, m, j);
        }
      }
      assert IsLeast(least, s);
    }
  }

  function Least(s: set<string>): (k: string)
    requires s != {}
    ensures IsLeast(k, s)
  {
    LeastExists(s);
    assert forall j, k | IsLeast(j, s) && IsLeast(k, s) :: j == k by {
      forall j, k | IsLeast(j, s) && IsLeast(k, s)
        ensures j == k
      {
        LessEqAntisymmetric(j, k);
      }
    }
    var k :| k in s && IsLeast(k, s);
    k
  }

  /** All keys, in ascending order. */
  function Sorted(s: set<string>): (keys: seq<string>)
    ensures forall k :: k in keys <==> k in s
    ensures forall i, j :: 0 <= i < j < |keys| ==> keys[i] != keys[j]
    decreases |s|
  {
    if s == {} then []
    else
      var k := Least(s);
      [k] + Sorted(s - {k})
  }

  /** The first character where the two differ decides; a proper prefix comes first. */
  ghost predicate ComesBefore(a: string, b: string) {
    exists i: nat :: DiffersAt(a, b, i)
  }

  ghost predicate DiffersAt(a: string, b: string, i: nat) {
    i <= |a| && i < |b| && a[..i] == b[..i] && (i == |a| || a[i] < b[i])
  }

  lemma {:induction false} LessEqMeansBefore(a: string, b: string)
    requires LessEq(a, b) && a != b
    ensures ComesBefore(a, b)
  {
    if a == [] {
      assert DiffersAt(a, b, 0);
    } else if a[0] < b[0] {
      assert DiffersAt(a, b, 0);
    } else {
      assert a == [a[0]] + a[1..] && b == [b[0]] + b[1..];
      LessEqMeansBefore(a[1..], b[1..]);
      var i: nat :| DiffersAt(a[1..], b[1..], i);
      assert a[..i + 1] == [a[0]] + a[1..][..i] && b[..i + 1] == [b[0]] + b[1..][..i];
      assert DiffersAt(a, b, i + 1);
    }
  }

  /** Each key comes before all those after it. */
  ghost predicate Ascending(keys: seq<string>) {
    keys == [] || ((forall k <- keys[1..] :: ComesBefore(keys[0], k)) && Ascending(keys[1..]))
  }

  lemma LeastComesFirst(s: set<string>, x: string)
    requires x in s && x != Least(s)
    ensures ComesBefore(Least(s), x)
  {
    LessEqMeansBefore(Least(s), x);
  }

  lemma AscendingCons(key: string, keys: seq<string>)
    requires Ascending(keys) && forall k <- keys :: ComesBefore(key, k)
    ensures Ascending([key] + keys)
  {
    assert ([key] + keys)[1..] == keys;
  }

  /** The keys are listed in ascending order. */
  lemma {:induction false} SortedAscends(s: set<string>)
    ensures Ascending(Sorted(s))
    decreases |s|
  {
    if s != {} {
      var least := Least(s);
      var rest := Sorted(s - {least});
      SortedAscends(s - {least});
      forall k | k in rest
        ensures ComesBefore(least, k)
      {
        LeastComesFirst(s, k);
      }
      AscendingCons(least, rest);
    }
  }
}
