/** Facts about integer lists shared by both game variants: sums, extremes,
    distinctness and Python's `list.remove`. */
module Sequences {

  /** Python's `sum` over a list of integers. */
  function Sum(s: seq<int>): int
  {
    if s == [] then 0 else s[0] + Sum(s[1..])
  }

  function Min(s: seq<int>): (m: int)
    requires s != []
    ensures m in s
    ensures forall k :: 0 <= k < |s| ==> m <= s[k]
  {
    if |s| == 1 then s[0]
    else
      var rest := Min(s[1..]);
      assert forall k :: 1 <= k < |s| ==> s[k] == s[1..][k - 1];
      if s[0] <= rest then s[0] else rest
  }

  function Max(s: seq<int>): (m: int)
    requires s != []
    ensures m in s
    ensures forall k :: 0 <= k < |s| ==> s[k] <= m
  {
    if |s| == 1 then s[0]
    else
      var rest := Max(s[1..]);
      assert forall k :: 1 <= k < |s| ==> s[k] == s[1..][k - 1];
      if rest <= s[0] then s[0] else rest
  }

  /** The sum of a non-empty list lies between |s| times its least and |s| times its greatest element. */
  lemma {:induction false} SumBounds(s: seq<int>)
    requires s != []
    ensures |s| * Min(s) <= Sum(s) <= |s| * Max(s)
  {
    if |s| > 1 {
      var t := s[1..];
      SumBounds(t);
      var n, lo, hi := |t|, Min(s), Max(s);
      assert Sum(s) == s[0] + Sum(t);
      assert lo <= s[0] <= hi;
      assert lo <= Min(t) && Max(t) <= hi by { assert Min(t) == s[1 + IndexOf(t, Min(t))]; assert Max(t) == s[1 + IndexOf(t, Max(t))]; }
      ScaleStep(n, lo, Min(t));
      ScaleStep(n, Max(t), hi);
    }
  }

  /** Multiplying by a count keeps order, and one more copy adds one more term. */
  lemma ScaleStep(n: nat, a: int, b: int)
    requires a <= b
    ensures n * a <= n * b
    ensures (n + 1) * a == a + n * a && (n + 1) * b == b + n * b
  {
  }

  function IndexOf<T(==)>(s: seq<T>, x: T): (k: nat)
    requires x in s
    ensures k < |s| && s[k] == x
  {
    if s[0] == x then 0 else 1 + IndexOf(s[1..], x)
  }

  predicate Distinct<T(==)>(s: seq<T>)
  {
    forall i, j :: 0 <= i < j < |s| ==> s[i] != s[j]
  }

  /** Appending a new element keeps a sequence free of repeats. */
  lemma DistinctAppend<T>(s: seq<T>, x: T)
    requires Distinct(s) && x !in s
    ensures Distinct(s + [x])
  {
    assert forall i :: 0 <= i < |s| ==> (s + [x])[i] == s[i];
  }

  lemma {:induction false} DistinctOccursOnce<T>(t: seq<T>, v: T)
    requires Distinct(t)
    ensures multiset(t)[v] <= 1
  {
    if t != [] {
      assert t == [t[0]] + t[1..];
      DistinctOccursOnce(t[1..], v);
      if t[0] == v {
        assert v !in t[1..];
      }
    }
  }

  /** A rearrangement of a list without repeated elements has none either. */
  lemma PermutationOfDistinct<T>(s: seq<T>, t: seq<T>)
    requires multiset(s) == multiset(t)
    requires Distinct(t)
    ensures |s| == |t| && Distinct(s)
  {
    assert |s| == |multiset(s)| == |multiset(t)| == |t|;
    forall i, j | 0 <= i < j < |s| ensures s[i] != s[j] {
      if s[i] == s[j] {
        var v := s[i];
        assert s == s[..j] + s[j..];
        assert v in s[..j];
        assert v == s[j..][0];
        assert multiset(s)[v] == multiset(s[..j])[v] + multiset(s[j..])[v];
        DistinctOccursOnce(t, v);
        assert false;
      }
    }
  }

  /** Python's `list.remove(x)`: drops the first occurrence of `x`. */
  function RemoveFirst<T(==)>(s: seq<T>, x: T): (r: seq<T>)
    requires x in s
    ensures |r| == |s| - 1
    ensures multiset(r) == multiset(s) - multiset{x}
  {
    if s[0] == x then
      assert s == [s[0]] + s[1..];
      s[1..]
    else
      assert s == [s[0]] + s[1..];
      [s[0]] + RemoveFirst(s[1..], x)
  }

  lemma DistinctTail<T>(s: seq<T>)
    requires s != [] && Distinct(s)
    ensures Distinct(s[1..]) && s[0] !in s[1..]
  {
    forall i, j | 0 <= i < j < |s| - 1 ensures s[1..][i] != s[1..][j] {
      assert s[1..][i] == s[i + 1] && s[1..][j] == s[j + 1];
    }
    forall k | 0 <= k < |s| - 1 ensures s[1..][k] != s[0] {
      assert s[1..][k] == s[k + 1];
    }
  }

  /** When the list has no repeats, removing the value at position i removes exactly position i. */
  lemma {:induction false} RemoveFirstAt<T>(s: seq<T>, i: nat)
    requires i < |s|
    requires Distinct(s)
    ensures RemoveFirst(s, s[i]) == s[..i] + s[i + 1..]
  {
    if i == 0 {
      assert s[..0] + s[1..] == s[1..];
    } else {
      var t := s[1..];
      assert s[0] != s[i];
      assert t[i - 1] == s[i];
      assert RemoveFirst(s, s[i]) == [s[0]] + RemoveFirst(t, s[i]);
      assert Distinct(t) by { DistinctTail(s); }
      RemoveFirstAt(t, i - 1);
      DropAtCons(s, i);
    }
  }

  /** Dropping position i > 0 keeps the head and drops position i - 1 of the tail. */
  lemma DropAtCons<T>(s: seq<T>, i: nat)
    requires 0 < i < |s|
    ensures s[..i] + s[i + 1..] == [s[0]] + (s[1..][..i - 1] + s[1..][i..])
  {
    assert s[..i] == [s[0]] + s[1..][..i - 1];
    assert s[i + 1..] == s[1..][i..];
  }

  /** Taking out position i and putting it in front rearranges the list. */
  lemma TakeOutPermutes<T>(s: seq<T>, i: nat)
    requires i < |s|
    ensures multiset([s[i]] + (s[..i] + s[i + 1..])) == multiset(s)
  {
    assert s == s[..i] + [s[i]] + s[i + 1..];
  }

  /** Without repeats, the value at position i occurs nowhere else. */
  lemma OnlyAt<T>(s: seq<T>, i: nat)
    requires i < |s|
    requires Distinct(s)
    ensures s[i] !in s[..i] + s[i + 1..]
  {
    var r := s[..i] + s[i + 1..];
    forall k | 0 <= k < |r| ensures r[k] != s[i] {
      if k < i { assert r[k] == s[k]; } else { assert r[k] == s[k + 1]; }
    }
  }
}
