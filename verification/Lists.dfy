/** std::list::remove and lists without repetition. */
module Lists {

  function Removed<T(==)>(s: seq<T>, x: T): seq<T> {
    if s == [] then []
    else if s[0] == x then Removed(s[1..], x)
    else [s[0]] + Removed(s[1..], x)
  }

  ghost predicate Distinct<T>(s: seq<T>) {
    forall i, j | 0 <= i < j < |s| :: s[i] != s[j]
  }

  lemma {:induction false} RemovedMembers<T>(s: seq<T>, x: T)
    ensures forall y :: y in Removed(s, x) <==> y in s && y != x
    ensures forall i | 0 <= i < |Removed(s, x)| :: Removed(s, x)[i] in s
    ensures x !in s ==> Removed(s, x) == s
  {
    if s != [] {
      RemovedMembers(s[1..], x);
      assert s == [s[0]] + s[1..];
    }
  }

  /** What stays keeps its order. */
  lemma {:induction false} RemovedConcat<T>(a: seq<T>, b: seq<T>, x: T)
    ensures Removed(a + b, x) == Removed(a, x) + Removed(b, x)
  {
    if a == [] {
      assert a + b == b;
    } else {
      assert (a + b)[1..] == a[1..] + b;
      RemovedConcat(a[1..], b, x);
    }
  }

  lemma {:induction false} RemovedDistinct<T>(s: seq<T>, x: T)
    requires Distinct(s)
    ensures Distinct(Removed(s, x))
  {
    if s != [] {
      RemovedDistinct(s[1..], x);
      RemovedMembers(s[1..], x);
      assert s[0] !in s[1..];
    }
  }

  /** Cutting a list without repetition in two separates its members. */
  lemma SplitDistinct<T>(s: seq<T>, k: nat)
    requires Distinct(s) && k <= |s|
    ensures Distinct(s[..k]) && Distinct(s[k..])
    ensures forall x :: x in s <==> x in s[..k] || x in s[k..]
    ensures forall x | x in s[..k] :: x !in s[k..]
  {
    assert s == s[..k] + s[k..];
  }
}
