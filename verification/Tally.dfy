/** Adding up a weight over the threads of a program. */
module Tally {

  function Total<A>(s: seq<A>, weight: A -> nat): nat {
    if s == [] then 0 else weight(s[0]) + Total(s[1..], weight)
  }

  /** A step of one thread changes the total by the change of that thread. */
  lemma {:induction false} TotalUpdate<A>(s: seq<A>, weight: A -> nat, i: nat, x: A)
    requires i < |s|
    ensures Total(s[i := x], weight) + weight(s[i]) == Total(s, weight) + weight(x)
  {
    if i == 0 {
      assert s[i := x][1..] == s[1..];
    } else {
      assert s[i := x][1..] == s[1..][i - 1 := x];
      TotalUpdate(s[1..], weight, i - 1, x);
    }
  }

  /** No thread weighs less, and one weighs more. */
  lemma {:induction false} TotalGrows<A>(s: seq<A>, s': seq<A>, weight: A -> nat, i: nat)
    requires |s| == |s'| && i <= |s| && forall k | 0 <= k < |s| :: weight(s[k]) <= weight(s'[k])
    requires i < |s| ==> weight(s[i]) < weight(s'[i])
    ensures Total(s, weight) + (if i < |s| then 1 else 0) <= Total(s', weight)
  {
    if s != [] {
      TotalGrows(s[1..], s'[1..], weight, if i == 0 then |s| - 1 else i - 1);
    }
  }

  lemma {:induction false} TotalAtLeast<A>(s: seq<A>, weight: A -> nat, i: nat)
    requires i < |s|
    ensures weight(s[i]) <= Total(s, weight)
  {
    if i > 0 {
      TotalAtLeast(s[1..], weight, i - 1);
    }
  }

  lemma {:induction false} TotalOfTwo<A>(s: seq<A>, weight: A -> nat, i: nat, j: nat)
    requires i < j < |s|
    ensures weight(s[i]) + weight(s[j]) <= Total(s, weight)
  {
    if i == 0 {
      TotalAtLeast(s[1..], weight, j - 1);
    } else {
      TotalOfTwo(s[1..], weight, i - 1, j - 1);
    }
  }

  lemma {:induction false} TotalZero<A>(s: seq<A>, weight: A -> nat)
    requires forall i | 0 <= i < |s| :: weight(s[i]) == 0
    ensures Total(s, weight) == 0
  {
    if s != [] {
      TotalZero(s[1..], weight);
    }
  }

  lemma {:induction false} TotalPositive<A>(s: seq<A>, weight: A -> nat) returns (i: nat)
    requires Total(s, weight) > 0
    ensures i < |s| && weight(s[i]) > 0
  {
    if weight(s[0]) > 0 {
      i := 0;
    } else {
      i := TotalPositive(s[1..], weight);
      i := i + 1;
    }
  }
}
