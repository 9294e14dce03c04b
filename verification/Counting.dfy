/** Counting how often a number stands in a list, and sums of counts. */
module Counting {

  function One(b: bool): nat { if b then 1 else 0 }

  function Times(s: seq<nat>, x: nat): nat {
    if s == [] then 0 else One(s[0] == x) + Times(s[1..], x)
  }

  lemma {:induction false} TimesAppend(s: seq<nat>, y: nat, x: nat)
    ensures Times(s + [y], x) == Times(s, x) + One(y == x)
  {
    if s == [] {
      assert [y][1..] == [];
    } else {
      assert (s + [y])[1..] == s[1..] + [y];
      TimesAppend(s[1..], y, x);
    }
  }

  lemma {:induction false} TimesAtLeast(s: seq<nat>, j: nat)
    requires j < |s|
    ensures Times(s, s[j]) >= 1
  {
    if j > 0 {
      TimesAtLeast(s[1..], j - 1);
    }
  }

  /** 0, 1, ..., n-1 */
  function Upto(n: nat): seq<nat> {
    if n == 0 then [] else Upto(n - 1) + [n - 1]
  }

  lemma {:induction false} UptoIs(n: nat)
    ensures |Upto(n)| == n && forall i :: 0 <= i < n ==> Upto(n)[i] == i
    ensures forall f: nat :: multiset(Upto(n))[f] == if f < n then 1 else 0
  {
    if n > 0 {
      UptoIs(n - 1);
    }
  }

  function Sum(s: seq<nat>): nat { if s == [] then 0 else s[0] + Sum(s[1..]) }

  lemma {:induction false} SumUpdate(s: seq<nat>, i: nat, x: nat)
    requires i < |s|
    ensures Sum(s[i := x]) == Sum(s) - s[i] + x
  {
    if i > 0 {
      assert s[i := x][1..] == s[1..][i - 1 := x];
      SumUpdate(s[1..], i - 1, x);
    }
  }

  lemma {:induction false} SumAppend(s: seq<nat>, x: nat)
    ensures Sum(s + [x]) == Sum(s) + x
  {
    if s == [] {
      assert s + [x] == [x];
    } else {
      assert (s + [x])[1..] == s[1..] + [x];
      SumAppend(s[1..], x);
    }
  }

  lemma {:induction false} SumAtLeast(s: seq<nat>, i: nat)
    requires i < |s|
    ensures Sum(s) >= s[i]
  {
    if i > 0 {
      SumAtLeast(s[1..], i - 1);
    }
  }

  lemma SumOfTwo(s: seq<nat>, i: nat, j: nat)
    requires i < |s| && j < |s| && i != j
    ensures Sum(s) >= s[i] + s[j]
  {
    SumUpdate(s, i, 0);
    SumAtLeast(s[i := 0], j);
  }

  lemma {:induction false} SumAtMostOne(s: seq<nat>)
    requires forall i :: 0 <= i < |s| ==> s[i] <= 1
    requires forall i, j :: 0 <= i < j < |s| ==> s[i] == 0 || s[j] == 0
    ensures Sum(s) <= 1
    ensures Sum(s) == 1 ==> exists i :: 0 <= i < |s| && s[i] == 1
  {
    if s != [] {
      var rest := s[1..];
      SumAtMostOne(rest);
      if i :| 0 <= i < |rest| && rest[i] == 1 {
        assert s[i + 1] == 1 && s[0] == 0;
      }
    }
  }
}
