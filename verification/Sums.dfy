/** Sums of integer sequences and how an append, an update or a bound moves them. */
module Sums {
  function Sum(s: seq<int>): int
  {
    if s == [] then 0 else s[0] + Sum(s[1..])
  }

  lemma {:induction false} Concat(a: seq<int>, b: seq<int>)
    ensures Sum(a + b) == Sum(a) + Sum(b)
  {
    if a == [] {
      assert a + b == b;
    } else {
      assert (a + b)[1..] == a[1..] + b;
      Concat(a[1..], b);
    }
  }

  lemma Append(s: seq<int>, x: int)
    ensures Sum(s + [x]) == Sum(s) + x
  {
    Concat(s, [x]);
    assert Sum([x]) == x + Sum([]);
  }

  lemma Update(s: seq<int>, i: nat, x: int)
    requires i < |s|
    ensures Sum(s[i := x]) == Sum(s) - s[i] + x
  {
    assert s == s[..i] + ([s[i]] + s[i + 1..]);
    assert s[i := x] == s[..i] + ([x] + s[i + 1..]);
    Concat(s[..i], [s[i]] + s[i + 1..]);
    Concat(s[..i], [x] + s[i + 1..]);
  }

  lemma {:induction false} Monotone(a: seq<int>, b: seq<int>)
    requires |a| == |b|
    requires forall i :: 0 <= i < |a| ==> a[i] <= b[i]
    ensures Sum(a) <= Sum(b)
  {
    if a != [] {
      assert a[0] <= b[0];
      Monotone(a[1..], b[1..]);
    }
  }

  lemma {:induction false} Zeros(s: seq<int>)
    requires forall i :: 0 <= i < |s| ==> s[i] == 0
    ensures Sum(s) == 0
  {
    if s != [] {
      Zeros(s[1..]);
    }
  }

  /** One non-negative term never exceeds the whole sum. */
  lemma Member(s: seq<int>, i: nat)
    requires i < |s|
    requires forall k :: 0 <= k < |s| ==> 0 <= s[k]
    ensures 0 <= s[i] <= Sum(s)
  {
    Update(s, i, 0);
    var rest := s[i := 0];
    var zeros := seq(|s|, _ => 0);
    Zeros(zeros);
    Monotone(zeros, rest);
  }

  /** Terms no larger than others add up to as much only when they are the same terms. */
  lemma {:induction false} EqualSums(a: seq<int>, b: seq<int>)
    requires |a| == |b| && forall i :: 0 <= i < |a| ==> a[i] <= b[i]
    ensures Sum(a) == Sum(b) <==> a == b
  {
    if a != [] {
      EqualSums(a[1..], b[1..]);
      Monotone(a[1..], b[1..]);
      assert a == [a[0]] + a[1..] && b == [b[0]] + b[1..];
    }
  }
}
