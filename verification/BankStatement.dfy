/** Suggested matches of the bank reconciliation (apps/api/src/bank-statement/bank-statement.service.ts). */
module SuggestedMatches {
  datatype Submission = Submission(id: nat, amountClaimed: int)
  datatype Line = Line(id: nat, amount: int)

  /** A suggestion names its submission and its line by their places in the two query results. */
  datatype Suggestion = Suggestion(submission: nat, line: nat)

  function Claims(pending: seq<Submission>): (r: seq<int>)
    ensures |r| == |pending|
  {
    seq(|pending|, i requires 0 <= i < |pending| => pending[i].amountClaimed)
  }

  function Amounts(lines: seq<Line>): (r: seq<int>)
    ensures |r| == |lines|
  {
    seq(|lines|, i requires 0 <= i < |lines| => lines[i].amount)
  }

  ghost predicate DistinctIds(lines: seq<Line>)
  {
    forall i, j :: 0 <= i < j < |lines| ==> lines[i].id != lines[j].id
  }

  /** How many places before `i` hold the same amount: 0 for the oldest of its amount. */
  ghost function Rank(amounts: seq<int>, i: nat): nat
    requires i < |amounts|
  {
    multiset(amounts[..i])[amounts[i]]
  }

  /** First come, first served: the k-th oldest submission of an amount and its k-th oldest line. */
  ghost predicate Fifo(claims: seq<int>, amounts: seq<int>, s: Suggestion)
  {
    && s.submission < |claims| && s.line < |amounts|
    && claims[s.submission] == amounts[s.line]
    && Rank(claims, s.submission) == Rank(amounts, s.line)
  }

  /** Pairs of equal amount that use no submission and no line twice. */
  ghost predicate Matching(claims: seq<int>, amounts: seq<int>, pairs: seq<Suggestion>)
  {
    && (forall m :: 0 <= m < |pairs| ==>
          pairs[m].submission < |claims| && pairs[m].line < |amounts|
          && claims[pairs[m].submission] == amounts[pairs[m].line])
    && (forall m, n :: 0 <= m < n < |pairs| ==>
          pairs[m].submission != pairs[n].submission && pairs[m].line != pairs[n].line)
  }

  lemma CountStep(amounts: seq<int>, i: nat, a: int)
    requires i < |amounts|
    ensures multiset(amounts[..i + 1])[a] == multiset(amounts[..i])[a] + (if amounts[i] == a then 1 else 0)
  {
    assert amounts[..i + 1] == amounts[..i] + [amounts[i]];
  }

  /** Among the first `n` places, the (k+1)-st holding `a` exists as soon as more than `k` do. */
  lemma {:induction false} FindRank(amounts: seq<int>, n: nat, a: int, k: nat) returns (j: nat)
    requires n <= |amounts| && k < multiset(amounts[..n])[a]
    ensures j < n && amounts[j] == a && Rank(amounts, j) == k
  {
    CountStep(amounts, n - 1, a);
    if k < multiset(amounts[..n - 1])[a] {
      j := FindRank(amounts, n - 1, a, k);
    } else {
      j := n - 1;
    }
  }

  lemma {:induction false} CountGrows(amounts: seq<int>, i: nat, j: nat, a: int)
    requires i <= j <= |amounts|
    ensures multiset(amounts[..i])[a] <= multiset(amounts[..j])[a]
  {
    if i < j {
      CountGrows(amounts, i, j - 1, a);
      CountStep(amounts, j - 1, a);
    }
  }

  lemma RankBelowTotal(amounts: seq<int>, j: nat)
    requires j < |amounts|
    ensures Rank(amounts, j) < multiset(amounts)[amounts[j]]
  {
    CountStep(amounts, j, amounts[j]);
    CountGrows(amounts, j + 1, |amounts|, amounts[j]);
    assert amounts[..|amounts|] == amounts;
  }

  lemma SameRankSamePlace(amounts: seq<int>, i: nat, j: nat)
    requires i < |amounts| && j < |amounts| && amounts[i] == amounts[j] && Rank(amounts, i) == Rank(amounts, j)
    ensures i == j
  {
    if i < j {
      CountStep(amounts, i, amounts[i]);
      CountGrows(amounts, i + 1, j, amounts[i]);
    } else if j < i {
      CountStep(amounts, j, amounts[i]);
      CountGrows(amounts, j + 1, i, amounts[i]);
    }
  }

  lemma IntersectionStep(x: multiset<int>, y: multiset<int>, a: int)
    ensures |(x + multiset{a}) * y| == |x * y| + (if x[a] < y[a] then 1 else 0)
  {
    if x[a] < y[a] {
      assert (x + multiset{a}) * y == x * y + multiset{a};
    } else {
      assert (x + multiset{a}) * y == x * y;
    }
  }

  /** The places of the lines a queue of claims has used up: those ranked below the claims on their amount. */
  ghost predicate Spoken(queue: multiset<int>, amounts: seq<int>, j: nat)
    requires j < |amounts|
  {
    Rank(amounts, j) < queue[amounts[j]]
  }

  /** Taking the first free line of an amount takes the one whose rank is the number already taken. */
  lemma FirstFreeHasRank(amounts: seq<int>, queue: multiset<int>, a: int, j: nat)
    requires j <= |amounts|
    requires j < |amounts| ==> amounts[j] == a && !Spoken(queue, amounts, j)
    requires forall k :: 0 <= k < j ==> Spoken(queue, amounts, k) || amounts[k] != a
    ensures j < |amounts| ==> Rank(amounts, j) == queue[a]
    ensures j < |amounts| <==> queue[a] < multiset(amounts)[a]
  {
    assert amounts[..|amounts|] == amounts;
    if j < |amounts| {
      RankBelowTotal(amounts, j);
      if Rank(amounts, j) > queue[a] {
        var k := FindRank(amounts, j, a, queue[a]);
      }
    } else if queue[a] < multiset(amounts)[a] {
      var k := FindRank(amounts, |amounts|, a, queue[a]);
    }
  }

  /** Giving the line at `j` to the newest claim of amount `a` is what one more claim on `a` uses up. */
  lemma OneMoreSpoken(amounts: seq<int>, queue: multiset<int>, a: int, j: nat, k: nat)
    requires j <= |amounts| && k < |amounts|
    requires j < |amounts| ==> amounts[j] == a && Rank(amounts, j) == queue[a]
    requires j == |amounts| ==> multiset(amounts)[a] <= queue[a]
    ensures Spoken(queue + multiset{a}, amounts, k) <==> Spoken(queue, amounts, k) || k == j
  {
    RankBelowTotal(amounts, k);
    if j < |amounts| && amounts[k] == a && Rank(amounts, k) == queue[a] {
      SameRankSamePlace(amounts, j, k);
    }
  }

  // ---------- the list is a maximum matching ----------

  function Pick(amounts: seq<int>, places: seq<nat>): (r: seq<int>)
    requires forall m :: 0 <= m < |places| ==> places[m] < |amounts|
    ensures |r| == |places|
  {
    seq(|places|, m requires 0 <= m < |places| => amounts[places[m]])
  }

  /** Picking distinct places never picks an amount more often than it occurs. */
  lemma {:induction false} PickIsSubmultiset(amounts: seq<int>, places: seq<nat>)
    requires forall m :: 0 <= m < |places| ==> places[m] < |amounts|
    requires forall m, n :: 0 <= m < n < |places| ==> places[m] != places[n]
    ensures multiset(Pick(amounts, places)) <= multiset(amounts)
    decreases |amounts|
  {
    if amounts != [] {
      var last := |amounts| - 1;
      assert amounts == amounts[..last] + [amounts[last]];
      if m :| 0 <= m < |places| && places[m] == last {
        var others := places[..m] + places[m + 1..];
        PickIsSubmultiset(amounts[..last], others);
        var picked := Pick(amounts, places);
        assert picked == picked[..m] + [amounts[last]] + picked[m + 1..];
        assert Pick(amounts[..last], others) == picked[..m] + picked[m + 1..];
      } else {
        PickIsSubmultiset(amounts[..last], places);
        assert Pick(amounts[..last], places) == Pick(amounts, places);
      }
    }
  }

  lemma SubmultisetSize(a: multiset<int>, b: multiset<int>)
    requires a <= b
    ensures |a| <= |b|
  {
    assert b == a + (b - a);
  }

  /** No matching is larger than the amounts the two lists have in common. */
  lemma MatchingBound(claims: seq<int>, amounts: seq<int>, pairs: seq<Suggestion>)
    requires Matching(claims, amounts, pairs)
    ensures |pairs| <= |multiset(claims) * multiset(amounts)|
  {
    var submissions := seq(|pairs|, m requires 0 <= m < |pairs| => pairs[m].submission);
    var lines := seq(|pairs|, m requires 0 <= m < |pairs| => pairs[m].line);
    PickIsSubmultiset(claims, submissions);
    PickIsSubmultiset(amounts, lines);
    var common := Pick(claims, submissions);
    assert common == Pick(amounts, lines);
    SubmultisetSize(multiset(common), multiset(claims) * multiset(amounts));
  }

  /** The first-come-first-served pairs in any order form a matching. */
  lemma FifoIsMatching(claims: seq<int>, amounts: seq<int>, pairs: seq<Suggestion>)
    requires forall m :: 0 <= m < |pairs| ==> Fifo(claims, amounts, pairs[m])
    requires forall m, n :: 0 <= m < n < |pairs| ==> pairs[m] != pairs[n]
    ensures Matching(claims, amounts, pairs)
  {
    forall m, n | 0 <= m < n < |pairs|
      ensures pairs[m].submission != pairs[n].submission && pairs[m].line != pairs[n].line
    {
      if pairs[m].submission == pairs[n].submission {
        SameRankSamePlace(amounts, pairs[m].line, pairs[n].line);
      } else if pairs[m].line == pairs[n].line {
        SameRankSamePlace(claims, pairs[m].submission, pairs[n].submission);
      }
    }
  }

  /** The first-come-first-served pairs of the first `i` submissions, oldest submission first. */
  ghost predicate Listed(claims: seq<int>, amounts: seq<int>, i: nat, suggestions: seq<Suggestion>)
  {
    && (forall m :: 0 <= m < |suggestions| ==>
          Fifo(claims, amounts, suggestions[m]) && suggestions[m].submission < i)
    && (forall s :: Fifo(claims, amounts, s) && s.submission < i ==> s in suggestions)
    && (forall m, n :: 0 <= m < n < |suggestions| ==> suggestions[m].submission < suggestions[n].submission)
  }

  lemma FifoLine(claims: seq<int>, amounts: seq<int>, i: nat, j: nat, s: Suggestion)
    requires i < |claims| && j <= |amounts|
    requires j < |amounts| ==> Fifo(claims, amounts, Suggestion(i, j))
    requires j == |amounts| ==> multiset(amounts)[claims[i]] <= Rank(claims, i)
    requires Fifo(claims, amounts, s) && s.submission == i
    ensures j < |amounts| && s == Suggestion(i, j)
  {
    RankBelowTotal(amounts, s.line);
    if j < |amounts| {
      SameRankSamePlace(amounts, s.line, j);
    }
  }

  lemma PairListed(claims: seq<int>, amounts: seq<int>, i: nat, j: nat, before: seq<Suggestion>, s: Suggestion)
    requires i < |claims| && j <= |amounts| && Listed(claims, amounts, i, before)
    requires j < |amounts| ==> Fifo(claims, amounts, Suggestion(i, j))
    requires j == |amounts| ==> multiset(amounts)[claims[i]] <= Rank(claims, i)
    requires Fifo(claims, amounts, s) && s.submission < i + 1
    ensures s in before || (j < |amounts| && s == Suggestion(i, j))
  {
    if s.submission == i {
      FifoLine(claims, amounts, i, j, s);
    }
  }

  lemma ListNext(claims: seq<int>, amounts: seq<int>, i: nat, j: nat, before: seq<Suggestion>, after: seq<Suggestion>)
    requires i < |claims| && j <= |amounts| && Listed(claims, amounts, i, before)
    requires j < |amounts| ==> Fifo(claims, amounts, Suggestion(i, j))
    requires j == |amounts| ==> multiset(amounts)[claims[i]] <= Rank(claims, i)
    requires after == if j < |amounts| then before + [Suggestion(i, j)] else before
    ensures Listed(claims, amounts, i + 1, after)
  {
    forall s | Fifo(claims, amounts, s) && s.submission < i + 1
      ensures s in after
    {
      PairListed(claims, amounts, i, j, before, s);
      if j < |amounts| {
        assert after[|before|] == Suggestion(i, j);
      }
    }
    forall m | 0 <= m < |after|
      ensures Fifo(claims, amounts, after[m]) && after[m].submission < i + 1
    {
      assert m < |before| ==> after[m] == before[m];
    }
  }

  /** What a list of pairs leaves over. */
  ghost predicate Unpaired(pairs: seq<Suggestion>, submission: nat, line: nat)
  {
    && (forall m :: 0 <= m < |pairs| ==> pairs[m].submission != submission)
    && (forall m :: 0 <= m < |pairs| ==> pairs[m].line != line)
  }

  /** Nothing is left over on both sides of one amount. */
  lemma OneSideIsServed(claims: seq<int>, amounts: seq<int>, pairs: seq<Suggestion>, i: nat, j: nat)
    requires Listed(claims, amounts, |claims|, pairs)
    requires i < |claims| && j < |amounts| && claims[i] == amounts[j]
    ensures !Unpaired(pairs, i, j)
  {
    var a, x, y := claims[i], Rank(claims, i), Rank(amounts, j);
    RankBelowTotal(claims, i);
    RankBelowTotal(amounts, j);
    assert claims[..|claims|] == claims && amounts[..|amounts|] == amounts;
    if x <= y {
      var l := FindRank(amounts, |amounts|, a, x);
      assert Fifo(claims, amounts, Suggestion(i, l));
    } else {
      var p := FindRank(claims, |claims|, a, y);
      assert Fifo(claims, amounts, Suggestion(p, j));
    }
  }

  lemma {:induction false} RankGrows(amounts: seq<int>, i: nat, j: nat)
    requires i < j < |amounts| && amounts[i] == amounts[j]
    ensures Rank(amounts, i) < Rank(amounts, j)
  {
    CountStep(amounts, i, amounts[i]);
    CountGrows(amounts, i + 1, j, amounts[i]);
  }

  /** Of two submissions of one amount the older is served first, and gets the older line. */
  lemma OlderServedFirst(claims: seq<int>, amounts: seq<int>, pairs: seq<Suggestion>, i: nat, n: nat) returns (m: nat)
    requires Listed(claims, amounts, |claims|, pairs)
    requires n < |pairs| && i < pairs[n].submission && claims[i] == claims[pairs[n].submission]
    ensures m < |pairs| && pairs[m].submission == i && pairs[m].line < pairs[n].line
  {
    var a, later := claims[i], pairs[n];
    assert Fifo(claims, amounts, later);
    RankGrows(claims, i, later.submission);
    RankBelowTotal(amounts, later.line);
    assert amounts[..|amounts|] == amounts;
    var l := FindRank(amounts, |amounts|, a, Rank(claims, i));
    assert Fifo(claims, amounts, Suggestion(i, l)) && Suggestion(i, l) in pairs;
    m :| 0 <= m < |pairs| && pairs[m] == Suggestion(i, l);
    if later.line < l {
      RankGrows(amounts, later.line, l);
    }
  }

  /** The ids spoken for are those of the lines the queue has used up. */
  ghost predicate SpokenIds(lines: seq<Line>, queue: multiset<int>, spokenFor: set<nat>)
  {
    forall k :: 0 <= k < |lines| ==> (lines[k].id in spokenFor <==> Spoken(queue, Amounts(lines), k))
  }

  lemma SpeakNext(lines: seq<Line>, queue: multiset<int>, a: int, j: nat, spokenFor: set<nat>)
    requires DistinctIds(lines) && SpokenIds(lines, queue, spokenFor) && j <= |lines|
    requires j < |lines| ==> lines[j].amount == a && Rank(Amounts(lines), j) == queue[a]
    requires j == |lines| ==> multiset(Amounts(lines))[a] <= queue[a]
    ensures SpokenIds(lines, queue + multiset{a}, if j < |lines| then spokenFor + {lines[j].id} else spokenFor)
  {
    forall k | 0 <= k < |lines|
      ensures Spoken(queue + multiset{a}, Amounts(lines), k) <==> Spoken(queue, Amounts(lines), k) || k == j
    {
      OneMoreSpoken(Amounts(lines), queue, a, j, k);
    }
  }

  /** The lines before `j` are spoken for or of another amount, and the one there is not. */
  ghost predicate FirstFree(lines: seq<Line>, spokenFor: set<nat>, amount: int, j: nat)
  {
    && j <= |lines|
    && (j < |lines| ==> lines[j].id !in spokenFor && lines[j].amount == amount)
    && forall k :: 0 <= k < j ==> lines[k].id in spokenFor || lines[k].amount != amount
  }

  lemma FirstFreeLine(lines: seq<Line>, spokenFor: set<nat>, amount: int, queue: multiset<int>, j: nat)
    requires SpokenIds(lines, queue, spokenFor) && FirstFree(lines, spokenFor, amount, j)
    ensures j < |lines| ==> Rank(Amounts(lines), j) == queue[amount]
    ensures j < |lines| <==> queue[amount] < multiset(Amounts(lines))[amount]
  {
    var amounts := Amounts(lines);
    forall k | 0 <= k < j
      ensures Spoken(queue, amounts, k) || amounts[k] != amount
    {
      assert lines[k].id in spokenFor || lines[k].amount != amount;
    }
    FirstFreeHasRank(amounts, queue, amount, j);
  }

  /** The first line of this amount not spoken for, or the end of the list when there is none. */
  method FindLine(lines: seq<Line>, spokenFor: set<nat>, amount: int, ghost queue: multiset<int>) returns (j: nat)
    requires SpokenIds(lines, queue, spokenFor)
    ensures j <= |lines|
    ensures j < |lines| ==> lines[j].amount == amount && Rank(Amounts(lines), j) == queue[amount]
    ensures j < |lines| <==> queue[amount] < multiset(Amounts(lines))[amount]
  {
    j := 0;
    while j < |lines| && !(lines[j].id !in spokenFor && lines[j].amount == amount)
      invariant j <= |lines|
      invariant forall k :: 0 <= k < j ==> lines[k].id in spokenFor || lines[k].amount != amount
    {
      j := j + 1;
    }
    FirstFreeLine(lines, spokenFor, amount, queue, j);
  }

  lemma ListedIsMaximum(claims: seq<int>, amounts: seq<int>, suggestions: seq<Suggestion>)
    requires Listed(claims, amounts, |claims|, suggestions)
    requires |suggestions| == |multiset(claims) * multiset(amounts)|
    ensures Matching(claims, amounts, suggestions)
    ensures forall rival :: Matching(claims, amounts, rival) ==> |rival| <= |suggestions|
  {
    FifoIsMatching(claims, amounts, suggestions);
    forall rival | Matching(claims, amounts, rival)
      ensures |rival| <= |suggestions|
    {
      MatchingBound(claims, amounts, rival);
    }
  }

  /** What the loop has done for the `i` oldest submissions. */
  ghost predicate Progress(pending: seq<Submission>, lines: seq<Line>, i: nat,
                           suggestions: seq<Suggestion>, spokenFor: set<nat>)
    requires i <= |pending|
  {
    && Listed(Claims(pending), Amounts(lines), i, suggestions)
    && |suggestions| == |multiset(Claims(pending)[..i]) * multiset(Amounts(lines))|
    && SpokenIds(lines, multiset(Claims(pending)[..i]), spokenFor)
  }

  lemma NextClaim(claims: seq<int>, amounts: seq<int>, i: nat)
    requires i < |claims|
    ensures var queue, amount := multiset(claims[..i]), claims[i];
      && multiset(claims[..i + 1]) == queue + multiset{amount}
      && |multiset(claims[..i + 1]) * multiset(amounts)|
           == |queue * multiset(amounts)| + (if queue[amount] < multiset(amounts)[amount] then 1 else 0)
  {
    assert claims[..i + 1] == claims[..i] + [claims[i]];
    IntersectionStep(multiset(claims[..i]), multiset(amounts), claims[i]);
  }

  lemma Advance(pending: seq<Submission>, lines: seq<Line>, i: nat, j: nat,
                suggestions: seq<Suggestion>, spokenFor: set<nat>)
    requires DistinctIds(lines) && i < |pending| && j <= |lines|
    requires Progress(pending, lines, i, suggestions, spokenFor)
    requires var queue, amount := multiset(Claims(pending)[..i]), pending[i].amountClaimed;
      && (j < |lines| ==> lines[j].amount == amount && Rank(Amounts(lines), j) == queue[amount])
      && (j < |lines| <==> queue[amount] < multiset(Amounts(lines))[amount])
    ensures if j < |lines|
            then Progress(pending, lines, i + 1, suggestions + [Suggestion(i, j)], spokenFor + {lines[j].id})
            else Progress(pending, lines, i + 1, suggestions, spokenFor)
  {
    var claims, amounts := Claims(pending), Amounts(lines);
    var amount, queue := claims[i], multiset(claims[..i]);
    NextClaim(claims, amounts, i);
    SpeakNext(lines, queue, amount, j, spokenFor);
    ListNext(claims, amounts, i, j, suggestions,
             if j < |lines| then suggestions + [Suggestion(i, j)] else suggestions);
  }

  /**
   * The suggestions are exactly the first-come-first-served pairs, oldest submission first. They
   * form a matching no rival matching is larger than, and there are as many as the two lists have
   * amounts in common, counted with multiplicity.
   */
  method SuggestMatches(pending: seq<Submission>, lines: seq<Line>) returns (suggestions: seq<Suggestion>)
    requires DistinctIds(lines)
    ensures Listed(Claims(pending), Amounts(lines), |pending|, suggestions)
    ensures |suggestions| == |multiset(Claims(pending)) * multiset(Amounts(lines))|
    ensures Matching(Claims(pending), Amounts(lines), suggestions)
    ensures forall rival :: Matching(Claims(pending), Amounts(lines), rival) ==> |rival| <= |suggestions|
    ensures forall m :: 0 <= m < |suggestions| ==>
      pending[suggestions[m].submission].amountClaimed == lines[suggestions[m].line].amount
    ensures forall i, j :: 0 <= i < |pending| && 0 <= j < |lines| && Unpaired(suggestions, i, j) ==>
      pending[i].amountClaimed != lines[j].amount
  {
    var spokenFor: set<nat> := {};
    suggestions := [];
    assert Claims(pending)[..0] == [];
    for i := 0 to |pending|
      invariant Progress(pending, lines, i, suggestions, spokenFor)
    {
      var j := FindLine(lines, spokenFor, pending[i].amountClaimed, multiset(Claims(pending)[..i]));
      Advance(pending, lines, i, j, suggestions, spokenFor);
      if j < |lines| {
        spokenFor := spokenFor + {lines[j].id};
        suggestions := suggestions + [Suggestion(i, j)];
      }
    }
    assert Claims(pending)[..|pending|] == Claims(pending);
    ListedIsMaximum(Claims(pending), Amounts(lines), suggestions);
    forall i, j | 0 <= i < |pending| && 0 <= j < |lines| && pending[i].amountClaimed == lines[j].amount
      ensures !Unpaired(suggestions, i, j)
    {
      OneSideIsServed(Claims(pending), Amounts(lines), suggestions, i, j);
    }
  }
}
