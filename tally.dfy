/**
 * Counting texts in a hash, as the nationality distribution and the prediction's
 * winner list do: a text seen for the first time is inserted with 1, a text seen
 * again has its count raised by one.
 */
module Tallies {

  /** The count of every text of the list. */
  function Tally(xs: seq<string>): map<string, nat>
    decreases |xs|
  {
    if xs == [] then map[]
    else
      var counts := Tally(xs[..|xs| - 1]);
      var x := xs[|xs| - 1];
      counts[x := if x in counts then counts[x] + 1 else 1]
  }

  /** Counting one text more: a new text enters with 1, a known one goes up by one. */
  lemma TallyAppend(xs: seq<string>, x: string)
    ensures Tally(xs + [x]) == Tally(xs)[x := if x in Tally(xs) then Tally(xs)[x] + 1 else 1]
  {
    assert (xs + [x])[..|xs|] == xs;
  }

  /** How often a text occurs in a list. */
  function Occurrences(xs: seq<string>, x: string): nat
    decreases |xs|
  {
    if xs == [] then 0
    else Occurrences(xs[..|xs| - 1], x) + (if xs[|xs| - 1] == x then 1 else 0)
  }

  /** The tally has a count for exactly the texts of the list, and that count is its number of occurrences. */
  lemma {:induction false} TallyCounts(xs: seq<string>)
    ensures forall x :: x in Tally(xs) <==> x in xs
    ensures forall x :: x in Tally(xs) ==> Tally(xs)[x] == Occurrences(xs, x)
    decreases |xs|
  {
    if xs != [] {
      var front := xs[..|xs| - 1];
      TallyCounts(front);
      assert xs == front + [xs[|xs| - 1]];
      forall x | x !in front ensures Occurrences(front, x) == 0 {
        OccurrencesOfAbsent(front, x);
      }
    }
  }

  lemma {:induction false} OccurrencesOfAbsent(xs: seq<string>, x: string)
    requires x !in xs
    ensures Occurrences(xs, x) == 0
    decreases |xs|
  {
    if xs != [] {
      OccurrencesOfAbsent(xs[..|xs| - 1], x);
    }
  }

  // ---------------------------------------------------------------------------
  // Sums of the counts

  /** ks lists each element of s exactly once. */
  ghost predicate Enumerates(ks: seq<string>, s: set<string>)
  {
    (forall i, j :: 0 <= i < j < |ks| ==> ks[i] != ks[j]) && (forall x :: x in ks <==> x in s)
  }

  /** The sum of the counts of the listed texts. */
  function SumOver(counts: map<string, nat>, ks: seq<string>): nat
    requires forall i :: 0 <= i < |ks| ==> ks[i] in counts
    decreases |ks|
  {
    if ks == [] then 0 else SumOver(counts, ks[..|ks| - 1]) + counts[ks[|ks| - 1]]
  }

  /** Sums agree for maps that agree on the listed texts. */
  lemma {:induction false} SumOverAgree(a: map<string, nat>, b: map<string, nat>, ks: seq<string>)
    requires forall i :: 0 <= i < |ks| ==> ks[i] in a && ks[i] in b && a[ks[i]] == b[ks[i]]
    ensures SumOver(a, ks) == SumOver(b, ks)
    decreases |ks|
  {
    if ks != [] {
      SumOverAgree(a, b, ks[..|ks| - 1]);
    }
  }

  /** The listing without its i-th text. */
  function Without(ks: seq<string>, i: nat): (rest: seq<string>)
    requires i < |ks|
    ensures |rest| == |ks| - 1
    ensures forall j :: 0 <= j < |rest| ==> rest[j] == ks[if j < i then j else j + 1]
  {
    ks[..i] + ks[i + 1..]
  }

  /** Taking one listed text out of the sum. */
  lemma {:induction false} SumOverRemove(counts: map<string, nat>, ks: seq<string>, i: nat)
    requires i < |ks|
    requires forall j :: 0 <= j < |ks| ==> ks[j] in counts
    ensures forall j :: 0 <= j < |Without(ks, i)| ==> Without(ks, i)[j] in counts
    ensures SumOver(counts, ks) == SumOver(counts, Without(ks, i)) + counts[ks[i]]
    decreases |ks|
  {
    var rest := Without(ks, i);
    if i < |ks| - 1 {
      var front := ks[..|ks| - 1];
      SumOverRemove(counts, front, i);
      assert Without(front, i) == rest[..|rest| - 1];
    } else {
      assert rest == ks[..|ks| - 1];
    }
  }

  /** Leaving out one text of a listing lists the rest of the set. */
  lemma EnumeratesWithout(ks: seq<string>, s: set<string>, i: nat)
    requires i < |ks| && Enumerates(ks, s)
    ensures Enumerates(Without(ks, i), s - {ks[i]})
  {
    var rest := Without(ks, i);
    forall y | y in s - {ks[i]} ensures y in rest {
      var j :| 0 <= j < |ks| && ks[j] == y;
      if j < i { assert rest[j] == y; } else { assert rest[j - 1] == y; }
    }
  }

  /** Raising the count of a text listed once raises the sum by one. */
  lemma {:induction false} SumOverIncrement(counts: map<string, nat>, ks: seq<string>, x: string)
    requires x in counts
    requires forall i :: 0 <= i < |ks| ==> ks[i] in counts
    requires forall i, j :: 0 <= i < j < |ks| ==> ks[i] != ks[j]
    requires x in ks
    ensures SumOver(counts[x := counts[x] + 1], ks) == SumOver(counts, ks) + 1
    decreases |ks|
  {
    var bumped := counts[x := counts[x] + 1];
    var front := ks[..|ks| - 1];
    if ks[|ks| - 1] == x {
      assert x !in front;
      SumOverAgree(bumped, counts, front);
    } else {
      assert x in front;
      SumOverIncrement(counts, front, x);
    }
  }

  /**
   * A listing that is not empty lists its first element. Stated without a requires so
   * that the empty-list case of TallySum can use it without opening an impossible branch.
   */
  lemma FirstListed(ks: seq<string>)
    ensures ks != [] ==> ks[0] in ks
  {
  }

  /** The counts of a tally add up to the length of the list, in any listing of the texts. */
  lemma {:induction false} TallySum(xs: seq<string>, ks: seq<string>)
    requires Enumerates(ks, Tally(xs).Keys)
    ensures SumOver(Tally(xs), ks) == |xs|
    decreases |xs|
  {
    if xs == [] {
      FirstListed(ks);
    } else {
      var front := xs[..|xs| - 1];
      var x := xs[|xs| - 1];
      var counts := Tally(front);
      if x in counts {
        assert Tally(xs).Keys == counts.Keys;
        TallySum(front, ks);
        SumOverIncrement(counts, ks, x);
      } else {
        assert x in ks;
        var i :| 0 <= i < |ks| && ks[i] == x;
        var rest := Without(ks, i);
        SumOverRemove(Tally(xs), ks, i);
        EnumeratesWithout(ks, Tally(xs).Keys, i);
        assert Tally(xs).Keys - {x} == counts.Keys;
        TallySum(front, rest);
        SumOverAgree(Tally(xs), counts, rest);
      }
    }
  }
}
