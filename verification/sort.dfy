/** A stable ascending sort of scored values by score, and the fact that a
    stable sort's output is determined by its input. */
module ScoreSort {

  /** A candidate value paired with its constraint score. */
  datatype Scored = Scored(value: int, score: nat)

  predicate SortedByScore(s: seq<Scored>)
  {
    forall i, j :: 0 <= i < j < |s| ==> s[i].score <= s[j].score
  }

  /** The elements of s whose score is k, in their order in s. */
  function WithScore(s: seq<Scored>, k: nat): seq<Scored>
    decreases |s|
  {
    if |s| == 0 then []
    else WithScore(s[..|s| - 1], k) + (if s[|s| - 1].score == k then [s[|s| - 1]] else [])
  }

  lemma WithScoreSingleton(x: Scored, k: nat)
    ensures WithScore([x], k) == (if x.score == k then [x] else [])
  {
    assert [x][..0] == [];
  }

  lemma SortedSnoc(a: seq<Scored>, y: Scored)
    requires SortedByScore(a)
    requires forall i :: 0 <= i < |a| ==> a[i].score <= y.score
    ensures SortedByScore(a + [y])
  {
  }

  lemma SortedFront(s: seq<Scored>)
    requires SortedByScore(s) && |s| > 0
    ensures SortedByScore(s[..|s| - 1])
  {
    var front := s[..|s| - 1];
    forall i, j | 0 <= i < j < |front| ensures front[i].score <= front[j].score {
      assert front[i] == s[i] && front[j] == s[j];
    }
  }

  /** Inserts x into a sequence after its longest suffix of elements whose
      scores are above x's; in a sorted sequence that is after every element
      whose score is at most x's. */
  function Insert(x: Scored, s: seq<Scored>): (r: seq<Scored>)
    decreases |s|
    ensures |r| == |s| + 1
    ensures r[|r| - 1] == x || (|s| > 0 && r[|r| - 1] == s[|s| - 1])
  {
    if |s| == 0 then [x]
    else if x.score < s[|s| - 1].score then Insert(x, s[..|s| - 1]) + [s[|s| - 1]]
    else s + [x]
  }

  /** Inserting into a sorted sequence keeps it sorted. */
  lemma {:induction false} InsertSorted(x: Scored, s: seq<Scored>)
    requires SortedByScore(s)
    ensures SortedByScore(Insert(x, s))
    decreases |s|
  {
    if |s| > 0 && x.score < s[|s| - 1].score {
      var front, last := s[..|s| - 1], s[|s| - 1];
      SortedFront(s);
      InsertSorted(x, front);
      var ins := Insert(x, front);
      assert forall i :: 0 <= i < |ins| ==> ins[i].score <= last.score by {
        forall i | 0 <= i < |ins| ensures ins[i].score <= last.score {
          assert ins[i].score <= ins[|ins| - 1].score;
        }
      }
      SortedSnoc(ins, last);
    } else if |s| > 0 {
      SortedSnoc(s, x);
    }
  }

  /** Insert adds exactly x to the elements. */
  lemma {:induction false} InsertMultiset(x: Scored, s: seq<Scored>)
    ensures multiset(Insert(x, s)) == multiset(s) + multiset{x}
    decreases |s|
  {
    if |s| > 0 && x.score < s[|s| - 1].score {
      var front, last := s[..|s| - 1], s[|s| - 1];
      InsertMultiset(x, front);
      assert s == front + [last];
    }
  }

  lemma WithScoreAddLast(a: seq<Scored>, y: Scored, k: nat)
    ensures WithScore(a + [y], k) == WithScore(a, k) + (if y.score == k then [y] else [])
  {
    assert (a + [y])[..|a|] == a;
  }

  /** Insert places x after the elements of its own score: the elements of
      each score keep their order, with x last among its own. */
  lemma {:induction false} InsertWithScore(x: Scored, s: seq<Scored>, k: nat)
    ensures WithScore(Insert(x, s), k) == WithScore(s, k) + (if x.score == k then [x] else [])
    decreases |s|
  {
    if |s| == 0 {
      WithScoreSingleton(x, k);
    } else if x.score < s[|s| - 1].score {
      var front, last := s[..|s| - 1], s[|s| - 1];
      InsertWithScore(x, front, k);
      WithScoreAddLast(Insert(x, front), last, k);
      assert s == front + [last];
      WithScoreAddLast(front, last, k);
      var wf := WithScore(front, k);
      if x.score == k {
        assert WithScore(Insert(x, s), k) == wf + [x];
        assert WithScore(s, k) == wf;
      } else {
        var ls := if last.score == k then [last] else [];
        assert WithScore(Insert(x, s), k) == wf + ls;
        assert WithScore(s, k) == wf + ls;
      }
    } else {
      WithScoreAddLast(s, x, k);
    }
  }

  /** Insertion sort, taking the input from the front. */
  function SortByScore(s: seq<Scored>): (r: seq<Scored>)
    decreases |s|
    ensures SortedByScore(r)
    ensures multiset(r) == multiset(s)
  {
    if |s| == 0 then []
    else
      var front := s[..|s| - 1];
      assert s == front + [s[|s| - 1]];
      InsertSorted(s[|s| - 1], SortByScore(front));
      InsertMultiset(s[|s| - 1], SortByScore(front));
      Insert(s[|s| - 1], SortByScore(front))
  }

  /** The sort is stable: the elements of each score appear in input order. */
  lemma {:induction false} SortByScoreStable(s: seq<Scored>, k: nat)
    ensures WithScore(SortByScore(s), k) == WithScore(s, k)
    decreases |s|
  {
    if |s| > 0 {
      var front := s[..|s| - 1];
      SortByScoreStable(front, k);
      InsertWithScore(s[|s| - 1], SortByScore(front), k);
    }
  }

  lemma LastScorePresent(s: seq<Scored>)
    requires |s| > 0
    ensures WithScore(s, s[|s| - 1].score) != []
  {
  }

  lemma {:induction false} WithScoreOfAbsent(s: seq<Scored>, k: nat)
    requires forall i :: 0 <= i < |s| ==> s[i].score != k
    ensures WithScore(s, k) == []
    decreases |s|
  {
    if |s| > 0 {
      WithScoreOfAbsent(s[..|s| - 1], k);
    }
  }

  lemma WithScoreSnoc(s: seq<Scored>, k: nat)
    requires |s| > 0
    ensures WithScore(s, k) == WithScore(s[..|s| - 1], k) + (if s[|s| - 1].score == k then [s[|s| - 1]] else [])
  {
  }

  /** In a sorted nonempty sequence no element has a score above the last one's. */
  lemma AboveLastAbsent(s: seq<Scored>, k: nat)
    requires SortedByScore(s) && |s| > 0 && s[|s| - 1].score < k
    ensures WithScore(s, k) == []
  {
    assert forall i :: 0 <= i < |s| ==> s[i].score <= s[|s| - 1].score;
    WithScoreOfAbsent(s, k);
  }

  /** Two nonempty sorted sequences with the same elements of each score end alike. */
  lemma SameLast(a: seq<Scored>, b: seq<Scored>)
    requires SortedByScore(a) && SortedByScore(b) && |a| > 0 && |b| > 0
    requires forall k :: WithScore(a, k) == WithScore(b, k)
    ensures a[|a| - 1] == b[|b| - 1]
  {
    var la, lb := a[|a| - 1], b[|b| - 1];
    SameLastScore(a, b);
    var k := la.score;
    WithScoreSnoc(a, k);
    WithScoreSnoc(b, k);
    var wa := WithScore(a, k);
    var wb := WithScore(b, k);
    assert wa == wb;
    assert wa[|wa| - 1] == la && wb[|wb| - 1] == lb;
  }

  /** Two nonempty sorted sequences with the same elements of each score end
      on the same score. */
  lemma SameLastScore(a: seq<Scored>, b: seq<Scored>)
    requires SortedByScore(a) && SortedByScore(b) && |a| > 0 && |b| > 0
    requires forall k :: WithScore(a, k) == WithScore(b, k)
    ensures a[|a| - 1].score == b[|b| - 1].score
  {
    var la, lb := a[|a| - 1], b[|b| - 1];
    if la.score < lb.score {
      LastScorePresent(b);
      AboveLastAbsent(a, lb.score);
      assert false;
    } else if lb.score < la.score {
      LastScorePresent(a);
      AboveLastAbsent(b, la.score);
      assert false;
    }
  }

  /** Dropping the common last element keeps the elements of each score equal. */
  lemma SameFronts(a: seq<Scored>, b: seq<Scored>, k: nat)
    requires |a| > 0 && |b| > 0 && a[|a| - 1] == b[|b| - 1]
    requires WithScore(a, k) == WithScore(b, k)
    ensures WithScore(a[..|a| - 1], k) == WithScore(b[..|b| - 1], k)
  {
    var last := a[|a| - 1];
    var wa := WithScore(a[..|a| - 1], k);
    var wb := WithScore(b[..|b| - 1], k);
    var tail := if last.score == k then [last] else [];
    assert WithScore(a, k) == wa + tail;
    assert WithScore(b, k) == wb + tail;
    SnocCancel(wa, wb, tail);
  }

  lemma SnocCancel(x: seq<Scored>, y: seq<Scored>, t: seq<Scored>)
    requires x + t == y + t
    ensures x == y
  {
    assert |x| == |y|;
    forall i | 0 <= i < |x| ensures x[i] == y[i] {
      assert x[i] == (x + t)[i] && y[i] == (y + t)[i];
    }
  }

  /** Two sequences that are both sorted by score and agree on the elements of
      every score, in order, are equal: the stable sort of an input is unique. */
  lemma {:induction false} StableSortUnique(a: seq<Scored>, b: seq<Scored>)
    requires SortedByScore(a) && SortedByScore(b)
    requires forall k :: WithScore(a, k) == WithScore(b, k)
    ensures a == b
    decreases |a| + |b|
  {
    if |a| == 0 {
      OnlyEmptyMatchesEmpty(a, b);
    } else if |b| == 0 {
      OnlyEmptyMatchesEmpty(b, a);
    } else {
      var fa, fb := a[..|a| - 1], b[..|b| - 1];
      FrontsAgree(a, b, fa, fb);
      StableSortUnique(fa, fb);
      assert a == fa + [a[|a| - 1]] && b == fb + [b[|b| - 1]];
    }
  }

  /** Only the empty sequence has no element of any score. */
  lemma OnlyEmptyMatchesEmpty(a: seq<Scored>, b: seq<Scored>)
    requires |a| == 0 && forall k :: WithScore(a, k) == WithScore(b, k)
    ensures |b| == 0
  {
    if |b| > 0 {
      LastScorePresent(b);
      assert WithScore(a, b[|b| - 1].score) == [];
      assert false;
    }
  }

  /** Two nonempty sequences as in StableSortUnique end alike, and their
      fronts again satisfy its premises. */
  lemma FrontsAgree(a: seq<Scored>, b: seq<Scored>, fa: seq<Scored>, fb: seq<Scored>)
    requires SortedByScore(a) && SortedByScore(b) && |a| > 0 && |b| > 0
    requires forall k :: WithScore(a, k) == WithScore(b, k)
    requires fa == a[..|a| - 1] && fb == b[..|b| - 1]
    ensures a[|a| - 1] == b[|b| - 1]
    ensures SortedByScore(fa) && SortedByScore(fb)
    ensures forall k :: WithScore(fa, k) == WithScore(fb, k)
  {
    SameLast(a, b);
    forall k
      ensures WithScore(fa, k) == WithScore(fb, k)
    {
      SameFronts(a, b, k);
    }
    SortedFront(a);
    SortedFront(b);
  }
}
