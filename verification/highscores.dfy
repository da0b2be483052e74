/**
 * The high-score table (`HighScoreManager.add_score`): append an entry, sort
 * by score from highest to lowest keeping the order of equal scores, and keep
 * the first ten.
 */
module HighScores {
  import opened Common

  /** One table entry: the score, the player's name and the day it was set. */
  datatype ScoreEntry = ScoreEntry(score: int, name: string, date: string)

  /** How many entries the table keeps. */
  const MaxEntries: nat := 10

  /** Scores never increase along the table. */
  predicate SortedDesc(s: seq<ScoreEntry>)
  {
    forall i, j | 0 <= i < j < |s| :: s[i].score >= s[j].score
  }

  /** The entries scoring exactly `v`, in table order. */
  function WithScore(s: seq<ScoreEntry>, v: int): (r: seq<ScoreEntry>)
    ensures |r| <= |s|
  {
    if s == [] then []
    else WithScore(s[..|s| - 1], v) + (if s[|s| - 1].score == v then [s[|s| - 1]] else [])
  }

  /** How many entries score at least `v`. */
  function CountAtLeast(s: seq<ScoreEntry>, v: int): (n: nat)
    ensures n <= |s|
  {
    if s == [] then 0
    else CountAtLeast(s[..|s| - 1], v) + (if s[|s| - 1].score >= v then 1 else 0)
  }

  /** Appending an entry that scores no more than the last one keeps a table in order. */
  lemma AppendSorted(s: seq<ScoreEntry>, e: ScoreEntry)
    requires SortedDesc(s) && s != [] && s[|s| - 1].score >= e.score
    ensures SortedDesc(s + [e])
  {
    forall i, j | 0 <= i < j < |s| + 1
      ensures (s + [e])[i].score >= (s + [e])[j].score
    {
      if j == |s| {
        assert (s + [e])[i].score >= s[|s| - 1].score;
      }
    }
  }

  /** Appending an entry that scores no more than any entry keeps a table in order. */
  lemma AppendLowest(r: seq<ScoreEntry>, last: ScoreEntry)
    requires SortedDesc(r)
    requires forall k | 0 <= k < |r| :: r[k].score >= last.score
    ensures SortedDesc(r + [last])
  {
  }

  /**
   * Insert `e` into a table just after the last entry that scores at least
   * as much: the insertion step of a stable sort from highest to lowest.
   */
  function InsertDesc(s: seq<ScoreEntry>, e: ScoreEntry): (r: seq<ScoreEntry>)
    ensures |r| == |s| + 1
  {
    if s == [] then [e]
    else if s[|s| - 1].score >= e.score then s + [e]
    else InsertDesc(s[..|s| - 1], e) + [s[|s| - 1]]
  }

  /** Inserting adds `e` and keeps every entry. */
  lemma {:induction false} InsertPerm(s: seq<ScoreEntry>, e: ScoreEntry)
    ensures multiset(InsertDesc(s, e)) == multiset(s) + multiset{e}
    decreases |s|
  {
    if s != [] && s[|s| - 1].score < e.score {
      var init, last := s[..|s| - 1], s[|s| - 1];
      assert s == init + [last];
      InsertPerm(init, e);
    }
  }

  /** Inserting into a table in order keeps it in order. */
  lemma {:induction false} InsertSorted(s: seq<ScoreEntry>, e: ScoreEntry)
    requires SortedDesc(s)
    ensures SortedDesc(InsertDesc(s, e))
    decreases |s|
  {
    if s != [] {
      if s[|s| - 1].score >= e.score {
        AppendSorted(s, e);
      } else {
        var init, last := s[..|s| - 1], s[|s| - 1];
        assert s == init + [last];
        assert SortedDesc(init);
        InsertSorted(init, e);
        InsertPerm(init, e);
        var r' := InsertDesc(init, e);
        forall k | 0 <= k < |r'|
          ensures r'[k].score >= last.score
        {
          assert r'[k] in multiset(r');
          if r'[k] != e {
            assert r'[k] in multiset(init);
            var i :| 0 <= i < |init| && init[i] == r'[k];
            assert s[i] == init[i];
          }
        }
        AppendLowest(r', last);
      }
    }
  }

  /**
   * The table sorted from highest to lowest score with equal scores left in
   * their original order, as Python's stable `sort(reverse=True)` leaves them.
   */
  function SortDesc(s: seq<ScoreEntry>): (r: seq<ScoreEntry>)
    ensures |r| == |s|
    ensures multiset(r) == multiset(s)
    ensures SortedDesc(r)
  {
    if s == [] then []
    else
      var init, last := s[..|s| - 1], s[|s| - 1];
      assert s == init + [last];
      var r' := SortDesc(init);
      InsertPerm(r', last);
      InsertSorted(r', last);
      InsertDesc(r', last)
  }

  lemma WithScoreAppend(s: seq<ScoreEntry>, e: ScoreEntry, v: int)
    ensures WithScore(s + [e], v) == WithScore(s, v) + (if e.score == v then [e] else [])
  {
    assert (s + [e])[..|s + [e]| - 1] == s;
  }

  /** Inserting into a sorted table puts `e` after every entry of its own score. */
  lemma {:induction false} InsertKeepsOrder(s: seq<ScoreEntry>, e: ScoreEntry, v: int)
    requires SortedDesc(s)
    ensures WithScore(InsertDesc(s, e), v) == WithScore(s, v) + (if e.score == v then [e] else [])
    decreases |s|
  {
    if s == [] {
      WithScoreAppend([], e, v);
    } else if s[|s| - 1].score >= e.score {
      WithScoreAppend(s, e, v);
    } else {
      var init, last := s[..|s| - 1], s[|s| - 1];
      assert s == init + [last];
      assert SortedDesc(init);
      InsertKeepsOrder(init, e, v);
      WithScoreAppend(InsertDesc(init, e), last, v);
      WithScoreAppend(init, last, v);
    }
  }

  /** The sort is stable: the entries of any one score keep their relative order. */
  lemma {:induction false} SortStable(s: seq<ScoreEntry>, v: int)
    ensures WithScore(SortDesc(s), v) == WithScore(s, v)
    decreases |s|
  {
    if s != [] {
      var init, last := s[..|s| - 1], s[|s| - 1];
      SortStable(init, v);
      InsertKeepsOrder(SortDesc(init), last, v);
    }
  }

  /** A table that is already in order is left exactly as it is. */
  lemma {:induction false} SortSorted(s: seq<ScoreEntry>)
    requires SortedDesc(s)
    ensures SortDesc(s) == s
    decreases |s|
  {
    if s != [] {
      var init := s[..|s| - 1];
      assert SortedDesc(init);
      SortSorted(init);
      assert init + [s[|s| - 1]] == s;
      if |init| > 0 {
        assert init[|init| - 1].score >= s[|s| - 1].score;
      }
    }
  }

  /**
   * Inserting into a sorted table places `e` at the position given by the
   * number of entries scoring at least as much, with the table split around it.
   */
  lemma {:induction false} InsertPosition(s: seq<ScoreEntry>, e: ScoreEntry)
    requires SortedDesc(s)
    ensures var k := CountAtLeast(s, e.score);
      InsertDesc(s, e) == s[..k] + [e] + s[k..]
    decreases |s|
  {
    if s != [] {
      var init, last := s[..|s| - 1], s[|s| - 1];
      assert s == init + [last];
      assert SortedDesc(init);
      if last.score >= e.score {
        assert CountAtLeast(init, e.score) == |init| by {
          assert forall k | 0 <= k < |init| :: init[k].score >= s[|s| - 1].score;
          AllAtLeast(init, e.score);
        }
      } else {
        InsertPosition(init, e);
        var k := CountAtLeast(init, e.score);
        assert k <= |init|;
        assert s[..k] == init[..k];
        assert s[k..] == init[k..] + [last] by {
          assert s == init + [last];
        }
      }
    }
  }

  /** When every entry scores at least `v`, every entry is counted. */
  lemma {:induction false} AllAtLeast(s: seq<ScoreEntry>, v: int)
    requires forall k | 0 <= k < |s| :: s[k].score >= v
    ensures CountAtLeast(s, v) == |s|
    decreases |s|
  {
    if s != [] {
      var init := s[..|s| - 1];
      assert forall k | 0 <= k < |init| :: init[k] == s[k];
      AllAtLeast(init, v);
    }
  }

  /**
   * `add_score`: the entry joins the table, the table is sorted from highest
   * to lowest, and only its first ten entries stay.
   */
  function AddScore(table: seq<ScoreEntry>, e: ScoreEntry): (r: seq<ScoreEntry>)
    ensures |r| == Min(MaxEntries, |table| + 1)
    ensures SortedDesc(r)
    ensures multiset(r) <= multiset(table + [e])
    ensures forall k | 0 <= k < |r| :: r[k] == e || r[k] in table
  {
    var sorted := SortDesc(table + [e]);
    var r := sorted[..Min(MaxEntries, |table| + 1)];
    assert sorted == r + sorted[|r|..];
    assert multiset(sorted) == multiset(r) + multiset(sorted[|r|..]);
    assert forall k | 0 <= k < |r| :: r[k] in multiset(table + [e]);
    r
  }

  /** What is cut off never outscores what is kept. */
  lemma AddScoreKeepsBest(table: seq<ScoreEntry>, e: ScoreEntry)
    ensures var sorted, r := SortDesc(table + [e]), AddScore(table, e);
      && sorted[..|r|] == r
      && forall i, j | 0 <= i < |r| <= j < |sorted| :: sorted[j].score <= r[i].score
  {
  }

  /**
   * On a table that is already in order, the new entry goes in just after
   * every entry scoring at least as much. It stays on the table when fewer
   * than ten entries score at least as much; otherwise the table keeps its
   * first ten entries.
   */
  lemma AddScoreSorted(table: seq<ScoreEntry>, e: ScoreEntry)
    requires SortedDesc(table)
    ensures var k, r := CountAtLeast(table, e.score), AddScore(table, e);
      && r == (table[..k] + [e] + table[k..])[..Min(MaxEntries, |table| + 1)]
      && (k < MaxEntries ==> r[k] == e)
      && (k >= MaxEntries ==> r == table[..MaxEntries])
  {
    var k, n := CountAtLeast(table, e.score), Min(MaxEntries, |table| + 1);
    SortAppendSorted(table, e);
    SplicePrefix(table, e, k, n);
  }

  /** The first `n` elements of `s` with `x` spliced in at `k`. */
  lemma SplicePrefix<T>(s: seq<T>, x: T, k: nat, n: nat)
    requires k <= |s| && n <= |s| + 1
    ensures k < n ==> (s[..k] + [x] + s[k..])[..n][k] == x
    ensures n <= k ==> (s[..k] + [x] + s[k..])[..n] == s[..n]
  {
    if n <= k {
      assert (s[..k] + [x] + s[k..])[..n] == s[..k][..n];
    }
  }

  /** Sorting a table in order with one entry appended is inserting that entry. */
  lemma SortAppendSorted(table: seq<ScoreEntry>, e: ScoreEntry)
    requires SortedDesc(table)
    ensures var k := CountAtLeast(table, e.score);
      SortDesc(table + [e]) == table[..k] + [e] + table[k..]
  {
    var s := table + [e];
    assert s[..|s| - 1] == table && s[|s| - 1] == e;
    SortSorted(table);
    InsertPosition(table, e);
  }

  /** Sorting keeps, for every score, the same entries in the same order. */
  lemma AddScoreStable(table: seq<ScoreEntry>, e: ScoreEntry, v: int)
    ensures WithScore(SortDesc(table + [e]), v) == WithScore(table, v) + (if e.score == v then [e] else [])
  {
    SortStable(table + [e], v);
    WithScoreAppend(table, e, v);
  }
}
