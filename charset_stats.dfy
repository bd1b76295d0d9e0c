/**
 * The file-level charset report of the command's `-charset-detect` mode: the
 * confidences of all detection results are summed per charset name, the sums
 * are flattened into a list, and the list is sorted by descending score.
 */
module CharsetStats {
  import opened MidiIconv

  /** One line of the report: a charset name and its summed confidence. */
  datatype Entry = Entry(charset: string, score: int)

  // ---------------------------------------------------------------------------
  // Specification functions over the detection results
  // ---------------------------------------------------------------------------

  /** The results of all records, record after record. */
  function AllResults(records: seq<Charset>): seq<Guess>
  {
    if records == [] then []
    else AllResults(records[..|records| - 1]) + records[|records| - 1].results
  }

  /** The charset names that occur in `gs`. */
  function Names(gs: seq<Guess>): set<string>
  {
    if gs == [] then {} else Names(gs[..|gs| - 1]) + {gs[|gs| - 1].charset}
  }

  /** The sum of the confidences of the guesses in `gs` that name `name`. */
  function Score(gs: seq<Guess>, name: string): int
  {
    if gs == [] then 0
    else Score(gs[..|gs| - 1], name) + (if gs[|gs| - 1].charset == name then gs[|gs| - 1].confidence else 0)
  }

  /** The sum of all confidences in `gs`. */
  function Total(gs: seq<Guess>): int
  {
    if gs == [] then 0 else Total(gs[..|gs| - 1]) + gs[|gs| - 1].confidence
  }

  /** `stats` holds, for every name occurring in `gs` and no other, that name's score. */
  ghost predicate Tallies(stats: map<string, int>, gs: seq<Guess>)
  {
    && stats.Keys == Names(gs)
    && forall name :: name in stats ==> stats[name] == Score(gs, name)
  }

  /** The charset names of a list of entries. */
  function Charsets(es: seq<Entry>): set<string>
  {
    if es == [] then {} else {es[0].charset} + Charsets(es[1..])
  }

  /** No charset name occurs twice in `es`. */
  ghost predicate DistinctCharsets(es: seq<Entry>)
  {
    forall p, q :: 0 <= p < q < |es| ==> es[p].charset != es[q].charset
  }

  /** `es` is ordered by non-increasing score. */
  ghost predicate Descending(es: seq<Entry>)
  {
    forall p, q :: 0 <= p < q < |es| ==> es[p].score >= es[q].score
  }

  /**
   * `es` is a report for `gs`: sorted by non-increasing score, with exactly one
   * entry per charset name of `gs`, carrying that name's summed confidence.
   */
  ghost predicate IsRanking(es: seq<Entry>, gs: seq<Guess>)
  {
    && Descending(es)
    && DistinctCharsets(es)
    && (forall e :: e in es ==> e.charset in Names(gs) && e.score == Score(gs, e.charset))
    && (forall name :: name in Names(gs) ==> Entry(name, Score(gs, name)) in es)
  }

  /** The sum of the scores of `es`. */
  function SumScores(es: seq<Entry>): int
  {
    if es == [] then 0 else es[0].score + SumScores(es[1..])
  }

  // ---------------------------------------------------------------------------
  // Lemmas
  // ---------------------------------------------------------------------------

  /** Appending one guess adds its name and adds its confidence to that name's score. */
  lemma GuessSnoc(gs: seq<Guess>, g: Guess)
    ensures Names(gs + [g]) == Names(gs) + {g.charset}
    ensures forall name :: Score(gs + [g], name) == Score(gs, name) + (if g.charset == name then g.confidence else 0)
    ensures Total(gs + [g]) == Total(gs) + g.confidence
  {
  }

  /** A name that does not occur has score 0. */
  lemma {:induction false} ScoreOfAbsentName(gs: seq<Guess>, name: string)
    requires name !in Names(gs)
    ensures Score(gs, name) == 0
  {
    if gs != [] {
      ScoreOfAbsentName(gs[..|gs| - 1], name);
    }
  }

  /** Counting one more guess: a known name's score grows by its confidence, a new name starts at it. */
  lemma TallyAdd(stats: map<string, int>, gs: seq<Guess>, g: Guess)
    requires Tallies(stats, gs)
    ensures Tallies(
      stats[g.charset := if g.charset in stats then stats[g.charset] + g.confidence else g.confidence],
      gs + [g])
  {
    GuessSnoc(gs, g);
    if g.charset !in stats {
      ScoreOfAbsentName(gs, g.charset);
    }
  }

  /** The results of a prefix of the records, extended by one more record. */
  lemma AllResultsSnoc(records: seq<Charset>, i: nat)
    requires i < |records|
    ensures AllResults(records[..i + 1]) == AllResults(records[..i]) + records[i].results
  {
    assert records[..i + 1][..i] == records[..i];
  }

  /** The sum, over the entries' names, of the score each name has in `gs`. */
  function ScoreSum(es: seq<Entry>, gs: seq<Guess>): int
  {
    if es == [] then 0 else Score(gs, es[0].charset) + ScoreSum(es[1..], gs)
  }

  lemma {:induction false} ScoreSumMatchesScores(es: seq<Entry>, gs: seq<Guess>)
    requires forall e :: e in es ==> e.score == Score(gs, e.charset)
    ensures SumScores(es) == ScoreSum(es, gs)
  {
    if es != [] {
      assert es[0] in es;
      assert forall e :: e in es[1..] ==> e in es;
      ScoreSumMatchesScores(es[1..], gs);
    }
  }

  lemma {:induction false} ScoreSumOfNoGuesses(es: seq<Entry>)
    ensures ScoreSum(es, []) == 0
  {
    if es != [] {
      ScoreSumOfNoGuesses(es[1..]);
    }
  }

  lemma {:induction false} ScoreSumSnoc(es: seq<Entry>, gs: seq<Guess>, g: Guess)
    requires DistinctCharsets(es)
    ensures ScoreSum(es, gs + [g]) ==
      ScoreSum(es, gs) + (if g.charset in Charsets(es) then g.confidence else 0)
  {
    if es != [] {
      GuessSnoc(gs, g);
      ScoreSumSnoc(es[1..], gs, g);
      if g.charset == es[0].charset {
        NotInCharsets(es[1..], g.charset) by {
          forall k | 0 <= k < |es[1..]| ensures es[1..][k].charset != g.charset {
            assert es[1..][k] == es[k + 1];
          }
        }
      }
    }
  }

  lemma {:induction false} NotInCharsets(es: seq<Entry>, name: string)
    requires forall k :: 0 <= k < |es| ==> es[k].charset != name
    ensures name !in Charsets(es)
  {
    if es != [] {
      NotInCharsets(es[1..], name);
    }
  }

  lemma {:induction false} InCharsets(es: seq<Entry>, e: Entry)
    requires e in es
    ensures e.charset in Charsets(es)
  {
    if es[0] != e {
      InCharsets(es[1..], e);
    }
  }

  /** Summing the scores of distinct names that cover all of `gs` gives the total confidence. */
  lemma {:induction false} ScoreSumTotal(es: seq<Entry>, gs: seq<Guess>)
    requires DistinctCharsets(es)
    requires Names(gs) <= Charsets(es)
    ensures ScoreSum(es, gs) == Total(gs)
  {
    if gs == [] {
      ScoreSumOfNoGuesses(es);
    } else {
      var p, g := gs[..|gs| - 1], gs[|gs| - 1];
      assert gs == p + [g];
      GuessSnoc(p, g);
      ScoreSumSnoc(es, p, g);
      ScoreSumTotal(es, p);
    }
  }

  /**
   * The scores of a report add up to the sum of all confidences of all
   * detection results: aggregation neither loses nor double-counts a result.
   */
  lemma RankingPreservesTotal(es: seq<Entry>, gs: seq<Guess>)
    requires IsRanking(es, gs)
    ensures SumScores(es) == Total(gs)
  {
    forall name | name in Names(gs) ensures name in Charsets(es) {
      InCharsets(es, Entry(name, Score(gs, name)));
    }
    ScoreSumMatchesScores(es, gs);
    ScoreSumTotal(es, gs);
  }

  /** In a list without repeated names, no entry occurs twice. */
  lemma {:induction false} DistinctOccursOnce(es: seq<Entry>, e: Entry)
    requires DistinctCharsets(es)
    ensures multiset(es)[e] <= 1
  {
    if es != [] {
      assert es == [es[0]] + es[1..];
      DistinctOccursOnce(es[1..], e);
      if e == es[0] {
        assert e !in es[1..] by {
          forall k | 0 <= k < |es[1..]| ensures es[1..][k] != e {
            assert es[1..][k] == es[k + 1];
          }
        }
      }
    }
  }

  /** Reordering a list without repeated names gives a list without repeated names. */
  lemma PermutationKeepsDistinct(a: seq<Entry>, b: seq<Entry>)
    requires multiset(a) == multiset(b)
    requires DistinctCharsets(a)
    ensures DistinctCharsets(b)
  {
    forall p, q | 0 <= p < q < |b| ensures b[p].charset != b[q].charset {
      if b[p].charset == b[q].charset {
        assert b[p] in multiset(a) && b[q] in multiset(a);
        var x :| 0 <= x < |a| && a[x] == b[p];
        var y :| 0 <= y < |a| && a[y] == b[q];
        assert x == y;
        assert b == b[..q] + [b[q]] + b[q + 1..];
        assert b[p] in b[..q];
        assert multiset(b)[b[q]] >= 2;
        DistinctOccursOnce(a, b[q]);
        assert false;
      }
    }
  }

  // ---------------------------------------------------------------------------
  // The report, step by step
  // ---------------------------------------------------------------------------

  /**
   * Sums the confidence of every result of every record per charset name: the
   * first result of a name sets its score, later ones add to it.
   */
  method Aggregate(records: seq<Charset>) returns (stats: map<string, int>)
    ensures stats.Keys == Names(AllResults(records))
    ensures forall name :: name in stats ==> stats[name] == Score(AllResults(records), name)
  {
    stats := map[];
    for i := 0 to |records|
      invariant Tallies(stats, AllResults(records[..i]))
    {
      var results := records[i].results;
      assert AllResults(records[..i]) + results[..0] == AllResults(records[..i]);
      for j := 0 to |results|
        invariant Tallies(stats, AllResults(records[..i]) + results[..j])
      {
        var r := results[j];
        ghost var gs := AllResults(records[..i]) + results[..j];
        assert gs + [r] == AllResults(records[..i]) + results[..j + 1];
        TallyAdd(stats, gs, r);
        if r.charset in stats {
          stats := stats[r.charset := stats[r.charset] + r.confidence];
        } else {
          stats := stats[r.charset := r.confidence];
        }
      }
      assert results[..|results|] == results;
      AllResultsSnoc(records, i);
    }
    assert records[..|records|] == records;
  }

  /**
   * Turns the map into a list with one entry per key, in an unspecified order
   * (Go's map iteration order is unspecified; the choice here is arbitrary too).
   */
  method Flatten(stats: map<string, int>) returns (entries: seq<Entry>)
    ensures |entries| == |stats|
    ensures DistinctCharsets(entries)
    ensures forall e :: e in entries <==> e.charset in stats && e.score == stats[e.charset]
  {
    entries := [];
    var pending := stats.Keys;
    while pending != {}
      invariant pending <= stats.Keys
      invariant |entries| + |pending| == |stats|
      invariant DistinctCharsets(entries)
      invariant forall e :: e in entries <==>
        e.charset in stats && e.charset !in pending && e.score == stats[e.charset]
      decreases |pending|
    {
      var name :| name in pending;
      entries := entries + [Entry(name, stats[name])];
      pending := pending - {name};
    }
  }

  /**
   * Sorts the entries in place by non-increasing score. Go's `sort.Slice` is
   * not stable and the input order is already arbitrary, so the order of equal
   * scores is left open.
   */
  method SortByScore(a: array<Entry>)
    modifies a
    ensures Descending(a[..])
    ensures multiset(a[..]) == multiset(old(a[..]))
  {
    for i := 0 to a.Length
      invariant Descending(a[..i])
      invariant multiset(a[..]) == multiset(old(a[..]))
    {
      InsertAt(a, i);
    }
    assert a[..a.Length] == a[..];
  }

  /** Moves `a[i]` down into the sorted prefix `a[..i]`, leaving `a[..i + 1]` sorted. */
  method InsertAt(a: array<Entry>, i: nat)
    requires i < a.Length
    requires Descending(a[..i])
    modifies a
    ensures Descending(a[..i + 1])
    ensures a[i + 1..] == old(a[i + 1..])
    ensures multiset(a[..]) == multiset(old(a[..]))
  {
    var j := i;
    while j > 0 && a[j - 1].score < a[j].score
      invariant 0 <= j <= i
      invariant forall p, q :: 0 <= p < q <= i && p != j && q != j ==> a[p].score >= a[q].score
      invariant forall q :: j < q <= i ==> a[j].score >= a[q].score
      invariant a[i + 1..] == old(a[i + 1..])
      invariant multiset(a[..]) == multiset(old(a[..]))
    {
      Swap(a, j - 1, j);
      j := j - 1;
    }
  }

  /** Exchanges two entries. */
  method Swap(a: array<Entry>, p: nat, q: nat)
    requires p < q < a.Length
    modifies a
    ensures a[p] == old(a[q]) && a[q] == old(a[p])
    ensures forall k :: 0 <= k < a.Length && k != p && k != q ==> a[k] == old(a[k])
    ensures multiset(a[..]) == multiset(old(a[..]))
  {
    a[p], a[q] := a[q], a[p];
  }

  /**
   * The aggregated report of a list of detection records: one entry per charset
   * name occurring in any result, scored by the summed confidence, sorted by
   * non-increasing score.
   */
  method RankCharsets(records: seq<Charset>) returns (ranking: seq<Entry>)
    ensures IsRanking(ranking, AllResults(records))
  {
    var stats := Aggregate(records);
    var entries := Flatten(stats);
    var a := new Entry[|entries|](k requires 0 <= k < |entries| => entries[k]);
    assert a[..] == entries;
    SortByScore(a);
    ranking := a[..];
    PermutationKeepsDistinct(entries, ranking);
    forall e ensures e in ranking <==> e in entries {
      assert e in ranking <==> e in multiset(ranking);
      assert e in entries <==> e in multiset(entries);
    }
  }
}
