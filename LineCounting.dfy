/**
 * The `LineCounter` journal (src/main.rs:21-25, 67-95): a running total of
 * lines and a log of `(path, lines)` records, one per file that could be read,
 * sorted by line count when the summary is produced.
 */
module LineCounting {
  import opened Wrappers
  import opened Text

  /** One entry of `per_file_log`. */
  datatype FileRecord = FileRecord(path: string, lines: int)

  /** What one call of `observe` receives: the path, and the text that reading it yields (None when unreadable). */
  datatype Observation = Observation(path: string, content: Option<string>)

  /** The lines of a file: the number of segments `split('\n')` produces. */
  function LineCount(content: string): (n: nat)
    ensures n == Occurrences(content, '\n') + 1
  {
    |Split(content, '\n')|
  }

  /** The loop of src/main.rs:79-82: one count per segment, a segment ending at each '\n'. */
  method CountLines(content: string) returns (n: int)
    ensures n == LineCount(content)
    ensures n == Occurrences(content, '\n') + 1
  {
    n := 1;
    for i := 0 to |content|
      invariant n == Occurrences(content[..i], '\n') + 1
    {
      OccurrencesAppend(content[..i], [content[i]], '\n');
      assert content[..i + 1] == content[..i] + [content[i]];
      if content[i] == '\n' {
        n := n + 1;
      }
    }
    assert content[..|content|] == content;
  }

  lemma EmptyFileHasOneLine()
    ensures LineCount("") == 1
  {
  }

  /** A trailing newline counts one more line. */
  lemma TrailingNewline(content: string)
    ensures LineCount(content + "\n") == LineCount(content) + 1
  {
    OccurrencesAppend(content, "\n", '\n');
  }

  function SumLines(log: seq<FileRecord>): int {
    if log == [] then 0 else log[0].lines + SumLines(log[1..])
  }

  lemma {:induction false} SumLinesAppend(a: seq<FileRecord>, b: seq<FileRecord>)
    ensures SumLines(a + b) == SumLines(a) + SumLines(b)
  {
    if a == [] {
      assert a + b == b;
    } else {
      assert (a + b)[1..] == a[1..] + b;
      SumLinesAppend(a[1..], b);
    }
  }

  /** The records a run of `observe` calls appends: one per readable file, in call order. */
  function Recorded(calls: seq<Observation>): (r: seq<FileRecord>)
    ensures |r| <= |calls|
  {
    if calls == [] then []
    else match calls[0].content
      case Some(text) => [FileRecord(calls[0].path, LineCount(text))] + Recorded(calls[1..])
      case None => Recorded(calls[1..])
  }

  lemma {:induction false} RecordedAppend(a: seq<Observation>, b: seq<Observation>)
    ensures Recorded(a + b) == Recorded(a) + Recorded(b)
  {
    if a == [] {
      assert a + b == b;
    } else {
      assert (a + b)[1..] == a[1..] + b;
      RecordedAppend(a[1..], b);
    }
  }

  /** Every recorded file has at least one line. */
  lemma {:induction false} RecordedPositive(calls: seq<Observation>)
    ensures forall k :: 0 <= k < |Recorded(calls)| ==> Recorded(calls)[k].lines >= 1
  {
    if calls != [] {
      RecordedPositive(calls[1..]);
    }
  }

  // ---------------------------------------------------------------------------
  // The stable sort of `summary` (`sort_by` on the count, src/main.rs:90)

  predicate SortedByLines(log: seq<FileRecord>) {
    forall i, j :: 0 <= i < j < |log| ==> log[i].lines <= log[j].lines
  }

  /** The records with exactly `n` lines, in their order in `log`. */
  function WithLines(log: seq<FileRecord>, n: int): seq<FileRecord> {
    if log == [] then []
    else (if log[0].lines == n then [log[0]] else []) + WithLines(log[1..], n)
  }

  lemma {:induction false} WithLinesAppend(a: seq<FileRecord>, b: seq<FileRecord>, n: int)
    ensures WithLines(a + b, n) == WithLines(a, n) + WithLines(b, n)
  {
    if a == [] {
      assert a + b == b;
    } else {
      assert (a + b)[1..] == a[1..] + b;
      WithLinesAppend(a[1..], b, n);
    }
  }

  lemma {:induction false} WithLinesNone(log: seq<FileRecord>, n: int)
    requires forall k :: 0 <= k < |log| ==> log[k].lines > n
    ensures WithLines(log, n) == []
  {
    if log != [] {
      WithLinesNone(log[1..], n);
    }
  }

  /** Puts `x` after every record of `sorted` whose count is not larger than its own. */
  function InsertByLines(sorted: seq<FileRecord>, x: FileRecord): seq<FileRecord> {
    if sorted == [] then [x]
    else if x.lines < sorted[0].lines then [x] + sorted
    else [sorted[0]] + InsertByLines(sorted[1..], x)
  }

  /** A stable sort ascending by line count, written as insertion sort. */
  function SortByLines(log: seq<FileRecord>): seq<FileRecord> {
    if log == [] then []
    else InsertByLines(SortByLines(log[..|log| - 1]), log[|log| - 1])
  }

  lemma {:induction false} InsertByLinesPermutes(sorted: seq<FileRecord>, x: FileRecord)
    ensures multiset(InsertByLines(sorted, x)) == multiset(sorted) + multiset{x}
  {
    if sorted != [] && x.lines >= sorted[0].lines {
      InsertByLinesPermutes(sorted[1..], x);
      assert sorted == [sorted[0]] + sorted[1..];
    }
  }

  lemma {:induction false} InsertByLinesSorted(sorted: seq<FileRecord>, x: FileRecord)
    requires SortedByLines(sorted)
    ensures SortedByLines(InsertByLines(sorted, x))
  {
    if sorted != [] && x.lines >= sorted[0].lines {
      var r := InsertByLines(sorted, x);
      var tail := InsertByLines(sorted[1..], x);
      InsertByLinesSorted(sorted[1..], x);
      InsertByLinesPermutes(sorted[1..], x);
      assert r == [sorted[0]] + tail;
      forall i | 0 <= i < |tail| ensures sorted[0].lines <= tail[i].lines {
        assert tail[i] in multiset(tail);
        assert tail[i] == x || tail[i] in multiset(sorted[1..]);
      }
    }
  }

  lemma {:induction false} InsertByLinesSum(sorted: seq<FileRecord>, x: FileRecord)
    ensures SumLines(InsertByLines(sorted, x)) == SumLines(sorted) + x.lines
  {
    if sorted != [] {
      if x.lines < sorted[0].lines {
        assert ([x] + sorted)[1..] == sorted;
      } else {
        InsertByLinesSum(sorted[1..], x);
        assert ([sorted[0]] + InsertByLines(sorted[1..], x))[1..] == InsertByLines(sorted[1..], x);
      }
    }
  }

  lemma {:induction false} InsertByLinesStable(sorted: seq<FileRecord>, x: FileRecord, n: int)
    requires SortedByLines(sorted)
    ensures WithLines(InsertByLines(sorted, x), n) == WithLines(sorted, n) + WithLines([x], n)
  {
    if sorted != [] {
      if x.lines < sorted[0].lines {
        assert ([x] + sorted)[1..] == sorted;
        if x.lines == n {
          WithLinesNone(sorted, n);
        }
      } else {
        InsertByLinesStable(sorted[1..], x, n);
        assert ([sorted[0]] + InsertByLines(sorted[1..], x))[1..] == InsertByLines(sorted[1..], x);
      }
    }
  }

  /**
   * `summary`'s sort: the result is non-decreasing by count, a permutation
   * of the log, keeps the relative order of records with equal counts, and
   * has the same total.
   */
  lemma {:induction false} SortByLinesFacts(log: seq<FileRecord>)
    ensures var r := SortByLines(log);
      SortedByLines(r) && multiset(r) == multiset(log) && SumLines(r) == SumLines(log) &&
      forall n :: WithLines(r, n) == WithLines(log, n)
  {
    if log != [] {
      var init, last := log[..|log| - 1], log[|log| - 1];
      assert log == init + [last];
      SortByLinesFacts(init);
      InsertByLinesSorted(SortByLines(init), last);
      InsertByLinesPermutes(SortByLines(init), last);
      InsertByLinesSum(SortByLines(init), last);
      SumLinesAppend(init, [last]);
      forall n ensures WithLines(SortByLines(log), n) == WithLines(log, n) {
        InsertByLinesStable(SortByLines(init), last, n);
        WithLinesAppend(init, [last], n);
      }
    }
  }

  lemma {:induction false} WithLinesMembers(log: seq<FileRecord>, n: int)
    ensures forall x :: x in WithLines(log, n) ==> x.lines == n && x in log
  {
    if log != [] {
      WithLinesMembers(log[1..], n);
    }
  }

  lemma WithLinesOfHead(log: seq<FileRecord>)
    requires log != []
    ensures WithLines(log, log[0].lines) != []
  {
  }

  /** Two sorted logs that agree on the records of every count are equal. */
  lemma {:induction false} SortedDetermined(r: seq<FileRecord>, t: seq<FileRecord>)
    requires SortedByLines(r) && SortedByLines(t)
    requires forall n :: WithLines(r, n) == WithLines(t, n)
    ensures r == t
    decreases |r| + |t|
  {
    if r == [] {
      if t != [] {
        WithLinesOfHead(t);
        assert false;
      }
    } else if t == [] {
      WithLinesOfHead(r);
      assert false;
    } else {
      var a, b := r[0].lines, t[0].lines;
      WithLinesMembers(t, a);
      WithLinesMembers(r, b);
      assert r[0] in WithLines(t, a);
      assert t[0] in WithLines(r, b);
      assert a == b;
      assert WithLines(r, a)[0] == r[0] && WithLines(t, a)[0] == t[0];
      assert WithLines(r, a) == WithLines(t, a);
      assert r[0] == t[0];
      forall n ensures WithLines(r[1..], n) == WithLines(t[1..], n) {
        var wr, wt := WithLines(r[1..], n), WithLines(t[1..], n);
        assert WithLines(r, n) == WithLines(t, n);
        if a == n {
          assert WithLines(r, n) == [r[0]] + wr;
          assert WithLines(t, n) == [r[0]] + wt;
          assert ([r[0]] + wr)[1..] == wr;
          assert ([r[0]] + wt)[1..] == wt;
        } else {
          assert WithLines(r, n) == [] + wr == wr;
          assert WithLines(t, n) == [] + wt == wt;
        }
      }
      SortedDetermined(r[1..], t[1..]);
      assert r == [r[0]] + r[1..] && t == [t[0]] + t[1..];
    }
  }

  /**
   * A stable sort by count has one possible result: any rearrangement that is
   * non-decreasing by count and keeps each count's records in their order is
   * SortByLines(log).
   */
  lemma StableSortUnique(log: seq<FileRecord>, r: seq<FileRecord>)
    requires SortedByLines(r)
    requires forall n :: WithLines(r, n) == WithLines(log, n)
    ensures r == SortByLines(log)
  {
    SortByLinesFacts(log);
    SortedDetermined(r, SortByLines(log));
  }

  /** Sorting a permutation gives the same length and keeps every record's count positive. */
  lemma SortKeepsPositive(log: seq<FileRecord>)
    requires forall k :: 0 <= k < |log| ==> log[k].lines >= 1
    ensures forall k :: 0 <= k < |SortByLines(log)| ==> SortByLines(log)[k].lines >= 1
  {
    var r := SortByLines(log);
    SortByLinesFacts(log);
    forall k | 0 <= k < |r| ensures r[k].lines >= 1 {
      assert r[k] in multiset(log);
    }
  }

  // ---------------------------------------------------------------------------
  // The journal object

  class LineCounter {
    var totalLine: int
    var perFileLog: seq<FileRecord>

    /** The total is the sum of the logged counts, and every logged file has a line. */
    ghost predicate Valid()
      reads this
    {
      totalLine == SumLines(perFileLog) &&
      forall k :: 0 <= k < |perFileLog| ==> perFileLog[k].lines >= 1
    }

    /** `LineCounter::new`. */
    constructor ()
      ensures Valid()
      ensures totalLine == 0 && perFileLog == []
    {
      totalLine := 0;
      perFileLog := [];
    }

    /** `observe`: an unreadable file changes nothing; a readable one appends one record. */
    method Observe(path: string, content: Option<string>)
      requires Valid()
      modifies this
      ensures Valid()
      ensures content.None? ==> totalLine == old(totalLine) && perFileLog == old(perFileLog)
      ensures content.Some? ==>
        perFileLog == old(perFileLog) + [FileRecord(path, LineCount(content.value))] &&
        totalLine == old(totalLine) + LineCount(content.value)
      ensures perFileLog == old(perFileLog) + Recorded([Observation(path, content)])
    {
      if content.Some? {
        var localLine := CountLines(content.value);
        SumLinesAppend(perFileLog, [FileRecord(path, localLine)]);
        totalLine := totalLine + localLine;
        perFileLog := perFileLog + [FileRecord(path, localLine)];
      }
    }

    /** `summary`, without its printing: the log is stably sorted by count; the total stays. */
    method Summary()
      requires Valid()
      modifies this
      ensures Valid()
      ensures perFileLog == SortByLines(old(perFileLog))
      ensures totalLine == old(totalLine)
      ensures SortedByLines(perFileLog) && multiset(perFileLog) == multiset(old(perFileLog))
      ensures forall n :: WithLines(perFileLog, n) == WithLines(old(perFileLog), n)
    {
      SortByLinesFacts(perFileLog);
      SortKeepsPositive(perFileLog);
      perFileLog := SortByLines(perFileLog);
    }
  }
}
