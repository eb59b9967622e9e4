/**
  The downloads view of the main window: which actions a selection enables,
  and how removing several selected rows deletes exactly those jobs from the
  job list.
 */
module Downloads {

  /** The status the download table reports for a job that is still transferring. */
  const Active: int := 0

  /** A row of the download table, as far as the main window looks at it. */
  datatype Job = Job(status: int)

  /** The three enable flags of the downloads view. */
  datatype ActionFlags = ActionFlags(play: bool, abort: bool, remove: bool)

  /** Every selected row names a job of the table. */
  predicate ValidRows(jobs: seq<Job>, rows: seq<int>)
  {
    forall i :: 0 <= i < |rows| ==> 0 <= rows[i] < |jobs|
  }

  /** The selection model reports every selected row once. */
  predicate Distinct(rows: seq<int>)
  {
    forall i, j :: 0 <= i < j < |rows| ==> rows[i] != rows[j]
  }

  // ---------------------------------------------------------------------------
  // Enable flags (downloadSelectionChanged)
  // ---------------------------------------------------------------------------

  /**
    Play is enabled for exactly one selected row, remove for at least one,
    abort when some selected job is still active.
   */
  method DownloadSelectionChanged(jobs: seq<Job>, rows: seq<int>) returns (flags: ActionFlags)
    requires ValidRows(jobs, rows)
    ensures flags.play <==> |rows| == 1
    ensures flags.remove <==> |rows| > 0
    ensures flags.abort <==> exists i :: 0 <= i < |rows| && jobs[rows[i]].status == Active
  {
    var playEnabled, abortEnabled, removeEnabled := false, false, false;
    if |rows| > 0 {
      playEnabled := |rows| == 1;
      removeEnabled := true;
      var i := 0;
      while i < |rows|
        invariant 0 <= i <= |rows|
        invariant abortEnabled <==> exists k :: 0 <= k < i && jobs[rows[k]].status == Active
      {
        if jobs[rows[i]].status == Active {
          abortEnabled := true;
        }
        i := i + 1;
      }
    }
    flags := ActionFlags(playEnabled, abortEnabled, removeEnabled);
  }

  // ---------------------------------------------------------------------------
  // Sorting the selected rows (qSort)
  // ---------------------------------------------------------------------------

  predicate Ascending(s: seq<int>)
  {
    forall i, j :: 0 <= i < j < |s| ==> s[i] <= s[j]
  }

  predicate StrictlyAscending(s: seq<int>)
  {
    forall i, j :: 0 <= i < j < |s| ==> s[i] < s[j]
  }

  /** `x` put in place in an ascending list. */
  function Insert(x: int, s: seq<int>): seq<int>
  {
    if s == [] || x <= s[0] then [x] + s
    else [s[0]] + Insert(x, s[1..])
  }

  /** Inserting adds exactly one `x` and nothing else. */
  lemma {:induction false} InsertMultiset(x: int, s: seq<int>)
    ensures multiset(Insert(x, s)) == multiset(s) + multiset{x}
  {
    if s != [] && x > s[0] {
      InsertMultiset(x, s[1..]);
      assert s == [s[0]] + s[1..];
    }
  }

  /** Every element of `Insert(x, s)` past the head of `s` is `x` or an element of `s[1..]`. */
  lemma InsertTailFrom(x: int, s: seq<int>, j: nat)
    requires s != [] && x > s[0]
    requires j < |Insert(x, s[1..])|
    ensures Insert(x, s[1..])[j] == x || exists k :: 1 <= k < |s| && s[k] == Insert(x, s[1..])[j]
  {
    var t := Insert(x, s[1..]);
    InsertMultiset(x, s[1..]);
    assert t[j] in multiset(t);
    if t[j] != x {
      assert t[j] in s[1..];
      var k :| 0 <= k < |s[1..]| && s[1..][k] == t[j];
      assert s[k + 1] == t[j];
    }
  }

  /** Inserting into an ascending list keeps it ascending. */
  lemma {:induction false} InsertAscending(x: int, s: seq<int>)
    requires Ascending(s)
    ensures Ascending(Insert(x, s))
  {
    var r := Insert(x, s);
    if s == [] || x <= s[0] {
      assert forall j :: 1 <= j < |r| ==> r[j] == s[j - 1];
    } else {
      var t := Insert(x, s[1..]);
      InsertAscending(x, s[1..]);
      assert forall j :: 1 <= j < |r| ==> r[j] == t[j - 1];
      forall j | 0 <= j < |t| ensures s[0] <= t[j] {
        InsertTailFrom(x, s, j);
      }
    }
  }

  /** Inserting a new value into a strictly ascending list keeps it strictly ascending. */
  lemma {:induction false} InsertStrict(x: int, s: seq<int>)
    requires StrictlyAscending(s) && x !in s
    ensures StrictlyAscending(Insert(x, s))
  {
    var r := Insert(x, s);
    if s == [] || x <= s[0] {
      assert forall j :: 1 <= j < |r| ==> r[j] == s[j - 1];
      assert s != [] ==> x < s[0];
    } else {
      var t := Insert(x, s[1..]);
      assert x !in s[1..];
      InsertStrict(x, s[1..]);
      assert forall j :: 1 <= j < |r| ==> r[j] == t[j - 1];
      forall j | 0 <= j < |t| ensures s[0] < t[j] {
        InsertTailFrom(x, s, j);
      }
    }
  }

  /** The rows in ascending order (insertion sort). */
  function Sort(rows: seq<int>): seq<int>
  {
    if rows == [] then [] else Insert(rows[0], Sort(rows[1..]))
  }

  /**
    Sorting yields the same rows, each as often as before, in ascending
    order; rows reported once each come out strictly ascending.
   */
  lemma {:induction false} SortFacts(rows: seq<int>)
    ensures multiset(Sort(rows)) == multiset(rows)
    ensures Ascending(Sort(rows))
    ensures Distinct(rows) ==> StrictlyAscending(Sort(rows))
  {
    if rows != [] {
      var rest := rows[1..];
      assert rows == [rows[0]] + rest;
      SortFacts(rest);
      InsertMultiset(rows[0], Sort(rest));
      InsertAscending(rows[0], Sort(rest));
      if Distinct(rows) {
        assert Distinct(rest) by {
          forall i, j | 0 <= i < j < |rest| ensures rest[i] != rest[j] { assert rest[i] == rows[i + 1] && rest[j] == rows[j + 1]; }
        }
        assert rows[0] !in rest by {
          forall k | 0 <= k < |rest| ensures rest[k] != rows[0] { assert rest[k] == rows[k + 1]; }
        }
        assert rows[0] !in multiset(Sort(rest));
        InsertStrict(rows[0], Sort(rest));
      }
    }
  }

  // ---------------------------------------------------------------------------
  // Removing the selected rows (removeDownload)
  // ---------------------------------------------------------------------------

  /** The job list after the job in row `i` is deleted: the following rows move up. */
  function RemoveAt(s: seq<Job>, i: nat): (r: seq<Job>)
    requires i < |s|
    ensures |r| == |s| - 1
  {
    s[..i] + s[i + 1..]
  }

  /**
    The jobs of `s` whose rows are not selected, in their order; `base` is
    the row number of `s[0]`.
   */
  function Kept(s: seq<Job>, selected: set<int>, base: int): seq<Job>
  {
    if s == [] then []
    else (if base in selected then [] else [s[0]]) + Kept(s[1..], selected, base + 1)
  }

  /** The jobs of `s` whose rows are selected, in their order. */
  function Picked(s: seq<Job>, selected: set<int>, base: int): seq<Job>
  {
    if s == [] then []
    else (if base in selected then [s[0]] else []) + Picked(s[1..], selected, base + 1)
  }

  lemma {:induction false} KeptAppend(a: seq<Job>, b: seq<Job>, selected: set<int>, base: int)
    ensures Kept(a + b, selected, base) == Kept(a, selected, base) + Kept(b, selected, base + |a|)
  {
    if a == [] {
      assert a + b == b;
    } else {
      assert (a + b)[1..] == a[1..] + b;
      KeptAppend(a[1..], b, selected, base + 1);
    }
  }

  /** Rows outside the selection are all kept. */
  lemma {:induction false} KeptNone(s: seq<Job>, selected: set<int>, base: int)
    requires forall k :: base <= k < base + |s| ==> k !in selected
    ensures Kept(s, selected, base) == s
  {
    if s != [] {
      KeptNone(s[1..], selected, base + 1);
    }
  }

  /** Only the selection within the rows of `s` matters. */
  lemma {:induction false} KeptAgree(s: seq<Job>, a: set<int>, b: set<int>, base: int)
    requires forall k :: base <= k < base + |s| ==> (k in a <==> k in b)
    ensures Kept(s, a, base) == Kept(s, b, base)
  {
    if s != [] {
      KeptAgree(s[1..], a, b, base + 1);
    }
  }

  /**
    Deleting row `r` from the list left after removing the rows `selected`,
    all of them below `r`, is the same as removing `r` with them: rows above
    every removed row have not moved. `base` is the row number of `s[0]`.
   */
  lemma {:induction false} RemoveBelowRemoved(s: seq<Job>, selected: set<int>, base: int, r: int)
    requires base <= r < base + |s| && r !in selected
    requires forall k :: k in selected ==> k > r
    ensures r - base < |Kept(s, selected, base)|
    ensures RemoveAt(Kept(s, selected, base), r - base) == Kept(s, selected + {r}, base)
  {
    var rest := Kept(s[1..], selected, base + 1);
    assert base !in selected;
    assert Kept(s, selected, base) == [s[0]] + rest;
    if base == r {
      KeptAgree(s[1..], selected, selected + {r}, base + 1);
      assert Kept(s, selected + {r}, base) == Kept(s[1..], selected + {r}, base + 1);
      assert RemoveAt([s[0]] + rest, 0) == rest;
    } else {
      RemoveBelowRemoved(s[1..], selected, base + 1, r);
      assert base !in selected + {r};
      assert Kept(s, selected + {r}, base) == [s[0]] + Kept(s[1..], selected + {r}, base + 1);
      var i := r - base;
      assert RemoveAt([s[0]] + rest, i) == [s[0]] + RemoveAt(rest, i - 1) by {
        assert ([s[0]] + rest)[..i] == [s[0]] + rest[..i - 1];
        assert ([s[0]] + rest)[i + 1..] == rest[i..];
      }
    }
  }

  /**
    Every job is either kept or removed, once: the kept and the removed jobs
    together are the original jobs.
   */
  lemma {:induction false} KeptPickedPartition(s: seq<Job>, selected: set<int>, base: int)
    ensures multiset(Kept(s, selected, base)) + multiset(Picked(s, selected, base)) == multiset(s)
  {
    if s != [] {
      KeptPickedPartition(s[1..], selected, base + 1);
      assert s == [s[0]] + s[1..];
    }
  }

  /** As many jobs are removed as rows are selected. */
  lemma {:induction false} PickedCount(s: seq<Job>, selected: set<int>, base: int)
    requires forall k :: k in selected ==> base <= k < base + |s|
    ensures |Picked(s, selected, base)| == |selected|
    ensures |Kept(s, selected, base)| == |s| - |selected|
  {
    if s == [] {
      assert selected == {} by {
        forall k | k in selected ensures false { }
      }
    } else {
      var rest := selected - {base};
      KeptAgree(s[1..], selected, rest, base + 1);
      PickedAgree(s[1..], selected, rest, base + 1);
      PickedCount(s[1..], rest, base + 1);
    }
  }

  lemma {:induction false} PickedAgree(s: seq<Job>, a: set<int>, b: set<int>, base: int)
    requires forall k :: base <= k < base + |s| ==> (k in a <==> k in b)
    ensures Picked(s, a, base) == Picked(s, b, base)
  {
    if s != [] {
      PickedAgree(s[1..], a, b, base + 1);
    }
  }

  /** The set of the rows in `rows`. */
  function RowSet(rows: seq<int>): set<int>
  {
    set i | i in rows
  }

  /** Sorting the selection keeps its rows, and each once. */
  lemma SortedRows(jobs: seq<Job>, rows: seq<int>)
    requires ValidRows(jobs, rows) && Distinct(rows)
    ensures RowSet(Sort(rows)) == RowSet(rows)
    ensures StrictlyAscending(Sort(rows))
    ensures ValidRows(jobs, Sort(rows))
  {
    var sorted := Sort(rows);
    SortFacts(rows);
    forall x | x in sorted ensures x in rows {
      assert x in multiset(sorted);
    }
    forall x | x in rows ensures x in sorted {
      assert x in multiset(rows);
    }
    forall i | 0 <= i < |sorted| ensures 0 <= sorted[i] < |jobs| {
      assert sorted[i] in rows;
      var j :| 0 <= j < |rows| && rows[j] == sorted[i];
    }
  }

  /** In a strictly ascending list, the rows after position `i` are all above `s[i]`. */
  lemma SuffixAbove(s: seq<int>, i: nat, above: seq<int>)
    requires StrictlyAscending(s) && i < |s| && above == s[i + 1..]
    ensures forall k :: k in RowSet(above) ==> k > s[i]
    ensures RowSet(s[i..]) == RowSet(above) + {s[i]}
  {
    forall k | k in RowSet(above) ensures k > s[i] {
      var j :| 0 <= j < |above| && above[j] == k;
      assert s[i + 1 + j] == k;
    }
    assert s[i..] == [s[i]] + s[i + 1..];
  }

  /**
    Removes the selected rows: sorts them and deletes from the highest row
    down, so that no deletion shifts a row still to be deleted. The result is
    the job list without exactly the selected jobs, the others in their order.
   */
  method RemoveSelected(jobs: seq<Job>, rows: seq<int>) returns (remaining: seq<Job>)
    requires ValidRows(jobs, rows)
    requires Distinct(rows)
    ensures remaining == Kept(jobs, RowSet(rows), 0)
    ensures |remaining| == |jobs| - |rows|
  {
    var sorted := Sort(rows);
    SortedRows(jobs, rows);
    remaining := jobs;
    var i := |sorted| - 1;
    assert RowSet(sorted[i + 1..]) == {};
    KeptNone(jobs, {}, 0);
    while i >= 0
      invariant -1 <= i < |sorted|
      invariant remaining == Kept(jobs, RowSet(sorted[i + 1..]), 0)
    {
      var r := sorted[i];
      SuffixAbove(sorted, i, sorted[i + 1..]);
      RemoveBelowRemoved(jobs, RowSet(sorted[i + 1..]), 0, r);
      remaining := RemoveAt(remaining, r);
      i := i - 1;
    }
    assert sorted[0..] == sorted;
    DistinctRowSet(rows);
    PickedCount(jobs, RowSet(rows), 0);
  }

  lemma {:induction false} DistinctRowSet(rows: seq<int>)
    requires Distinct(rows)
    ensures |RowSet(rows)| == |rows|
  {
    if rows != [] {
      var front := rows[..|rows| - 1];
      var last := rows[|rows| - 1];
      assert Distinct(front);
      DistinctRowSet(front);
      assert last !in RowSet(front);
      assert RowSet(rows) == RowSet(front) + {last} by {
        assert rows == front + [last];
      }
    }
  }
}
