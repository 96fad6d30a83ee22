/**
 * The status report that `pep()` folds its tally into: a `Status`/`Amount`
 * header, one row per distinct status label with its number of occurrences,
 * sorted by label, and a `Total` row.
 */
module Report {
  import opened Text

  /** A cell of the output table: a string or a count. */
  datatype Cell = Str(s: string) | Num(n: nat)

  /** Python's `list.count(x)`. */
  function Count(t: seq<string>, x: string): nat
  {
    multiset(t)[x]
  }

  predicate Distinct(d: seq<string>)
  {
    forall i, j :: 0 <= i < j < |d| ==> d[i] != d[j]
  }

  /**
   * The keys of the dict built from `t`, in insertion order: each label once,
   * where it first occurs.
   */
  function FirstOccurrences(t: seq<string>): (d: seq<string>)
    ensures Distinct(d)
    ensures forall x :: x in d <==> x in t
  {
    if t == [] then []
    else
      var d := FirstOccurrences(t[..|t| - 1]);
      assert t == t[..|t| - 1] + [t[|t| - 1]];
      if t[|t| - 1] in d then d else d + [t[|t| - 1]]
  }

  /** The pairs `(label, t.count(label))` for the given labels, in their order. */
  function CountsOf(labels: seq<string>, t: seq<string>): (rows: seq<(string, nat)>)
    ensures |rows| == |labels|
    ensures forall k :: 0 <= k < |rows| ==> rows[k] == (labels[k], Count(t, labels[k]))
  {
    if labels == [] then [] else [(labels[0], Count(t, labels[0]))] + CountsOf(labels[1..], t)
  }

  /** `list(status_counts.items())`. */
  function Counted(t: seq<string>): seq<(string, nat)>
  {
    CountsOf(FirstOccurrences(t), t)
  }

  /** The sum of the second column. */
  function Amounts(rows: seq<(string, nat)>): nat
  {
    if rows == [] then 0 else rows[0].1 + Amounts(rows[1..])
  }

  /** Places `x` in front of the first row whose label is not below its own. */
  function Insert(x: (string, nat), s: seq<(string, nat)>): (r: seq<(string, nat)>)
    ensures multiset(r) == multiset(s) + multiset{x}
    ensures Amounts(r) == x.1 + Amounts(s)
  {
    if s == [] || !Below(s[0].0, x.0) then [x] + s
    else
      assert s == [s[0]] + s[1..];
      [s[0]] + Insert(x, s[1..])
  }

  /** `rows.sort(key=lambda row: row[0])`, a stable sort by label. */
  function SortByLabel(s: seq<(string, nat)>): (r: seq<(string, nat)>)
    ensures multiset(r) == multiset(s)
    ensures Amounts(r) == Amounts(s)
  {
    if s == [] then []
    else
      assert s == [s[0]] + s[1..];
      Insert(s[0], SortByLabel(s[1..]))
  }

  predicate StrictlyAscending(s: seq<(string, nat)>)
  {
    forall i, j :: 0 <= i < j < |s| ==> Below(s[i].0, s[j].0)
  }

  predicate DistinctLabels(s: seq<(string, nat)>)
  {
    forall i, j :: 0 <= i < j < |s| ==> s[i].0 != s[j].0
  }

  /** The sorted body rows, `peps_per_status` after its sort. */
  function Summary(t: seq<string>): seq<(string, nat)>
  {
    SortByLabel(Counted(t))
  }

  /** `sum(status_counts.values())`. */
  function Total(t: seq<string>): nat
  {
    Amounts(Counted(t))
  }

  /** The table laid out: a header row, one row per (status, count) pair, a footer with the total. */
  function Table(body: seq<(string, nat)>, total: nat): seq<(Cell, Cell)>
  {
    [(Str("Status"), Str("Amount"))]
      + seq(|body|, k requires 0 <= k < |body| => (Str(body[k].0), Num(body[k].1)))
      + [(Str("Total"), Num(total))]
  }

  /** `header + peps_per_status + footer`. */
  function Build(t: seq<string>): seq<(Cell, Cell)>
  {
    Table(Summary(t), Total(t))
  }

  // ---------------------------------------------------------------------------
  // Sorting

  /** A row in front of ascending rows whose labels are all above its own keeps them ascending. */
  lemma AscendingCons(a: (string, nat), r: seq<(string, nat)>)
    requires StrictlyAscending(r)
    requires forall e :: e in r ==> Below(a.0, e.0)
    ensures StrictlyAscending([a] + r)
  {
    var ar := [a] + r;
    forall i, j | 0 <= i < j < |ar|
      ensures Below(ar[i].0, ar[j].0)
    {
      assert ar[j] == r[j - 1];
      if i > 0 {
        assert ar[i] == r[i - 1];
      }
    }
  }

  lemma InsertMembers(x: (string, nat), s: seq<(string, nat)>, e: (string, nat))
    requires e in Insert(x, s)
    ensures e == x || e in s
  {
    assert e in multiset(Insert(x, s));
  }

  lemma {:induction false} InsertAscending(x: (string, nat), s: seq<(string, nat)>)
    requires StrictlyAscending(s)
    requires forall k :: 0 <= k < |s| ==> s[k].0 != x.0
    ensures StrictlyAscending(Insert(x, s))
  {
    if s == [] {
    } else if !Below(s[0].0, x.0) {
      BelowTotal(x.0, s[0].0);
      forall e | e in s
        ensures Below(x.0, e.0)
      {
        var j :| 0 <= j < |s| && s[j] == e;
        if j > 0 {
          BelowTransitive(x.0, s[0].0, s[j].0);
        }
      }
      AscendingCons(x, s);
    } else {
      var rest := Insert(x, s[1..]);
      InsertAscending(x, s[1..]);
      forall e | e in rest
        ensures Below(s[0].0, e.0)
      {
        InsertMembers(x, s[1..], e);
        if e != x {
          var k :| 0 <= k < |s[1..]| && s[1..][k] == e;
          assert s[k + 1] == e;
        }
      }
      AscendingCons(s[0], rest);
    }
  }

  /** Sorting rows whose labels are distinct orders them strictly by label. */
  lemma {:induction false} SortAscending(s: seq<(string, nat)>)
    requires DistinctLabels(s)
    ensures StrictlyAscending(SortByLabel(s))
  {
    if s != [] {
      var rest := SortByLabel(s[1..]);
      SortAscending(s[1..]);
      forall k | 0 <= k < |rest|
        ensures rest[k].0 != s[0].0
      {
        assert rest[k] in multiset(s[1..]);
        var m :| 0 <= m < |s[1..]| && s[1..][m] == rest[k];
        assert s[m + 1] == rest[k];
      }
      InsertAscending(s[0], rest);
    }
  }

  // ---------------------------------------------------------------------------
  // Counting

  lemma {:induction false} CountsOfEmpty(labels: seq<string>)
    ensures Amounts(CountsOf(labels, [])) == 0
  {
    if labels != [] {
      CountsOfEmpty(labels[1..]);
    }
  }

  /** Adding one label `x` to the tally adds its multiplicity in `labels`. */
  lemma {:induction false} CountsOfCons(labels: seq<string>, x: string, t: seq<string>)
    ensures Amounts(CountsOf(labels, [x] + t)) == Count(labels, x) + Amounts(CountsOf(labels, t))
  {
    if labels != [] {
      CountsOfCons(labels[1..], x, t);
      assert labels == [labels[0]] + labels[1..];
      assert multiset([x] + t) == multiset{x} + multiset(t);
    }
  }

  lemma {:induction false} DistinctCountOne(d: seq<string>, x: string)
    requires Distinct(d) && x in d
    ensures Count(d, x) == 1
  {
    assert d == [d[0]] + d[1..];
    if d[0] == x {
      assert x !in d[1..];
    } else {
      DistinctCountOne(d[1..], x);
    }
  }

  /**
   * Counting each of a list of distinct labels that covers the tally, and
   * adding the counts up, gives the length of the tally.
   */
  lemma {:induction false} CountsCoverTally(labels: seq<string>, t: seq<string>)
    requires Distinct(labels)
    requires forall x :: x in t ==> x in labels
    ensures Amounts(CountsOf(labels, t)) == |t|
  {
    if t == [] {
      CountsOfEmpty(labels);
    } else {
      assert t == [t[0]] + t[1..];
      CountsOfCons(labels, t[0], t[1..]);
      DistinctCountOne(labels, t[0]);
      CountsCoverTally(labels, t[1..]);
    }
  }

  // ---------------------------------------------------------------------------
  // What the report says

  /** `status_counts` holds exactly the pairs `(x, t.count(x))` for the labels `x` of `t`. */
  lemma CountedIsCountTable(t: seq<string>)
    ensures forall row :: row in Counted(t) <==> row.0 in t && row.1 == Count(t, row.0)
    ensures DistinctLabels(Counted(t))
  {
    var d := FirstOccurrences(t);
    var c := Counted(t);
    forall row | row in c
      ensures row.0 in t && row.1 == Count(t, row.0)
    {
      var k :| 0 <= k < |c| && c[k] == row;
      assert d[k] in t;
    }
    forall x | x in t
      ensures (x, Count(t, x)) in c
    {
      var k :| 0 <= k < |d| && d[k] == x;
      assert c[k] == (x, Count(t, x));
    }
  }

  /**
   * The body rows: strictly ascending labels, each a status of the tally with
   * its positive number of occurrences, and every status of the tally present.
   */
  lemma SummaryIsCountTable(t: seq<string>)
    ensures StrictlyAscending(Summary(t))
    ensures forall row :: row in Summary(t) <==> row.0 in t && row.1 == Count(t, row.0)
    ensures forall row :: row in Summary(t) ==> row.1 > 0
  {
    var c := Counted(t);
    CountedIsCountTable(t);
    SortAscending(c);
    var body := Summary(t);
    assert multiset(body) == multiset(c);
    forall row
      ensures row in body <==> row in c
    {
      assert row in body <==> row in multiset(body);
      assert row in c <==> row in multiset(c);
    }
  }

  /** The Total row, the body's counts and the tally's length all agree. */
  lemma TotalIsTallySize(t: seq<string>)
    ensures Total(t) == |t|
    ensures Amounts(Summary(t)) == |t|
  {
    CountsCoverTally(FirstOccurrences(t), t);
  }

  /** Where each row of the laid-out table sits. */
  lemma TableShape(body: seq<(string, nat)>, total: nat)
    ensures |Table(body, total)| == |body| + 2
    ensures Table(body, total)[0] == (Str("Status"), Str("Amount"))
    ensures Table(body, total)[|body| + 1] == (Str("Total"), Num(total))
    ensures forall k :: 0 <= k < |body| ==> Table(body, total)[k + 1] == (Str(body[k].0), Num(body[k].1))
  {
  }

  /** The shape of the table handed to the output renderer. */
  lemma ReportShape(t: seq<string>)
    ensures |Build(t)| == |Summary(t)| + 2
    ensures Build(t)[0] == (Str("Status"), Str("Amount"))
    ensures Build(t)[|Build(t)| - 1] == (Str("Total"), Num(|t|))
    ensures forall k :: 0 <= k < |Summary(t)| ==>
      Build(t)[k + 1] == (Str(Summary(t)[k].0), Num(Summary(t)[k].1))
  {
    TableShape(Summary(t), Total(t));
    TotalIsTallySize(t);
  }
}
