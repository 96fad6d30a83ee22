/**
 * A worked run of the reconciliation pass: an index with a PEP of category
 * `A` declaring `Accepted` and a PEP of the unknown category `Z` declaring
 * `Draft`.
 */
module PepExample {
  import opened Wrappers
  import opened Text
  import opened Constants
  import opened Pep
  import Report

  /** Two PEP-number cells around a title cell, which is not a digit run. */
  const Cells := [
    IndexCell("1", Some("PA"), Some("u1")),
    IndexCell("Title", Some("1"), None),
    IndexCell("2", Some("PZ"), Some("u2"))
  ]

  const Page1 := [Term("Type:", Some("Process")), Term("Status", Some("Accepted"))]
  const Page2 := [Term("Status", Some("Draft"))]

  /** A web whose URLs are the links themselves, and where only `u1` and `u2` load. */
  const ExampleWeb := Web(
    href => href,
    url => if url == "u1" then Some(FieldList(Page1)) else if url == "u2" then Some(FieldList(Page2)) else None)

  lemma ExampleRefs()
    ensures PepRefs(Cells) == [Cells[0], Cells[2]]
  {
    assert !IsDigit("Title"[0]) && !IsDigit("Title"[..4][0]);
    assert IsDigitRun("1") && IsDigitRun("2") && !IsDigitRun("Title");
    assert Cells[1..][1..] == [Cells[2]];
  }

  lemma ExamplePage1()
    ensures ScanTerms("A", "u1", Page1) == Ok(Scan(["Accepted"], []))
  {
    ShorterDoesNotContain("Type:", "Status");
    assert Contains("Status", "Status");
    assert "Accepted" in ExpectedStatus["A"];
    assert Page1[1..] == [Term("Status", Some("Accepted"))];
    assert ScanTerms("A", "u1", Page1) == ScanTerms("A", "u1", Page1[1..]);
  }

  lemma ExamplePage2()
    ensures ScanTerms("Z", "u2", Page2) == Ok(Scan(["Draft"], [UnknownKey("Z", "u2")]))
  {
    assert Contains("Status", "Status");
    ExpectedKeys();
    assert "Z" !in ExpectedStatus;
    assert ScanTerms("Z", "u2", Page2[1..]) == Ok(Empty);
  }

  lemma ExampleSecondRow()
    ensures ScanRows([Cells[2]], ExampleWeb) == Ok(Scan(["Draft"], [UnknownKey("Z", "u2")]))
  {
    var c := IndexCell("2", Some("PZ"), Some("u2"));
    assert ExampleWeb.fetch("u2") == Some(FieldList(Page2));
    assert CategoryKey("PZ") == "Z";
    ExamplePage2();
    assert [c][1..] == [];
    assert ScanRows([c], ExampleWeb) == ScanRow(c, [], ExampleWeb);
  }

  lemma ExampleFirstRow()
    ensures ScanRows([Cells[0], Cells[2]], ExampleWeb) == Ok(Scan(["Accepted", "Draft"], [UnknownKey("Z", "u2")]))
  {
    var c := IndexCell("1", Some("PA"), Some("u1"));
    var rest := [Cells[2]];
    assert ExampleWeb.resolve("u1") == "u1";
    assert ExampleWeb.fetch("u1") == Some(FieldList(Page1));
    assert CategoryKey("PA") == "A";
    ExamplePage1();
    ExampleSecondRow();
    assert ScanRow(c, rest, ExampleWeb) == Then(Ok(Scan(["Accepted"], [])), rest, ExampleWeb);
    assert ["Accepted"] + ["Draft"] == ["Accepted", "Draft"];
    assert [c, Cells[2]][1..] == rest;
  }

  lemma ExampleScan()
    ensures ScanRows(PepRefs(Cells), ExampleWeb) == Ok(Scan(["Accepted", "Draft"], [UnknownKey("Z", "u2")]))
  {
    ExampleRefs();
    ExampleFirstRow();
  }

  lemma ExampleCounted()
    ensures Report.Counted(["Accepted", "Draft"]) == [("Accepted", 1), ("Draft", 1)]
  {
    var tally := ["Accepted", "Draft"];
    assert tally[..1] == ["Accepted"];
    assert Report.FirstOccurrences(tally) == tally;
  }

  lemma ExampleSorted()
    ensures Report.SortByLabel([("Accepted", 1), ("Draft", 1)]) == [("Accepted", 1), ("Draft", 1)]
  {
    var rows: seq<(string, nat)> := [("Accepted", 1), ("Draft", 1)];
    assert rows[1..] == [("Draft", 1)];
    assert Report.SortByLabel(rows[1..]) == [("Draft", 1)];
    assert Below("Accepted", "Draft");
  }

  lemma ExampleSummary()
    ensures Report.Summary(["Accepted", "Draft"]) == [("Accepted", 1), ("Draft", 1)]
    ensures Report.Total(["Accepted", "Draft"]) == 2
  {
    ExampleCounted();
    ExampleSorted();
    Report.TotalIsTallySize(["Accepted", "Draft"]);
  }

  lemma ExampleTable()
    ensures Report.Table([("Accepted", 1), ("Draft", 1)], 2) ==
      [ (Report.Str("Status"), Report.Str("Amount")),
        (Report.Str("Accepted"), Report.Num(1)),
        (Report.Str("Draft"), Report.Num(1)),
        (Report.Str("Total"), Report.Num(2)) ]
  {
    Report.TableShape([("Accepted", 1), ("Draft", 1)], 2);
  }

  lemma ExampleReport()
    ensures Report.Build(["Accepted", "Draft"]) ==
      [ (Report.Str("Status"), Report.Str("Amount")),
        (Report.Str("Accepted"), Report.Num(1)),
        (Report.Str("Draft"), Report.Num(1)),
        (Report.Str("Total"), Report.Num(2)) ]
  {
    ExampleSummary();
    ExampleTable();
  }

  /**
   * The consistent PEP is only counted; the PEP with the unknown key is logged
   * and still counted.
   */
  lemma UnknownKeyExample()
    ensures Reconcile(Some(IndexTable(Cells)), ExampleWeb) ==
      Exceptions.Returned(PepResult(
        [ (Report.Str("Status"), Report.Str("Amount")),
          (Report.Str("Accepted"), Report.Num(1)),
          (Report.Str("Draft"), Report.Num(1)),
          (Report.Str("Total"), Report.Num(2)) ],
        [UnknownKey("Z", "u2")]))
  {
    ExampleScan();
    ExampleReport();
  }
}
