/** The fixed table of status labels expected for each PEP category key. */
module Constants {

  /**
   * `EXPECTED_STATUS`: the key is the category marker of an index row with
   * its first character dropped; the empty key is the default category.
   */
  const ExpectedStatus: map<string, seq<string>> := map[
    "A" := ["Active", "Accepted"],
    "D" := ["Deferred"],
    "F" := ["Final"],
    "P" := ["Provisional"],
    "R" := ["Rejected"],
    "S" := ["Superseded"],
    "W" := ["Withdrawn"],
    "" := ["Draft", "Active"]
  ]

  lemma ExpectedKeys()
    ensures ExpectedStatus.Keys == {"A", "D", "F", "P", "R", "S", "W", ""}
  {
  }

  /** Every key is the empty default key or a single letter. */
  lemma KeysAreShort()
    ensures forall k :: k in ExpectedStatus ==> |k| <= 1
  {
    ExpectedKeys();
  }

  /** No category accepts nothing. */
  lemma ExpectationsNonEmpty()
    ensures forall k :: k in ExpectedStatus ==> |ExpectedStatus[k]| > 0
  {
  }

  lemma AcceptedUnderA()
    ensures forall s :: s in ExpectedStatus["A"] <==> s == "Active" || s == "Accepted"
  {
  }

  lemma DefaultCategoryAcceptsDraftAndActive()
    ensures forall s :: s in ExpectedStatus[""] <==> s == "Draft" || s == "Active"
  {
  }

  /** `Active` is the one label that two categories accept: `A` and the default. */
  lemma ActiveUnderTwoKeys()
    ensures forall k :: k in ExpectedStatus && "Active" in ExpectedStatus[k] <==> k == "A" || k == ""
  {
    ExpectedKeys();
  }

  /** Each of `D`, `F`, `P`, `R`, `S` and `W` accepts exactly one label. */
  lemma SingleStatusKeys()
    ensures forall k :: k in ExpectedStatus && k != "A" && k != "" ==> |ExpectedStatus[k]| == 1
    ensures ExpectedStatus["D"] == ["Deferred"] && ExpectedStatus["F"] == ["Final"]
    ensures ExpectedStatus["P"] == ["Provisional"] && ExpectedStatus["R"] == ["Rejected"]
    ensures ExpectedStatus["S"] == ["Superseded"] && ExpectedStatus["W"] == ["Withdrawn"]
  {
    ExpectedKeys();
  }
}
