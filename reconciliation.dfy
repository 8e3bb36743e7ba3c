/**
 The feature reconciler: the fixed sequence of column rules the upload handler
 applies before it hands the table to the classifier.

   1. If `scaled_amount` is absent, synthesise it from `Amount`; without
      `Amount` either, the upload is rejected.
   2. Drop each of the label columns `Class`, `Target`, `Fraud`, `label` that
      is present.
   3. Drop `Amount` when `scaled_amount` is present.
   4. Reject the table when its column count differs from the number of
      features the classifier expects.

 `ReconcileHeader` is the specification of these rules on the header alone;
 the lemmas below characterise it independently of the rule order, and the
 method `Reconcile` runs the rules step by step on a `DataFrame`.
 */
module Reconciliation {
  import opened Columns
  import opened Frames

  const Amount := "Amount"
  const ScaledAmount := "scaled_amount"

  /** The label columns, in the order the handler tries to drop them. */
  const TargetColumns: seq<string> := ["Class", "Target", "Fraud", "label"]

  /** Every name the reconciler may remove from a header. */
  const Dropped: set<string> := {Amount, "Class", "Target", "Fraud", "label"}

  datatype ReconcileError =
    | MissingAmountColumn
    | FeatureCountMismatch(expected: nat, actual: nat)

  datatype Result<T> = Ok(value: T) | Err(error: ReconcileError)

  // ----- the rules, one function per step -----

  /** Rule 1 on the header, when it does not fail: `scaled_amount` goes last if it is new. */
  function WithScaledAmount(header: seq<string>): (r: seq<string>)
  {
    if ScaledAmount in header then header else header + [ScaledAmount]
  }

  function DropIfPresent(header: seq<string>, name: string): (r: seq<string>)
  {
    if name in header then Without(header, {name}) else header
  }

  /** Rule 2: drop each of `targets` in turn, the last one last. */
  function DropTargets(header: seq<string>, targets: seq<string>): (r: seq<string>)
  {
    if targets == [] then header
    else DropIfPresent(DropTargets(header, targets[..|targets| - 1]), targets[|targets| - 1])
  }

  /** Rule 3. */
  function DropAmount(header: seq<string>): (r: seq<string>)
  {
    if Amount in header && ScaledAmount in header then Without(header, {Amount}) else header
  }

  /** The header after rules 1 to 3, for a header that passes rule 1. */
  function Adjusted(header: seq<string>): (r: seq<string>)
  {
    DropAmount(DropTargets(WithScaledAmount(header), TargetColumns))
  }

  /** The outcome of reconciling a table with this header against a classifier expecting `expected` features. */
  function ReconcileHeader(header: seq<string>, expected: nat): (r: Result<seq<string>>)
    ensures r == Err(MissingAmountColumn) <==> ScaledAmount !in header && Amount !in header
    ensures r.Ok? ==>
      |r.value| == expected && ScaledAmount in r.value && forall c :: c in Dropped ==> c !in r.value
    ensures r.Err? && r.error.FeatureCountMismatch? ==>
      r.error.expected == expected && r.error.actual != expected
  {
    AdjustedIsFilter(header);
    if ScaledAmount !in header && Amount !in header then Err(MissingAmountColumn)
    else
      var adjusted := Adjusted(header);
      if |adjusted| != expected then Err(FeatureCountMismatch(expected, |adjusted|))
      else Ok(adjusted)
  }

  // ----- what the rules amount to -----

  /** Dropping the label columns one by one is dropping all of them at once. */
  lemma {:induction false} DropTargetsIsWithout(header: seq<string>, targets: seq<string>)
    ensures DropTargets(header, targets) == Without(header, set t | t in targets)
  {
    if targets == [] {
      assert (set t | t in targets) == {};
      WithoutNone(header, {});
    } else {
      var init, last := targets[..|targets| - 1], targets[|targets| - 1];
      DropTargetsIsWithout(header, init);
      var before := DropTargets(header, init);
      if last in before {
        WithoutWithout(header, set t | t in init, {last});
      } else {
        WithoutWithout(header, set t | t in init, {last});
        WithoutNone(before, {last});
      }
      assert (set t | t in init) + {last} == set t | t in targets by {
        assert targets == init + [last];
      }
    }
  }

  /**
   Order preservation: rules 1 to 3 keep every column except `Amount` and the
   label columns, in their original relative order, and add `scaled_amount`
   last when it was not already there.
   */
  lemma AdjustedIsFilter(header: seq<string>)
    ensures Adjusted(header) ==
      Without(header, Dropped) + (if ScaledAmount in header then [] else [ScaledAmount])
  {
    var scaled := WithScaledAmount(header);
    DropTargetsIsWithout(scaled, TargetColumns);
    var targets := set t | t in TargetColumns;
    assert targets == {"Class", "Target", "Fraud", "label"};
    var noTargets := DropTargets(scaled, TargetColumns);
    assert ScaledAmount in scaled;
    assert ScaledAmount in noTargets;
    if Amount in noTargets {
      WithoutWithout(scaled, targets, {Amount});
    } else {
      WithoutNone(noTargets, {Amount});
      WithoutWithout(scaled, targets, {Amount});
    }
    assert targets + {Amount} == Dropped;
    assert Adjusted(header) == Without(scaled, Dropped);
    if ScaledAmount !in header {
      WithoutAppend(header, [ScaledAmount], Dropped);
      assert Without([ScaledAmount], Dropped) == [ScaledAmount];
    }
  }

  /** A column survives rules 1 to 3 exactly when it was there or is `scaled_amount`, and it is neither `Amount` nor a label. */
  lemma AdjustedMembership(header: seq<string>, c: string)
    ensures c in Adjusted(header) <==> (c in header || c == ScaledAmount) && c !in Dropped
  {
    AdjustedIsFilter(header);
  }

  /** Rules 1 to 3 never introduce a repeated name. */
  lemma AdjustedDistinct(header: seq<string>)
    requires Distinct(header)
    ensures Distinct(Adjusted(header))
  {
    AdjustedIsFilter(header);
    var kept := Without(header, Dropped);
    WithoutDistinct(header, Dropped);
    if ScaledAmount !in header {
      AppendFresh(kept, ScaledAmount);
    }
  }

  /** Every column left after rules 1 to 3 was uploaded, or is `scaled_amount`. */
  lemma AdjustedFromInput(header: seq<string>)
    ensures forall c :: c in Adjusted(header) ==> c in header || c == ScaledAmount
  {
    forall c | c in Adjusted(header) ensures c in header || c == ScaledAmount {
      AdjustedMembership(header, c);
    }
  }

  /**
   The cells of the reconciled table, for a header that passes rule 1: each
   kept column holds its uploaded cells, and a synthesised `scaled_amount`
   holds the standardised `Amount` cells.
   */
  function ReconciledData(header: seq<string>, data: map<string, seq<Cell>>, rows: nat,
                          standardize: seq<Cell> -> seq<Cell>): (d: map<string, seq<Cell>>)
    requires forall c :: c in header ==> c in data && |data[c]| == rows
    requires ScaledAmount in header || Amount in header
    requires forall col :: |standardize(col)| == |col|
    ensures forall c :: c in d <==> c in Adjusted(header)
    ensures forall c :: c in d ==> |d[c]| == rows
  {
    AdjustedFromInput(header);
    map c | c in Adjusted(header) ::
      if c == ScaledAmount && ScaledAmount !in header then standardize(data[Amount]) else data[c]
  }

  /** A table whose columns are the adjusted ones, each holding the cells rules 1 to 3 leave there, holds `ReconciledData`. */
  lemma ReconciledDataOfCells(header: seq<string>, data: map<string, seq<Cell>>, rows: nat,
                              standardize: seq<Cell> -> seq<Cell>, d: map<string, seq<Cell>>)
    requires forall c :: c in data <==> c in header
    requires forall c :: c in header ==> |data[c]| == rows
    requires ScaledAmount in header || Amount in header
    requires forall col :: |standardize(col)| == |col|
    requires forall c :: c in d <==> c in Adjusted(header)
    requires forall c :: c in d && c != ScaledAmount ==> c in data && d[c] == data[c]
    requires ScaledAmount in d && ScaledAmount in data ==> d[ScaledAmount] == data[ScaledAmount]
    requires ScaledAmount in d && ScaledAmount !in data ==>
      Amount in data && d[ScaledAmount] == standardize(data[Amount])
    ensures d == ReconciledData(header, data, rows, standardize)
  {
    var e := ReconciledData(header, data, rows, standardize);
    assert d.Keys == e.Keys;
    forall c | c in d ensures d[c] == e[c] {
    }
  }

  // ----- the properties of reconciliation -----

  /** With `scaled_amount` present, rule 1 is skipped: the header never fails for a missing amount, even without `Amount`. */
  lemma ScaledAmountSkipsSynthesis(header: seq<string>, expected: nat)
    requires ScaledAmount in header
    ensures WithScaledAmount(header) == header
    ensures ReconcileHeader(header, expected) != Err(MissingAmountColumn)
  {
  }

  /** With `Amount` but no `scaled_amount`, a successful result ends with `scaled_amount` and has no `Amount`. */
  lemma SynthesisedScaledAmountLast(header: seq<string>, expected: nat)
    requires ScaledAmount !in header && Amount in header
    requires ReconcileHeader(header, expected).Ok?
    ensures var cols := ReconcileHeader(header, expected).value;
      cols == Without(header, Dropped) + [ScaledAmount] && Amount !in cols
  {
    AdjustedIsFilter(header);
  }

  /** On success, no label column and no `Amount` remain; every other input column does, and so does `scaled_amount`. */
  lemma SuccessDropsExactlyDropped(header: seq<string>, expected: nat)
    requires ReconcileHeader(header, expected).Ok?
    ensures var cols := ReconcileHeader(header, expected).value;
      ScaledAmount in cols &&
      (forall c :: c in Dropped ==> c !in cols) &&
      (forall c :: c in header && c !in Dropped ==> c in cols)
  {
    var cols := ReconcileHeader(header, expected).value;
    forall c ensures c in cols <==> (c in header || c == ScaledAmount) && c !in Dropped {
      AdjustedMembership(header, c);
    }
  }

  /** Rule 4: the header is rejected for its width exactly when the adjusted width is wrong, and the error carries both numbers; otherwise it is accepted with exactly `expected` columns. */
  lemma CountDecidesOutcome(header: seq<string>, expected: nat)
    requires ScaledAmount in header || Amount in header
    ensures var width := |Without(header, Dropped)| + (if ScaledAmount in header then 0 else 1);
      (width != expected ==> ReconcileHeader(header, expected) == Err(FeatureCountMismatch(expected, width))) &&
      (width == expected ==> ReconcileHeader(header, expected).Ok? &&
                             |ReconcileHeader(header, expected).value| == expected)
  {
    AdjustedIsFilter(header);
  }

  /** A header that already has `scaled_amount`, no `Amount` and no label column, and the right width, is accepted unchanged. */
  lemma ReconciledHeaderUnchanged(header: seq<string>)
    requires ScaledAmount in header
    requires forall c :: c in header ==> c !in Dropped
    ensures ReconcileHeader(header, |header|) == Ok(header)
  {
    AdjustedIsFilter(header);
    WithoutNone(header, Dropped);
    assert header + [] == header;
    assert Adjusted(header) == header;
  }

  /** Idempotence: reconciling an accepted header again accepts it unchanged. */
  lemma ReconcileIdempotent(header: seq<string>, expected: nat)
    requires ReconcileHeader(header, expected).Ok?
    ensures var cols := ReconcileHeader(header, expected).value;
      ReconcileHeader(cols, expected) == Ok(cols)
  {
    var cols := ReconcileHeader(header, expected).value;
    forall c | c in cols ensures c !in Dropped {
      AdjustedMembership(header, c);
    }
    AdjustedMembership(header, ScaledAmount);
    ReconciledHeaderUnchanged(cols);
  }

  // ----- worked examples -----

  lemma ExampleAmountReplaced()
    ensures ReconcileHeader(["Amount", "f1", "f2"], 3) == Ok(["f1", "f2", "scaled_amount"])
  {
    var header := ["Amount", "f1", "f2"];
    assert Without(["f1", "f2"], Dropped) == ["f1", "f2"] by {
      assert "f1" !in Dropped && "f2" !in Dropped;
      WithoutNone(["f1", "f2"], Dropped);
    }
    assert header[0] in Dropped && header[1..] == ["f1", "f2"];
    assert Without(header, Dropped) == ["f1", "f2"];
    assert ScaledAmount !in header;
    CountDecidesOutcome(header, 3);
    SynthesisedScaledAmountLast(header, 3);
    assert ["f1", "f2"] + [ScaledAmount] == ["f1", "f2", "scaled_amount"];
  }

  lemma ExampleLabelDropped()
    ensures ReconcileHeader(["scaled_amount", "f1", "Class"], 2) == Ok(["scaled_amount", "f1"])
  {
    var header := ["scaled_amount", "f1", "Class"];
    AdjustedIsFilter(header);
    assert header == ["scaled_amount", "f1"] + ["Class"];
    WithoutAppend(["scaled_amount", "f1"], ["Class"], Dropped);
    WithoutNone(["scaled_amount", "f1"], Dropped);
  }

  lemma ExampleNoAmount()
    ensures ReconcileHeader(["f1", "f2"], 3) == Err(MissingAmountColumn)
  {
  }

  lemma ExampleWidthMismatch()
    ensures ReconcileHeader(["Amount", "scaled_amount", "f1"], 1) == Err(FeatureCountMismatch(1, 2))
  {
    var header := ["Amount", "scaled_amount", "f1"];
    AdjustedIsFilter(header);
    assert header == ["Amount"] + ["scaled_amount", "f1"];
    WithoutAppend(["Amount"], ["scaled_amount", "f1"], Dropped);
    WithoutNone(["scaled_amount", "f1"], Dropped);
  }

  // ----- the handler's steps on the table -----

  /**
   Runs the rules on `df` in the handler's order. `standardize` stands for the
   scaler fitted to the uploaded `Amount` column. On a missing amount the table
   is left untouched; otherwise it holds the adjusted header, every surviving
   column keeps its cells, and a synthesised `scaled_amount` holds the
   standardised `Amount` cells.
   */
  method Reconcile(df: DataFrame, nFeaturesIn: nat, standardize: seq<Cell> -> seq<Cell>)
    returns (r: Result<seq<string>>)
    requires df.Valid()
    requires forall col :: |standardize(col)| == |col|
    modifies df
    ensures r == ReconcileHeader(old(df.columns), nFeaturesIn)
    ensures df.Valid() && df.rows == old(df.rows)
    ensures r == Err(MissingAmountColumn) ==> df.columns == old(df.columns) && df.data == old(df.data)
    ensures r != Err(MissingAmountColumn) ==> df.columns == Adjusted(old(df.columns))
    ensures r != Err(MissingAmountColumn) ==>
      df.data == ReconciledData(old(df.columns), old(df.data), old(df.rows), standardize)
    ensures forall c :: c in df.data && c != ScaledAmount ==> c in old(df.data) && df.data[c] == old(df.data)[c]
    ensures ScaledAmount in df.data && ScaledAmount in old(df.data) ==>
      df.data[ScaledAmount] == old(df.data)[ScaledAmount]
    ensures ScaledAmount in df.data && ScaledAmount !in old(df.data) ==>
      Amount in old(df.data) && df.data[ScaledAmount] == standardize(old(df.data)[Amount])
  {
    // Rule 1
    if ScaledAmount !in df.columns {
      if Amount in df.columns {
        df.Assign(ScaledAmount, standardize(df.data[Amount]));
      } else {
        return Err(MissingAmountColumn);
      }
    }
    assert df.columns == WithScaledAmount(old(df.columns));

    // Rule 2
    DropTargetColumns(df);

    // Rule 3
    if Amount in df.columns && ScaledAmount in df.columns {
      df.Drop(Amount);
    }
    ReconciledDataOfCells(old(df.columns), old(df.data), old(df.rows), standardize, df.data);

    // Rule 4
    if |df.columns| != nFeaturesIn {
      return Err(FeatureCountMismatch(nFeaturesIn, |df.columns|));
    }
    r := Ok(df.columns);
  }

  /** Rule 2 on the table: drops each label column that is present, in the handler's order. */
  method DropTargetColumns(df: DataFrame)
    requires df.Valid()
    modifies df
    ensures df.Valid() && df.rows == old(df.rows)
    ensures df.columns == DropTargets(old(df.columns), TargetColumns)
    ensures forall c :: c in df.data ==> c in old(df.data) && df.data[c] == old(df.data)[c]
  {
    for i := 0 to |TargetColumns|
      invariant df.Valid() && df.rows == old(df.rows)
      invariant df.columns == DropTargets(old(df.columns), TargetColumns[..i])
      invariant forall c :: c in df.data ==> c in old(df.data) && df.data[c] == old(df.data)[c]
    {
      assert TargetColumns[..i + 1][..i] == TargetColumns[..i];
      if TargetColumns[i] in df.columns {
        df.Drop(TargetColumns[i]);
      }
    }
    assert TargetColumns[..|TargetColumns|] == TargetColumns;
  }
}
