/**
 Inference and the upload pipeline: reconcile the uploaded table, run the
 classifier on it, attach the `Fraud Prediction` and `Fraud Probability`
 columns, and summarise the predictions.
 */
module Detection {
  import opened Columns
  import opened Frames
  import opened Reconciliation
  import opened Summaries

  const FraudPrediction := "Fraud Prediction"
  const FraudProbability := "Fraud Probability"

  /**
   The loaded classifier, seen only through what the handler uses: the number
   of features it was trained on, and its answers for one feature row, a class
   label and the probability of the fraud class.
   */
  datatype Model = Model(nFeaturesIn: nat, classify: seq<Cell> -> int, fraudProbability: seq<Cell> -> Cell)
  {
    /** A binary classifier labels every row 0 or 1. */
    ghost predicate Valid()
    {
      forall row :: classify(row) == 0 || classify(row) == 1
    }

    /** `predict`: one label per row of the array, each the answer for that row. */
    function Predict(m: Matrix): (labels: seq<int>)
      ensures |labels| == |m|
      ensures forall i :: 0 <= i < |m| ==> labels[i] == classify(m[i])
    {
      if m == [] then [] else [classify(m[0])] + Predict(m[1..])
    }

    /** Column 1 of `predict_proba`: the fraud probability of each row of the array. */
    function PredictFraudProbability(m: Matrix): (probabilities: seq<Cell>)
      ensures |probabilities| == |m|
      ensures forall i :: 0 <= i < |m| ==> probabilities[i] == fraudProbability(m[i])
    {
      if m == [] then [] else [fraudProbability(m[0])] + PredictFraudProbability(m[1..])
    }
  }

  /** A binary classifier's predictions for any array are a 0/1 column. */
  lemma PredictIsBinary(model: Model, m: Matrix)
    requires model.Valid()
    ensures IsBinary(model.Predict(m))
  {
    var labels := model.Predict(m);
    forall i | 0 <= i < |labels| ensures labels[i] == 0 || labels[i] == 1 {
      assert labels[i] == model.classify(m[i]);
    }
  }

  /** Each label as an integer cell. */
  function LabelCells(labels: seq<int>): (cells: seq<Cell>)
    ensures |cells| == |labels|
    ensures forall i :: 0 <= i < |labels| ==> cells[i] == Int(labels[i])
  {
    if labels == [] then [] else [Int(labels[0])] + LabelCells(labels[1..])
  }

  /** The header of the result table: the two result columns assigned after the reconciled ones. */
  function ResultHeader(reconciled: seq<string>): (r: seq<string>)
    ensures FraudPrediction in r && FraudProbability in r
    ensures |reconciled| <= |r| <= |reconciled| + 2 && r[..|reconciled|] == reconciled
    ensures forall c :: c in r ==> c in reconciled || c == FraudPrediction || c == FraudProbability
  {
    AssignedHeader(AssignedHeader(reconciled, FraudPrediction), FraudProbability)
  }

  /** When neither result column is already present, the result table gains exactly the two of them, last. */
  lemma ResultHeaderAppendsTwo(reconciled: seq<string>)
    requires FraudPrediction !in reconciled && FraudProbability !in reconciled
    ensures ResultHeader(reconciled) == reconciled + [FraudPrediction, FraudProbability]
  {
    assert FraudPrediction != FraudProbability;
  }

  /** A result column already present is overwritten in place, so the width grows by less than two. */
  lemma ResultHeaderOverwrites(reconciled: seq<string>)
    requires FraudPrediction in reconciled || FraudProbability in reconciled
    ensures |ResultHeader(reconciled)| < |reconciled| + 2
    ensures ResultHeader(reconciled)[..|reconciled|] == reconciled
  {
  }

  /**
   Runs the classifier on the table once and stores its answers as two
   columns. Row `i` of both columns is the classifier's answer for row `i`
   of the table; every other column is untouched.
   */
  method AttachPredictions(df: DataFrame, model: Model) returns (predictions: seq<int>)
    requires df.Valid() && model.Valid()
    modifies df
    ensures predictions == model.Predict(old(df.Matrix()))
    ensures |predictions| == df.rows == old(df.rows) && IsBinary(predictions)
    ensures df.Valid()
    ensures df.columns == ResultHeader(old(df.columns))
    ensures df.data == old(df.data)[FraudPrediction := LabelCells(predictions)]
                                   [FraudProbability := model.PredictFraudProbability(old(df.Matrix()))]
  {
    var input := df.Matrix();
    predictions := model.Predict(input);
    var probabilities := model.PredictFraudProbability(input);
    PredictIsBinary(model, input);
    df.Assign(FraudPrediction, LabelCells(predictions));
    df.Assign(FraudProbability, probabilities);
  }

  /**
   The upload handler after the table is read: reconcile, predict, summarise.
   A rejected upload reports the reconciler's error. An accepted one leaves in
   `df` the reconciled cells plus the classifier's answers for each reconciled
   row, and returns the summary of those answers.
   */
  method DetectFraud(df: DataFrame, model: Model, standardize: seq<Cell> -> seq<Cell>)
    returns (r: Result<Summary>)
    requires df.Valid() && model.Valid()
    requires forall col :: |standardize(col)| == |col|
    modifies df
    ensures df.Valid() && df.rows == old(df.rows)
    ensures r.Err? <==> ReconcileHeader(old(df.columns), model.nFeaturesIn).Err?
    ensures r.Err? ==> r.error == ReconcileHeader(old(df.columns), model.nFeaturesIn).error
    ensures r.Ok? ==> ScaledAmount in old(df.columns) || Amount in old(df.columns)
    ensures r.Ok? ==>
      var reconciled := Adjusted(old(df.columns));
      var cells := ReconciledData(old(df.columns), old(df.data), old(df.rows), standardize);
      var input := RowMajor(reconciled, cells, old(df.rows));
      |reconciled| == model.nFeaturesIn &&
      df.columns == ResultHeader(reconciled) &&
      df.data == cells[FraudPrediction := LabelCells(model.Predict(input))]
                      [FraudProbability := model.PredictFraudProbability(input)] &&
      r.value == Summarize(model.Predict(input))
    ensures r.Ok? ==>
      r.value.total == old(df.rows) && r.value.fraud + r.value.safe == r.value.total &&
      0 <= r.value.fraud <= r.value.total
  {
    var reconciled := Reconcile(df, model.nFeaturesIn, standardize);
    if reconciled.Err? {
      return Err(reconciled.error);
    }
    var predictions := AttachPredictions(df, model);
    r := Ok(Summarize(predictions));
  }
}
