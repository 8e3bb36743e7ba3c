/**
 The prediction summary shown after a successful upload: the number of rows
 predicted fraudulent (the sum of the prediction column), the number of safe
 rows (the rest) and the total number of rows.
 */
module Summaries {

  datatype Summary = Summary(fraud: int, safe: int, total: nat)

  /** Every prediction is a class label of a binary classifier. */
  predicate IsBinary(predictions: seq<int>)
  {
    forall i :: 0 <= i < |predictions| ==> predictions[i] == 0 || predictions[i] == 1
  }

  /** The column sum. */
  function Sum(s: seq<int>): (r: int)
    ensures IsBinary(s) ==> 0 <= r <= |s|
  {
    if s == [] then 0
    else
      assert IsBinary(s) ==> IsBinary(s[1..]) by {
        if IsBinary(s) {
          forall i | 0 <= i < |s[1..]| ensures s[1..][i] == 0 || s[1..][i] == 1 {
            assert s[1..][i] == s[i + 1];
          }
        }
      }
      s[0] + Sum(s[1..])
  }

  /** Summary of a prediction column with one entry per row. */
  function Summarize(predictions: seq<int>): (s: Summary)
    ensures s.total == |predictions|
    ensures s.fraud + s.safe == s.total
    ensures IsBinary(predictions) ==> 0 <= s.fraud <= s.total && 0 <= s.safe <= s.total
  {
    var fraud := Sum(predictions);
    Summary(fraud, |predictions| - fraud, |predictions|)
  }

  /** A binary column sums to its number of ones, which lies between 0 and its length. */
  lemma {:induction false} BinarySumCountsOnes(s: seq<int>)
    requires IsBinary(s)
    ensures Sum(s) == multiset(s)[1]
    ensures multiset(s)[0] + multiset(s)[1] == |s|
  {
    if s != [] {
      assert IsBinary(s[1..]) by {
        forall i | 0 <= i < |s[1..]| ensures s[1..][i] == 0 || s[1..][i] == 1 {
          assert s[1..][i] == s[i + 1];
        }
      }
      BinarySumCountsOnes(s[1..]);
      assert s == [s[0]] + s[1..];
      assert multiset(s) == multiset{s[0]} + multiset(s[1..]);
    }
  }

  /** For a binary column, the fraud count is the number of ones and the safe count the number of zeros. */
  lemma SummaryCountsLabels(predictions: seq<int>)
    requires IsBinary(predictions)
    ensures Summarize(predictions).fraud == multiset(predictions)[1]
    ensures Summarize(predictions).safe == multiset(predictions)[0]
  {
    BinarySumCountsOnes(predictions);
  }
}
