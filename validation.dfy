/**
 * `validate_data(df)`: collects every problem it finds, without stopping at
 * the first one, and reports the frame valid exactly when there is none.
 */
module Validation {
  import opened Tables
  import opened DimensionExtractor

  /** "'Campaign Name' column missing". */
  const MissingCampaignMessage: string := "缺少 'Campaign Name' 列"

  /** "the data frame is empty". */
  const EmptyMessage: string := "数据框为空"

  /** `df.empty`: no rows or no columns. */
  predicate IsEmpty(t: Table) {
    |t.rows| == 0 || |t.columns| == 0
  }

  /** A frame is empty exactly when it has no cell at all. */
  lemma EmptyMeansNoCells(t: Table)
    requires t.Valid()
    ensures IsEmpty(t) <==> forall i, c :: 0 <= i < |t.rows| ==> c !in t.rows[i]
  {
    if !IsEmpty(t) {
      assert t.columns[0] in ColumnSet(t.columns);
      assert t.columns[0] in t.rows[0];
    }
  }

  /** The problems of a frame, in the order they are checked. */
  function Problems(t: Table): (errors: seq<string>)
    ensures MissingCampaignMessage in errors <==> CampaignName !in t.columns
    ensures EmptyMessage in errors <==> IsEmpty(t)
    ensures forall i :: 0 <= i < |errors| ==> errors[i] == MissingCampaignMessage || errors[i] == EmptyMessage
    ensures Distinct(errors)
    ensures |errors| == 2 ==> errors == [MissingCampaignMessage, EmptyMessage]
  {
    (if CampaignName !in t.columns then [MissingCampaignMessage] else [])
      + (if IsEmpty(t) then [EmptyMessage] else [])
  }

  /** Runs both checks and appends a message for each one that fails. */
  method ValidateData(df: Table) returns (ok: bool, errors: seq<string>)
    ensures errors == Problems(df)
    ensures ok <==> errors == []
    ensures ok <==> CampaignName in df.columns && !IsEmpty(df)
  {
    errors := [];
    if CampaignName !in df.columns {
      errors := errors + [MissingCampaignMessage];
    }
    if IsEmpty(df) {
      errors := errors + [EmptyMessage];
    }
    ok := |errors| == 0;
  }

  /**
   * The validator only knows the English column name: a frame whose campaign
   * column is '广告活动' is reported as lacking 'Campaign Name', although
   * extraction accepts it.
   */
  lemma ChineseCampaignColumnRejected(t: Table)
    requires t.Valid() && CampaignName !in t.columns && CampaignNameZh in t.columns
    ensures ExtractAll(t).Ok?
    ensures MissingCampaignMessage in Problems(t)
  {
  }
}
