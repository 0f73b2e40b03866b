/**
 * The worked examples of the extractor's doc strings and of the derived
 * metrics, as lemmas about the model.
 */
module Examples {
  import opened Text
  import opened Wrappers
  import opened Tables
  import opened Formatting
  import opened DimensionExtractor
  import opened Aggregation
  import opened CrossMode

  lemma TwoTokens()
    ensures Split("SP-US 模式A1") == ["SP-US", "模式A1"]
  {
    var parts := ["SP-US", "模式A1"];
    assert IsToken(parts[0]) && IsToken(parts[1]);
    assert Join(parts) == "SP-US 模式A1";
    SplitJoin(parts);
  }

  lemma ThreeTokens()
    ensures Split("SP-US 模式A1 品类B") == ["SP-US", "模式A1", "品类B"]
  {
    var parts := ["SP-US", "模式A1", "品类B"];
    assert IsToken(parts[0]) && IsToken(parts[1]) && IsToken(parts[2]);
    assert parts[1..] == ["模式A1", "品类B"] && parts[1..][1..] == ["品类B"];
    assert Join(parts) == "SP-US 模式A1 品类B";
    SplitJoin(parts);
  }

  /** The three extractors read the tokens `Split` returns. */
  lemma ExtractsTokens(s: string, parts: seq<string>)
    requires Split(s) == parts
    ensures ParentCode(Str(s)) == if |parts| > 0 then parts[0] else Unclassified
    ensures Pattern(Str(s)) == if |parts| > 1 then parts[1] else Unclassified
    ensures Attribute(Str(s)) == if |parts| > 2 then parts[2] else Unclassified
  {
  }

  /** "SP-US 模式A1" has a Parent Code and a Pattern but no Attribute. */
  lemma ExtractTwoTokens()
    ensures ParentCode(Str("SP-US 模式A1")) == "SP-US"
    ensures Pattern(Str("SP-US 模式A1")) == "模式A1"
    ensures Attribute(Str("SP-US 模式A1")) == Unclassified
  {
    TwoTokens();
    ExtractsTokens("SP-US 模式A1", ["SP-US", "模式A1"]);
  }

  /** "SP-US 模式A1 品类B" has all three. */
  lemma ExtractThreeTokens()
    ensures ParentCode(Str("SP-US 模式A1 品类B")) == "SP-US"
    ensures Pattern(Str("SP-US 模式A1 品类B")) == "模式A1"
    ensures Attribute(Str("SP-US 模式A1 品类B")) == "品类B"
  {
    ThreeTokens();
    ExtractsTokens("SP-US 模式A1 品类B", ["SP-US", "模式A1", "品类B"]);
  }

  /** A campaign cell that is not a string (NaN, a number) is unclassified in every dimension. */
  lemma ExtractNonString(c: Cell)
    requires !c.Str?
    ensures ParentCode(c) == Unclassified && Pattern(c) == Unclassified && Attribute(c) == Unclassified
  {
  }

  /** 20 clicks on 400 impressions: CTR "5.00%". */
  lemma ClickThroughExample()
    ensures MetricText(CTR, 20.0, 400.0) == "5.00%"
  {
    assert 100.0 * (20.0 / 400.0) == 5.0;
    assert RoundHalfEven(500.0) == 500;
    assert NatText(5) == "5";
    assert Pad2(0) == "00";
  }

  /** Sales 0 on spend 50: ROAS is a finite zero, "0.00x", not "-". */
  lemma ZeroSalesReturn()
    ensures MetricText(ROAS, 0.0, 50.0) == "0.00x"
  {
    assert RoundHalfEven(0.0) == 0;
    assert NatText(0) == "0";
    assert Pad2(0) == "00";
  }

  /** Spend 50 on zero sales: ACoS divides by zero and shows "inf%", not "-". */
  lemma ZeroSalesCost()
    ensures MetricText(ACoS, 50.0, 0.0) == "inf%"
  {
  }

  /** A group without clicks and impressions: CTR is 0/0, shown as "-". */
  lemma NoTrafficRate()
    ensures MetricText(CTR, 0.0, 0.0) == "-"
  {
  }

  /** "Region" is not a dimension: single mode refuses it. */
  lemma UnknownDimension(t: Table)
    requires t.Valid()
    ensures SingleSummary(t, "Region") == Err(InvalidDimension)
  {
  }

  /** Cross mode refuses the same dimension twice. */
  lemma SameDimensionTwice(t: Table)
    requires t.Valid()
    ensures CrossSummary(t, "Pattern", "Pattern") == Err(DuplicateDimension)
  {
  }

  /**
   * An upload with nothing but a 'Campaign Name' column: after extraction
   * every column is excluded from the sums, so both modes call `agg({})`,
   * which raises.
   */
  lemma CampaignOnlyUpload(rows: seq<Row>)
    requires Table([CampaignName], rows).Valid()
    ensures ExtractAll(Table([CampaignName], rows)).Ok?
    ensures var e := ExtractAll(Table([CampaignName], rows)).value;
      && e.Valid() && SumColumns(e.columns) == []
      && SingleSummary(e, ParentCodeColumn) == Err(NoObjectsToConcatenate)
      && CrossSummary(e, ParentCodeColumn, PatternColumn) == Err(NoObjectsToConcatenate)
  {
    var t := Table([CampaignName], rows);
    ExtractedValid(t, CampaignName);
    OnlyExcludedColumns(Extracted(t, CampaignName));
  }

  /** A frame holding the dimension columns and no column outside the excluded four has nothing to sum in either mode. */
  lemma OnlyExcludedColumns(e: Table)
    requires e.Valid() && ColumnSet(e.columns) == ColumnSet([CampaignName]) + ColumnSet(DimensionColumns)
    ensures SumColumns(e.columns) == []
    ensures SingleSummary(e, ParentCodeColumn) == Err(NoObjectsToConcatenate)
    ensures CrossSummary(e, ParentCodeColumn, PatternColumn) == Err(NoObjectsToConcatenate)
  {
    assert ParentCodeColumn in ColumnSet(e.columns) && PatternColumn in ColumnSet(e.columns);
    forall i | 0 <= i < |e.columns| ensures e.columns[i] in NotSummed {
      assert e.columns[i] in ColumnSet(e.columns);
    }
    NothingSummed(e.columns);
  }
}
