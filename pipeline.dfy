/**
 * The branch logic of `combined_pipeline`, with every hosted-model answer already in hand:
 * whether the upload produced a file, the classification reply, the freshness reply and
 * the product-detail reply (`None` when the call returned no response object).
 */
module Pipeline {
  import opened Wrappers
  import opened Text
  import opened ProductParser
  import opened Classification
  import opened Freshness

  /** What a run ends with, in place of the banner or table the app shows. */
  datatype Outcome =
    | UploadFailed
    | FreshnessScore(index: nat)
    | NoFreshnessNumber
    | NoProductDetails
    | ProductTable(rows: seq<Record>)
    | ParserRaised(error: ParseError)

  /** `generate_product_details`: the stripped reply text, or the empty string when there is no response. */
  function ProductText(reply: Option<string>): (t: string)
    ensures reply.None? ==> t == ""
    ensures reply.Some? ==> StrippedOf(reply.value, t)
  {
    match reply
    case None => ""
    case Some(text) => Strip(text)
  }

  /** `combined_pipeline` from the upload check to the last banner or table. */
  function CombinedPipeline(uploaded: bool, classifyReply: string, freshnessReply: string,
                            productReply: Option<string>): Outcome
  {
    if !uploaded then UploadFailed
    else if IsProduce(classifyReply) then
      match FreshnessIndex(freshnessReply)
      case Some(n) => FreshnessScore(n)
      case None => NoFreshnessNumber
    else
      var text := ProductText(productReply);
      if text == "" then NoProductDetails
      else
        match Parse(text)
        case Success(rows) => ProductTable(rows)
        case Failure(e) => ParserRaised(e)
  }

  /** Without an uploaded file no reply matters. */
  lemma NoUploadStops(classifyReply: string, freshnessReply: string, productReply: Option<string>)
    ensures CombinedPipeline(false, classifyReply, freshnessReply, productReply) == UploadFailed
  {
  }

  /** Fruit or vegetables: the outcome is the freshness index, and the product-detail reply is never looked at. */
  lemma ProduceBranch(classifyReply: string, freshnessReply: string, productReply: Option<string>)
    requires IsProduce(classifyReply)
    ensures var o := CombinedPipeline(true, classifyReply, freshnessReply, productReply);
            (o.FreshnessScore? || o.NoFreshnessNumber?) &&
            (o.FreshnessScore? <==> FreshnessIndex(freshnessReply).Some?) &&
            (o.FreshnessScore? ==> FreshnessIndex(freshnessReply) == Some(o.index))
    ensures forall other :: CombinedPipeline(true, classifyReply, freshnessReply, other)
                            == CombinedPipeline(true, classifyReply, freshnessReply, productReply)
  {
  }

  /** Any other classification reply: the outcome comes from the product-detail reply alone. */
  lemma ProductBranch(classifyReply: string, freshnessReply: string, productReply: Option<string>)
    requires !IsProduce(classifyReply)
    ensures var o := CombinedPipeline(true, classifyReply, freshnessReply, productReply);
            !o.FreshnessScore? && !o.NoFreshnessNumber? && !o.UploadFailed? &&
            (o.NoProductDetails? <==> ProductText(productReply) == "")
    ensures forall c, f :: !IsProduce(c) ==>
              CombinedPipeline(true, c, f, productReply) == CombinedPipeline(true, classifyReply, freshnessReply, productReply)
  {
  }

  /** A reply of nothing but whitespace leaves no product text. */
  lemma BlankReplyHasNoText(text: string)
    requires AllSpace(text)
    ensures ProductText(Some(text)) == ""
  {
    var r := Strip(text);
    var i :| 0 <= i <= |text| && StrippedAt(text, r, i);
  }

  /** The table holds one row per line of the stripped reply, each parsed on its own, in order. */
  lemma TableRows(classifyReply: string, freshnessReply: string, productReply: Option<string>)
    requires CombinedPipeline(true, classifyReply, freshnessReply, productReply).ProductTable?
    ensures var text := ProductText(productReply);
            var lines := Split(text, "\n");
            var rows := CombinedPipeline(true, classifyReply, freshnessReply, productReply).rows;
            |rows| == |lines| == multiset(text)['\n'] + 1 &&
            forall i :: 0 <= i < |lines| ==> ParseSection(lines[i]) == Success(rows[i])
  {
    OneRecordPerLine(ProductText(productReply));
  }
}
