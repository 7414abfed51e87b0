/** One listing's output record: its metadata updated with its score summary. */
module Record {
  import opened Wrappers
  import opened PyDict
  import opened Dom
  import opened MetadataExtractor
  import opened ScoreExtractor

  /** A value of the output record: a metadata list, the average, or a count. */
  datatype Value = Strings(values: seq<string>) | Float(number: real) | Int(count: int)

  const AVERAGE_SCORE: string := "Average Score"
  const HIGH_SCORE: string := "High Score"
  const TOTAL_INSPECTIONS: string := "Total Inspections"

  /** The dictionary `extract_score_data` returns. */
  function ScoreDict(s: ScoreSummary): (e: Dict<Value>)
    ensures Valid(e)
    ensures Keys(e) == [AVERAGE_SCORE, HIGH_SCORE, TOTAL_INSPECTIONS]
    ensures Get(e, AVERAGE_SCORE) == Some(Float(s.average))
    ensures Get(e, HIGH_SCORE) == Some(Int(s.highScore))
    ensures Get(e, TOTAL_INSPECTIONS) == Some(Int(s.totalInspections))
  {
    var e := [Entry(AVERAGE_SCORE, Float(s.average)), Entry(HIGH_SCORE, Int(s.highScore)), Entry(TOTAL_INSPECTIONS, Int(s.totalInspections))];
    assert |AVERAGE_SCORE| == 13 && |HIGH_SCORE| == 10 && |TOTAL_INSPECTIONS| == 17;
    assert Keys(e) == [AVERAGE_SCORE, HIGH_SCORE, TOTAL_INSPECTIONS];
    assert e[1..][0].key == HIGH_SCORE;
    assert e[1..][1..][0].key == TOTAL_INSPECTIONS;
    e
  }

  /** The metadata dictionary with each list as a record value. */
  function FromMetadata(d: Dict<seq<string>>): (r: Dict<Value>)
    ensures Keys(r) == Keys(d)
    ensures Valid(d) ==> Valid(r)
    ensures forall k :: Get(r, k) == match Get(d, k) case Some(vs) => Some(Strings(vs)) case None => None
  {
    if d == [] then [] else [Entry(d[0].key, Strings(d[0].val))] + FromMetadata(d[1..])
  }

  /**
   * `data.update(extract_score_data(listing))`: the metadata keys keep their
   * place and, except for the three score keys, their values; the score
   * keys hold the summary, appended if they were not already there.
   */
  function ListingRecord(meta: Dict<seq<string>>, s: ScoreSummary): (r: Dict<Value>)
    ensures Valid(meta) ==> Valid(r)
    ensures |r| >= |meta| && Keys(r)[..|meta|] == Keys(meta)
    ensures forall k :: k in Keys(r) <==> k in Keys(meta) || k in [AVERAGE_SCORE, HIGH_SCORE, TOTAL_INSPECTIONS]
    ensures forall k :: k !in [AVERAGE_SCORE, HIGH_SCORE, TOTAL_INSPECTIONS] ==>
              Get(r, k) == match Get(meta, k) case Some(vs) => Some(Strings(vs)) case None => None
    ensures Get(r, AVERAGE_SCORE) == Some(Float(s.average))
    ensures Get(r, HIGH_SCORE) == Some(Int(s.highScore))
    ensures Get(r, TOTAL_INSPECTIONS) == Some(Int(s.totalInspections))
  {
    var d := FromMetadata(meta);
    var e := ScoreDict(s);
    assert Valid(meta) ==> Valid(Update(d, e)) by {
      if Valid(meta) { UpdateValid(d, e); }
    }
    assert forall k :: Get(Update(d, e), k) == if k in Keys(e) then Get(e, k) else Get(d, k) by {
      forall k ensures Get(Update(d, e), k) == if k in Keys(e) then Get(e, k) else Get(d, k) {
        UpdateGet(d, e, k);
      }
    }
    Update(d, e)
  }

  /**
   * Lines 146-147 for one listing: the metadata, then the scores merged in.
   * The first exception raised ends the run.
   */
  method ProcessListing(listing: Block) returns (r: Result<Dict<Value>, ScrapeError>)
    ensures listing.tbody.None? ==> r == Err(NoTableBody)
    ensures listing.tbody.Some? && HasBareRow(listing.descendants) ==> r == Err(NoFirstCell)
    ensures listing.tbody.Some? && !HasBareRow(listing.descendants) ==>
              r == Ok(ListingRecord(Metadata(Fields(TableRows(listing.tbody.value))),
                                    Summary(Scores(ThirdTexts(InspectionRows(listing.descendants))))))
  {
    var meta := ExtractRestaurantMetadata(listing);
    if meta.Err? {
      return Err(meta.error);
    }
    var scores := ExtractScoreData(listing);
    if scores.Err? {
      return Err(scores.error);
    }
    var data := FromMetadata(meta.value);
    data := Update(data, ScoreDict(scores.value));
    r := Ok(data);
  }
}
