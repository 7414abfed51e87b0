/** `is_inspection_row` and `extract_score_data`: count, sum and maximum of a listing's inspection scores. */
module ScoreExtractor {
  import opened Wrappers
  import opened Text
  import opened Dom
  import Seqs

  /** The first direct cell's text, cleaned and lower-cased. */
  function FirstText(row: Row): string
    requires |Tds(row)| > 0
  {
    Lower(Clean(Tds(row)[0].text))
  }

  /**
   * `is_inspection_row`: a `tr` with four direct `td`s whose first cell
   * mentions "inspection" without starting with it. A `tr` without any direct
   * `td` raises at `td[0]`, before the count is looked at.
   */
  function IsInspectionRow(row: Row): (r: Result<bool, ScrapeError>)
    ensures r.Err? <==> row.tag == "tr" && |Tds(row)| == 0
    ensures r.Err? ==> r.error == NoFirstCell
    ensures r == Ok(true) <==>
              && row.tag == "tr"
              && |Tds(row)| == 4
              && Contains(FirstText(row), "inspection")
              && !StartsWith(FirstText(row), "inspection")
  {
    if row.tag != "tr" then Ok(false)
    else
      var td := Tds(row);
      if |td| == 0 then Err(NoFirstCell)
      else
        var text := Lower(Clean(td[0].text));
        Ok(|td| == 4 && Contains(text, "inspection") && !StartsWith(text, "inspection"))
  }

  predicate Selected(row: Row) {
    IsInspectionRow(row) == Ok(true)
  }

  /**
   * In an accepted row the word "inspection" occurs in the first cell's text,
   * but not at its start: header rows that begin with the word are skipped.
   */
  lemma SelectedWordNotAtStart(row: Row)
    requires Selected(row)
    ensures |Tds(row)| == 4
    ensures exists i :: 1 <= i <= |FirstText(row)| && StartsWith(FirstText(row)[i..], "inspection")
  {
    var text := FirstText(row);
    assert text[0..] == text;
    var i :| 0 <= i <= |text| && StartsWith(text[i..], "inspection");
  }

  /** Some element is a `tr` without a direct `td`, on which `is_inspection_row` raises. */
  predicate HasBareRow(rows: seq<Row>) {
    exists i :: 0 <= i < |rows| && rows[i].tag == "tr" && |Tds(rows[i])| == 0
  }

  /**
   * `element.find_all(is_inspection_row)` over the listing's descendants, in
   * document order: the rows the test accepts, or the test's exception.
   */
  function SelectInspectionRows(rows: seq<Row>): (r: Result<seq<Row>, ScrapeError>)
    ensures r == if HasBareRow(rows) then Err(NoFirstCell) else Ok(InspectionRows(rows))
  {
    if rows == [] then Ok([])
    else
      assert HasBareRow(rows) <==> (rows[0].tag == "tr" && |Tds(rows[0])| == 0) || HasBareRow(rows[1..]) by {
        if HasBareRow(rows[1..]) {
          var i :| 0 <= i < |rows[1..]| && rows[1..][i].tag == "tr" && |Tds(rows[1..][i])| == 0;
          assert rows[i + 1] == rows[1..][i];
        }
        if HasBareRow(rows) && !(rows[0].tag == "tr" && |Tds(rows[0])| == 0) {
          var i :| 0 <= i < |rows| && rows[i].tag == "tr" && |Tds(rows[i])| == 0;
          assert rows[1..][i - 1] == rows[i];
        }
      }
      match IsInspectionRow(rows[0])
      case Err(e) => Err(e)
      case Ok(b) =>
        match SelectInspectionRows(rows[1..])
        case Err(e) => Err(e)
        case Ok(rest) => Ok((if b then [rows[0]] else []) + rest)
  }

  /** The rows `is_inspection_row` accepts, in document order. */
  function InspectionRows(rows: seq<Row>): (sel: seq<Row>)
    ensures |sel| <= |rows|
    ensures forall i :: 0 <= i < |sel| ==> Selected(sel[i]) && |Tds(sel[i])| == 4
    ensures forall r :: r in sel <==> r in rows && Selected(r)
  {
    var sel := Seqs.Filter(Selected, rows);
    assert forall i :: 0 <= i < |sel| ==> |Tds(sel[i])| == 4 by {
      forall i | 0 <= i < |sel| ensures |Tds(sel[i])| == 4 {
        assert Selected(sel[i]);
      }
    }
    sel
  }

  /** The cleaned text of the third direct cell of an inspection row. */
  function ThirdText(row: Row): string
    requires |Tds(row)| == 4
  {
    Clean(Tds(row)[2].text)
  }

  /** The cleaned third cells of the selected rows, in row order. */
  function ThirdTexts(rows: seq<Row>): seq<string>
    requires forall i :: 0 <= i < |rows| ==> |Tds(rows[i])| == 4
  {
    seq(|rows|, i requires 0 <= i < |rows| && |Tds(rows[i])| == 4 => ThirdText(rows[i]))
  }

  /** The texts that parse as integers, parsed, in order. */
  function Scores(texts: seq<string>): (xs: seq<int>)
    ensures |xs| <= |texts|
    ensures forall k :: 0 <= k < |xs| ==> xs[k] >= 0
  {
    if texts == [] then []
    else
      Scores(texts[..|texts| - 1]) + match ParseInt(texts[|texts| - 1]) case Some(v) => [v] case None => []
  }

  /** A cleaned third cell that `int()` accepts. */
  predicate Parses(text: string) {
    ParseInt(text).Some?
  }

  /**
   * One score per text that parses and no other: there are as many scores as
   * such texts, and each score is the value of one of them.
   */
  lemma {:induction false} ScoresOfParsed(texts: seq<string>)
    ensures |Scores(texts)| == |Seqs.Filter(Parses, texts)|
    ensures forall x :: x in Scores(texts) <==> exists i :: 0 <= i < |texts| && ParseInt(texts[i]) == Some(x)
  {
    if texts != [] {
      var n := |texts| - 1;
      var prev, t := texts[..n], texts[n];
      assert texts == prev + [t];
      ScoresOfParsed(prev);
      Seqs.FilterConcat(Parses, prev, [t]);
      assert Seqs.Filter(Parses, [t]) == if Parses(t) then [t] else [] by {
        assert [t][1..] == [];
      }
      forall x ensures x in Scores(texts) <==> exists i :: 0 <= i < |texts| && ParseInt(texts[i]) == Some(x) {
        if exists i :: 0 <= i < |texts| && ParseInt(texts[i]) == Some(x) {
          var i :| 0 <= i < |texts| && ParseInt(texts[i]) == Some(x);
          if i < n {
            assert ParseInt(prev[i]) == Some(x);
          }
        }
        if x in Scores(prev) {
          var i :| 0 <= i < |prev| && ParseInt(prev[i]) == Some(x);
          assert texts[i] == prev[i];
        }
      }
    }
  }

  function Sum(xs: seq<int>): int {
    if xs == [] then 0 else Sum(xs[..|xs| - 1]) + xs[|xs| - 1]
  }

  /** The running maximum, starting from 0, that keeps the earlier value on ties. */
  function HighScore(xs: seq<int>): (h: int)
    ensures h >= 0
    ensures forall k :: 0 <= k < |xs| ==> xs[k] <= h
    ensures h == 0 || h in xs
  {
    if xs == [] then 0
    else
      var h := HighScore(xs[..|xs| - 1]);
      var x := xs[|xs| - 1];
      assert forall y :: y in xs[..|xs| - 1] ==> y in xs;
      if x > h then x else h
  }

  /** The record `extract_score_data` returns. */
  datatype ScoreSummary = ScoreSummary(average: real, highScore: int, totalInspections: int)

  /** The summary of a list of parsed scores; the average of no scores is 0. */
  function Summary(xs: seq<int>): (s: ScoreSummary)
    ensures s.totalInspections == |xs| && s.highScore == HighScore(xs)
    ensures s.totalInspections == 0 ==> s.average == 0.0
    ensures s.totalInspections > 0 ==> s.average * s.totalInspections as real == Sum(xs) as real
  {
    ScoreSummary(if |xs| == 0 then 0.0 else Sum(xs) as real / |xs| as real, HighScore(xs), |xs|)
  }

  /**
   * The loop of `extract_score_data` over the selected rows: starts with one
   * sample per row, drops a sample for every third cell that does not parse,
   * and sums and takes the running maximum of the rest.
   */
  method SummarizeRows(rows: seq<Row>) returns (summary: ScoreSummary)
    requires forall i :: 0 <= i < |rows| ==> |Tds(rows[i])| == 4
    ensures summary == Summary(Scores(ThirdTexts(rows)))
  {
    var samples := |rows|;
    var total := 0;
    var highScore := 0;
    var average: real := 0.0;
    ghost var texts := ThirdTexts(rows);
    ghost var parsedSoFar: seq<int> := [];
    for i := 0 to |rows|
      invariant parsedSoFar == Scores(texts[..i])
      invariant samples == |parsedSoFar| + (|rows| - i)
      invariant total == Sum(parsedSoFar)
      invariant highScore == HighScore(parsedSoFar)
    {
      var value := ThirdText(rows[i]);
      SummarizeStep(texts, i);
      var parsed := ParseInt(value);
      if parsed.None? {
        samples := samples - 1;
      } else {
        var intValue := parsed.value;
        total := total + intValue;
        highScore := if intValue > highScore then intValue else highScore;
      }
      parsedSoFar := Scores(texts[..i + 1]);
    }
    assert texts[..|rows|] == texts;
    ghost var xs := parsedSoFar;
    assert xs == Scores(texts);
    if samples != 0 {
      average := total as real / samples as real;
    }
    summary := ScoreSummary(average, highScore, samples);
    assert summary == Summary(xs);
  }

  /**
   * `extract_score_data`: the summary of the listing's inspection rows, or
   * the exception `is_inspection_row` raises on a `tr` without a `td`.
   */
  method ExtractScoreData(listing: Block) returns (r: Result<ScoreSummary, ScrapeError>)
    ensures HasBareRow(listing.descendants) ==> r == Err(NoFirstCell)
    ensures !HasBareRow(listing.descendants) ==> r == Ok(Summary(Scores(ThirdTexts(InspectionRows(listing.descendants)))))
  {
    var selection := SelectInspectionRows(listing.descendants);
    if selection.Err? {
      return Err(selection.error);
    }
    var summary := SummarizeRows(selection.value);
    r := Ok(summary);
  }

  /** Reading one more row: its score is appended when its third cell parses. */
  lemma ScoresStep(texts: seq<string>, i: nat)
    requires i < |texts|
    ensures ParseInt(texts[i]).None? ==> Scores(texts[..i + 1]) == Scores(texts[..i])
    ensures ParseInt(texts[i]).Some? ==> Scores(texts[..i + 1]) == Scores(texts[..i]) + [ParseInt(texts[i]).value]
  {
    assert texts[..i + 1][..i] == texts[..i];
  }

  /** Reading one more row: the sample count, total and running maximum it leads to. */
  lemma SummarizeStep(texts: seq<string>, i: nat)
    requires i < |texts|
    ensures var prev, next := Scores(texts[..i]), Scores(texts[..i + 1]);
      match ParseInt(texts[i])
      case None => next == prev
      case Some(v) =>
        && |next| == |prev| + 1
        && Sum(next) == Sum(prev) + v
        && HighScore(next) == if v > HighScore(prev) then v else HighScore(prev)
  {
    ScoresStep(texts, i);
    if ParseInt(texts[i]).Some? {
      AccumulateStep(Scores(texts[..i]), ParseInt(texts[i]).value);
    }
  }

  /** Adding one more score to the running total and the running maximum. */
  lemma AccumulateStep(xs: seq<int>, x: int)
    ensures Sum(xs + [x]) == Sum(xs) + x
    ensures HighScore(xs + [x]) == if x > HighScore(xs) then x else HighScore(xs)
  {
    assert (xs + [x])[..|xs|] == xs;
  }

  /** A sum of scores none of which exceeds `h` is at most their number times `h`. */
  lemma {:induction false} SumBounded(xs: seq<int>, h: int)
    requires forall k :: 0 <= k < |xs| ==> 0 <= xs[k] <= h
    ensures 0 <= Sum(xs) <= |xs| * h
  {
    if xs != [] {
      var prev := xs[..|xs| - 1];
      SumBounded(prev, h);
      assert |xs| * h == |prev| * h + h;
    }
  }

  /**
   * What the summary promises: no more samples than rows, nothing negative,
   * a high score bounding every score, 0 everywhere without samples, and an
   * average between 0 and the high score.
   */
  lemma SummaryBounds(xs: seq<int>)
    requires forall k :: 0 <= k < |xs| ==> xs[k] >= 0
    ensures var s := Summary(xs);
      && s.totalInspections == |xs|
      && s.highScore >= 0
      && (forall k :: 0 <= k < |xs| ==> xs[k] <= s.highScore)
      && (s.totalInspections == 0 ==> s.average == 0.0 && s.highScore == 0)
      && (s.totalInspections > 0 ==> 0.0 <= s.average <= s.highScore as real)
  {
    if |xs| > 0 {
      SumBounded(xs, HighScore(xs));
      MeanBounded(Sum(xs), |xs|, HighScore(xs));
    }
  }

  /** A total between 0 and `n * h`, shared among `n` samples, gives a mean between 0 and `h`. */
  lemma MeanBounded(total: int, n: nat, h: int)
    requires n > 0 && 0 <= total <= n * h
    ensures 0.0 <= total as real / n as real <= h as real
  {
    var t, m := total as real, n as real;
    assert t <= m * h as real;
    assert t / m * m == t;
  }

  /** The worked example: third cells "90", "abc", "100" give two samples, high 100, average 95. */
  lemma ScoreExample()
    ensures Scores(["90", "abc", "100"]) == [90, 100]
    ensures Summary(Scores(["90", "abc", "100"])) == ScoreSummary(95.0, 100, 2)
  {
    var texts := ["90", "abc", "100"];
    ParseNinety();
    ParseHundred();
    assert !IsDigit("abc"[0]) && ParseInt("abc") == None;
    ScoresStep(texts, 0);
    ScoresStep(texts, 1);
    ScoresStep(texts, 2);
    assert texts[..0] == [] && texts[..3] == texts;
    SummaryExample();
  }

  /** The example's third cells are already clean. */
  lemma CleanExampleCells()
    ensures Clean(Some("90")) == "90" && Clean(Some("abc")) == "abc" && Clean(Some("100")) == "100"
  {
    CleanStable("90");
    CleanStable("abc");
    CleanStable("100");
  }

  lemma ParseNinety()
    ensures ParseInt("90") == Some(90)
  {
    assert "90"[..1] == "9";
    assert "9"[..0] == "";
  }

  lemma ParseHundred()
    ensures ParseInt("100") == Some(100)
  {
    assert "100"[..2] == "10";
    assert "10"[..1] == "1";
    assert "1"[..0] == "";
  }

  lemma SummaryExample()
    ensures Summary([90, 100]) == ScoreSummary(95.0, 100, 2)
  {
    assert [90, 100][..1] == [90];
    assert [90][..0] == [];
    assert Sum([90, 100]) == 190;
    assert HighScore([90]) == 90;
    assert HighScore([90, 100]) == 100;
    assert 190 as real / 2 as real == 95.0;
  }
}
