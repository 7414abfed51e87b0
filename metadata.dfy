/** `extract_restaurant_metadata`: label/value rows of a listing's table, grouped by label. */
module MetadataExtractor {
  import opened Wrappers
  import opened PyDict
  import opened Text
  import opened Dom
  import Seqs

  /** A metadata row after cleaning: its label cell and its value cell. */
  datatype Field = Field(name: string, value: string)

  /** `tbody.find_all(has_two_tds, recursive=False)`: the rows the extraction reads. */
  function TableRows(tbody: seq<Row>): (rows: seq<Row>)
    ensures forall i :: 0 <= i < |rows| ==> HasTwoTds(rows[i])
    ensures forall r :: r in rows <==> r in tbody && HasTwoTds(r)
  {
    Seqs.Filter(HasTwoTds, tbody)
  }

  /** The cleaned label and value cells of a two-cell row. */
  function FieldOf(row: Row): Field
    requires HasTwoTds(row)
  {
    var tds := Tds(row);
    Field(Clean(tds[0].text), Clean(tds[1].text))
  }

  function Fields(rows: seq<Row>): (fs: seq<Field>)
    requires forall i :: 0 <= i < |rows| ==> HasTwoTds(rows[i])
    ensures |fs| == |rows|
    ensures forall i :: 0 <= i < |rows| && HasTwoTds(rows[i]) ==>
              fs[i] == Field(Clean(Tds(rows[i])[0].text), Clean(Tds(rows[i])[1].text))
  {
    seq(|rows|, i requires 0 <= i < |rows| && HasTwoTds(rows[i]) => FieldOf(rows[i]))
  }

  /**
   * The label in force after reading `fs`: the last non-empty label, or ""
   * when every label so far is blank.
   */
  function CurrentLabel(fs: seq<Field>): (l: string)
    ensures l == "" || exists i :: 0 <= i < |fs| && fs[i].name == l
  {
    if fs == [] then ""
    else if fs[|fs| - 1].name != "" then fs[|fs| - 1].name
    else
      var prev := fs[..|fs| - 1];
      var l := CurrentLabel(prev);
      assert l == "" || exists i :: 0 <= i < |fs| && fs[i].name == l by {
        if l != "" {
          var i :| 0 <= i < |prev| && prev[i].name == l;
          assert fs[i] == prev[i];
        }
      }
      l
  }

  /** The label in force is "" exactly when every label so far is blank. */
  lemma {:induction false} CurrentLabelBlank(fs: seq<Field>)
    ensures CurrentLabel(fs) == "" <==> forall i :: 0 <= i < |fs| ==> fs[i].name == ""
  {
    if fs != [] && fs[|fs| - 1].name == "" {
      var prev := fs[..|fs| - 1];
      CurrentLabelBlank(prev);
      assert forall i :: 0 <= i < |prev| ==> prev[i] == fs[i];
    }
  }

  /** A non-blank label in force is the last non-blank label read so far. */
  lemma {:induction false} CurrentLabelIsLastNonBlank(fs: seq<Field>)
    requires CurrentLabel(fs) != ""
    ensures exists i :: 0 <= i < |fs| && fs[i].name == CurrentLabel(fs) && forall j :: i < j < |fs| ==> fs[j].name == ""
  {
    var last := |fs| - 1;
    if fs[last].name == "" {
      var prev := fs[..last];
      assert CurrentLabel(fs) == CurrentLabel(prev);
      CurrentLabelIsLastNonBlank(prev);
      var i :| 0 <= i < |prev| && prev[i].name == CurrentLabel(prev) && forall j :: i < j < |prev| ==> prev[j].name == "";
      assert fs[i] == prev[i];
      assert forall j :: i < j < |fs| ==> fs[j].name == "" by {
        forall j | i < j < |fs| ensures fs[j].name == "" {
          if j < last {
            assert fs[j] == prev[j];
          }
        }
      }
    } else {
      assert fs[last].name == CurrentLabel(fs);
    }
  }

  /** `d.setdefault(k, []).append(v)`. */
  function SetDefaultAppend(d: Dict<seq<string>>, k: string, v: string): (r: Dict<seq<string>>)
    ensures Keys(r) == if k in Keys(d) then Keys(d) else Keys(d) + [k]
    ensures Get(r, k) == Some(if k in Keys(d) then Get(d, k).value + [v] else [v])
    ensures forall k' :: k' != k ==> Get(r, k') == Get(d, k')
  {
    var vs := (if k in Keys(d) then Get(d, k).value else []) + [v];
    assert [] + [v] == [v];
    PutGetAll(d, k, vs);
    Put(d, k, vs)
  }

  /** The dictionary built from `fs`: each value appended under the label in force at its row. */
  function Metadata(fs: seq<Field>): (d: Dict<seq<string>>)
    ensures |d| <= |fs|
    ensures fs != [] ==> CurrentLabel(fs) in Keys(d)
    ensures forall k :: k in Keys(d) ==> k == "" || exists i :: 0 <= i < |fs| && fs[i].name == k
  {
    if fs == [] then []
    else
      var prev := fs[..|fs| - 1];
      var l := CurrentLabel(fs);
      var d := SetDefaultAppend(Metadata(prev), l, fs[|fs| - 1].value);
      KeysAreLabels(fs, prev, Keys(Metadata(prev)), l, Keys(d));
      d
  }

  /** Adding the label in force to keys that are labels of the earlier rows gives keys that are labels. */
  lemma KeysAreLabels(fs: seq<Field>, prev: seq<Field>, before: seq<string>, l: string, after: seq<string>)
    requires fs != [] && prev == fs[..|fs| - 1]
    requires forall k :: k in before ==> k == "" || exists i :: 0 <= i < |prev| && prev[i].name == k
    requires l == "" || exists i :: 0 <= i < |fs| && fs[i].name == l
    requires after == if l in before then before else before + [l]
    ensures forall k :: k in after ==> k == "" || exists i :: 0 <= i < |fs| && fs[i].name == k
  {
    forall k | k in after && k != "" ensures exists i :: 0 <= i < |fs| && fs[i].name == k {
      if k in before {
        var i :| 0 <= i < |prev| && prev[i].name == k;
        assert fs[i] == prev[i];
      }
    }
  }

  /** The values of the rows whose label in force is `k`, in row order. */
  function ValuesUnder(fs: seq<Field>, k: string): seq<string> {
    if fs == [] then []
    else ValuesUnder(fs[..|fs| - 1], k) + (if CurrentLabel(fs) == k then [fs[|fs| - 1].value] else [])
  }

  /** The number of values stored in a dictionary of lists. */
  function TotalValues(d: Dict<seq<string>>): nat {
    if d == [] then 0 else |d[0].val| + TotalValues(d[1..])
  }

  /** Reading one more row: the label it puts in force and the value it appends. */
  lemma MetadataStep(fs: seq<Field>, i: nat)
    requires i < |fs|
    ensures CurrentLabel(fs[..i + 1]) == if fs[i].name != "" then fs[i].name else CurrentLabel(fs[..i])
    ensures Metadata(fs[..i + 1]) == SetDefaultAppend(Metadata(fs[..i]), CurrentLabel(fs[..i + 1]), fs[i].value)
  {
    assert fs[..i + 1][..i] == fs[..i];
  }

  /**
   * Extracts the metadata of one listing. A row whose cleaned label is blank
   * continues the previous label; a listing without `tbody` raises.
   */
  method ExtractRestaurantMetadata(listing: Block) returns (r: Result<Dict<seq<string>>, ScrapeError>)
    ensures listing.tbody.None? ==> r == Err(NoTableBody)
    ensures listing.tbody.Some? ==> r == Ok(Metadata(Fields(TableRows(listing.tbody.value))))
  {
    if listing.tbody.None? {
      return Err(NoTableBody);
    }
    var rows := TableRows(listing.tbody.value);
    ghost var fs := Fields(rows);
    var data: Dict<seq<string>> := [];
    var currentLabel := "";
    for i := 0 to |rows|
      invariant currentLabel == CurrentLabel(fs[..i])
      invariant data == Metadata(fs[..i])
    {
      var tds := Tds(rows[i]);
      var name := Clean(tds[0].text);
      currentLabel := if name != "" then name else currentLabel;
      var value := Clean(tds[1].text);
      assert fs[i] == FieldOf(rows[i]) == Field(name, value);
      MetadataStep(fs, i);
      data := SetDefaultAppend(data, currentLabel, value);
    }
    assert fs[..|rows|] == fs;
    r := Ok(data);
  }

  /**
   * Each label maps to exactly the values of the rows it is in force for, in
   * row order; a label is a key exactly when it has a value.
   */
  lemma {:induction false} MetadataValues(fs: seq<Field>, k: string)
    ensures Get(Metadata(fs), k) == if ValuesUnder(fs, k) == [] then None else Some(ValuesUnder(fs, k))
  {
    if fs != [] {
      var prev, v := fs[..|fs| - 1], fs[|fs| - 1].value;
      MetadataValues(prev, k);
      var l := CurrentLabel(fs);
      var earlier := match Get(Metadata(prev), l) case Some(vs) => vs case None => [];
      assert Metadata(fs) == Put(Metadata(prev), l, earlier + [v]);
      PutGet(Metadata(prev), l, earlier + [v], k);
      if k == l {
        assert ValuesUnder(fs, k) == ValuesUnder(prev, k) + [v];
      } else {
        assert ValuesUnder(fs, k) == ValuesUnder(prev, k);
      }
    }
  }

  /** No label is stored twice. */
  lemma {:induction false} MetadataValid(fs: seq<Field>)
    ensures Valid(Metadata(fs))
  {
    if fs != [] {
      var prev := fs[..|fs| - 1];
      MetadataValid(prev);
      var l := CurrentLabel(fs);
      var earlier := match Get(Metadata(prev), l) case Some(vs) => vs case None => [];
      PutValid(Metadata(prev), l, earlier + [fs[|fs| - 1].value]);
    }
  }

  lemma {:induction false} TotalValuesPut(d: Dict<seq<string>>, k: string, v: seq<string>)
    requires Valid(d)
    ensures TotalValues(Put(d, k, v)) == TotalValues(d) - (match Get(d, k) case Some(vs) => |vs| case None => 0) + |v|
  {
    if d != [] && d[0].key != k {
      assert Valid(d[1..]);
      TotalValuesPut(d[1..], k, v);
    }
  }

  /** Every row contributes exactly one value: the dictionary holds as many values as there are rows. */
  lemma {:induction false} MetadataCount(fs: seq<Field>)
    ensures TotalValues(Metadata(fs)) == |fs|
  {
    if fs != [] {
      var prev := fs[..|fs| - 1];
      MetadataCount(prev);
      MetadataValid(prev);
      var k := CurrentLabel(fs);
      var vs := match Get(Metadata(prev), k) case Some(vs) => vs case None => [];
      TotalValuesPut(Metadata(prev), k, vs + [fs[|fs| - 1].value]);
    }
  }

  /** Only two-cell `tr` rows are read, and each contributes one value. */
  lemma TableRowsCounted(tbody: seq<Row>)
    ensures TotalValues(Metadata(Fields(TableRows(tbody)))) == |Seqs.Filter(HasTwoTds, tbody)|
  {
    MetadataCount(Fields(TableRows(tbody)));
  }

  /** The continuation rule on the example rows: a blank label adds a second value under "Address". */
  lemma ContinuationExample()
    ensures Metadata([Field("Address", "123 Main"), Field("", "Suite 4")]) == [Entry("Address", ["123 Main", "Suite 4"])]
  {
    var fs := [Field("Address", "123 Main"), Field("", "Suite 4")];
    assert fs[..1] == [Field("Address", "123 Main")];
    assert fs[..1][..0] == [];
    assert CurrentLabel(fs[..1]) == "Address";
    assert CurrentLabel(fs) == "Address";
    var first := [Entry("Address", ["123 Main"])];
    assert Metadata(fs[..1][..0]) == [];
    assert Get<seq<string>>([], "Address") == None;
    assert [] + ["123 Main"] == ["123 Main"];
    assert Metadata(fs[..1]) == first;
    assert Get(first, "Address") == Some(["123 Main"]);
    assert Metadata(fs) == SetDefaultAppend(first, "Address", "Suite 4");
    assert ["123 Main"] + ["Suite 4"] == ["123 Main", "Suite 4"];
    assert first[1..] == [];
  }

  /** Rows before any non-blank label accumulate under the empty label. */
  lemma LeadingBlankLabel(v: string)
    ensures Metadata([Field("", v)]) == [Entry("", [v])]
  {
    var fs := [Field("", v)];
    assert fs[..0] == [];
    assert CurrentLabel(fs) == "";
    assert Get<seq<string>>([], "") == None;
    assert [] + [v] == [v];
  }
}
