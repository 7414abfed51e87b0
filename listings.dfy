/** `extract_data_listings`: the `div`s whose `id` matches `PR[\d]+~` (search, not full match). */
module Listings {
  import opened Wrappers
  import opened Text
  import opened Dom
  import Seqs

  /** `s[i..j]` is `PR`, one or more digits, then `~`. */
  ghost predicate PatternAt(s: string, i: int, j: int) {
    0 <= i && i + 4 <= j <= |s| && s[i] == 'P' && s[i + 1] == 'R' && IsDigits(s[i + 2..j - 1]) && s[j - 1] == '~'
  }

  /** The pattern `PR[\d]+~` occurs somewhere in `s`. */
  ghost predicate IsListingId(s: string) {
    exists i, j :: PatternAt(s, i, j)
  }

  /** `t` begins with one or more digits followed by `~`. */
  predicate DigitsThenTilde(t: string) {
    |t| >= 2 && IsDigit(t[0]) && (t[1] == '~' || DigitsThenTilde(t[1..]))
  }

  /** Scanning search for the pattern: try each start position from left to right. */
  predicate SearchListingId(s: string)
    ensures SearchListingId(s) ==> |s| >= 4 && 'P' in s && 'R' in s
  {
    |s| >= 4 && ((s[0] == 'P' && s[1] == 'R' && DigitsThenTilde(s[2..])) || SearchListingId(s[1..]))
  }

  ghost predicate DigitsTildeAt(t: string, j: int) {
    1 <= j < |t| && IsDigits(t[..j]) && t[j] == '~'
  }

  lemma {:induction false} DigitsThenTildeFinds(t: string) returns (j: int)
    requires DigitsThenTilde(t)
    ensures DigitsTildeAt(t, j)
  {
    if t[1] == '~' {
      j := 1;
    } else {
      var j' := DigitsThenTildeFinds(t[1..]);
      assert t[..j' + 1] == [t[0]] + t[1..][..j'];
      j := j' + 1;
    }
  }

  lemma {:induction false} DigitsThenTildeAccepts(t: string, j: int)
    requires DigitsTildeAt(t, j)
    ensures DigitsThenTilde(t)
  {
    assert IsDigit(t[..j][0]);
    if j > 1 {
      assert IsDigit(t[..j][1]);
      assert t[1..][..j - 1] == t[..j][1..];
      DigitsThenTildeAccepts(t[1..], j - 1);
    }
  }

  lemma {:induction false} SearchListingIdFinds(s: string) returns (i: int, j: int)
    requires SearchListingId(s)
    ensures PatternAt(s, i, j)
  {
    if s[0] == 'P' && s[1] == 'R' && DigitsThenTilde(s[2..]) {
      var k := DigitsThenTildeFinds(s[2..]);
      assert s[2..][..k] == s[2..k + 2];
      i, j := 0, k + 3;
    } else {
      var i', j' := SearchListingIdFinds(s[1..]);
      assert s[1..][i' + 2..j' - 1] == s[i' + 3..j'];
      i, j := i' + 1, j' + 1;
    }
  }

  lemma {:induction false} SearchListingIdAccepts(s: string, i: int, j: int)
    requires PatternAt(s, i, j)
    ensures SearchListingId(s)
    decreases i
  {
    if i == 0 {
      assert s[2..][..j - 3] == s[2..j - 1];
      DigitsThenTildeAccepts(s[2..], j - 3);
    } else {
      assert s[1..][i - 1 + 2..j - 2] == s[i + 2..j - 1];
      SearchListingIdAccepts(s[1..], i - 1, j - 1);
    }
  }

  /** The scanning search finds the pattern exactly when it occurs. */
  lemma SearchListingIdCorrect(s: string)
    ensures SearchListingId(s) <==> IsListingId(s)
  {
    if SearchListingId(s) {
      var i, j := SearchListingIdFinds(s);
    }
    if IsListingId(s) {
      var i, j :| PatternAt(s, i, j);
      SearchListingIdAccepts(s, i, j);
    }
  }

  /** The test `find_all` applies to each element: a `div` whose `id` contains the pattern. */
  predicate IsListing(b: Block)
    ensures IsListing(b) <==> b.tag == "div" && b.id.Some? && IsListingId(b.id.value)
  {
    b.tag == "div" && b.id.Some? && (SearchListingIdCorrect(b.id.value); SearchListingId(b.id.value))
  }

  /** `html.find_all('div', id=re.compile(r'PR[\d]+~'))`, over the document's elements in order. */
  function ExtractDataListings(doc: seq<Block>): (r: seq<Block>)
    ensures |r| <= |doc|
    ensures forall b :: b in r <==> b in doc && b.tag == "div" && b.id.Some? && IsListingId(b.id.value)
  {
    assert forall s :: SearchListingId(s) <==> IsListingId(s) by {
      forall s ensures SearchListingId(s) <==> IsListingId(s) { SearchListingIdCorrect(s); }
    }
    Seqs.Filter(IsListing, doc)
  }

  /** A listing id as the result pages write it, and strings that are not one. */
  lemma ListingIdExamples()
    ensures IsListingId("PR0084952~")
    ensures !IsListingId("PR~") && !IsListingId("pr12~")
  {
    SearchListingIdCorrect("PR0084952~");
    assert DigitsThenTilde("0084952~"[6..]);
    SearchListingIdCorrect("PR~");
    SearchListingIdCorrect("pr12~");
  }
}
