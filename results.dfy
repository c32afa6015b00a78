// Normalisation of the decoded search results in ipic's `main`: every entry
// gets a big-artwork URL and a single display name, in place, in order.
module Results {
  import opened Strings
  import opened Query

  /** One entry of `SearchResponse.Results`. `artworkURL100`, `trackName` and
      `collectionName` come from the search response; `artworkURLBig` and
      `name` are filled in by the normalisation. */
  datatype SearchResult = SearchResult(
    artworkURL100: string,
    artworkURLBig: string,
    name: string,
    trackName: string,
    collectionName: string)

  /** The track name when there is one, otherwise the collection name. */
  function Coalesce(track: string, collection: string): (r: string)
    ensures track != "" ==> r == track
    ensures track == "" ==> r == collection
    ensures r == "" <==> track == "" && collection == ""
  {
    if track != "" then track else collection
  }

  /** The thumbnail size that thumbnail URLs carry. */
  const Thumbnail: string := "100x100"

  /** `fmt.Sprintf("%sx%s", size, size)`: the size written as width x height. */
  function Dimensions(size: string): string
  {
    size + "x" + size
  }

  /** The pattern that is replaced is the thumbnail size written in the same
      `%sx%s` form, and the form keeps the size: two sizes give the same
      dimensions only when they are equal. */
  lemma DimensionsOfThumbnail(a: string, b: string)
    ensures Dimensions("100") == Thumbnail
    ensures Dimensions(a) == Dimensions(b) ==> a == b
  {
    if Dimensions(a) == Dimensions(b) {
      assert |a + "x" + a| == 2 * |a| + 1 && |b + "x" + b| == 2 * |b| + 1;
      assert (a + "x" + a)[..|a|] == a && (b + "x" + b)[..|b|] == b;
    }
  }

  /** An entry as the normalisation leaves it for a requested size. */
  function Normalised(e: SearchResult, size: string): (r: SearchResult)
    ensures r.artworkURL100 == e.artworkURL100
    ensures r.trackName == e.trackName && r.collectionName == e.collectionName
  {
    e.(artworkURLBig := ReplaceAll(e.artworkURL100, Thumbnail, Dimensions(size)),
       name := Coalesce(e.trackName, e.collectionName))
  }

  /** Every entry normalised, in the same order. */
  function NormalisedAll(s: seq<SearchResult>, size: string): (r: seq<SearchResult>)
    ensures |r| == |s|
  {
    seq(|s|, k requires 0 <= k < |s| => Normalised(s[k], size))
  }

  /** The decoded response: a title and the results array. */
  class SearchResponse {
    var title: string
    var results: array<SearchResult>

    /** A response as decoded: no title yet and the given results. */
    constructor (decoded: seq<SearchResult>)
      ensures title == "" && results[..] == decoded && fresh(results)
    {
      title := "";
      results := new SearchResult[|decoded|](k requires 0 <= k < |decoded| => decoded[k]);
    }

    /** The loop over `sr.Results` in `main`: each entry, read from its copy,
        gets its big-artwork URL and its display name, written back in place.
        The array keeps its length and order. */
    method NormaliseResults(v: Values)
      modifies results
      ensures results[..] == NormalisedAll(old(results[..]), Get(v, "size"))
    {
      var i := 0;
      while i != results.Length
        invariant 0 <= i <= results.Length
        invariant forall k :: 0 <= k < i ==> results[k] == Normalised(old(results[k]), Get(v, "size"))
        invariant forall k :: i <= k < results.Length ==> results[k] == old(results[k])
      {
        var result := results[i];
        var size := Get(v, "size") + "x" + Get(v, "size");
        results[i] := results[i].(artworkURLBig := ReplaceAll(result.artworkURL100, "100x100", size));
        results[i] := results[i].(name := result.collectionName);
        if result.trackName != "" {
          results[i] := results[i].(name := result.trackName);
        }
        i := i + 1;
      }
    }
  }

  // ---------------------------------------------------------------------
  // Properties of the normalisation

  /** The new fields of an entry depend only on its thumbnail URL, its track
      name and its collection name, not on what the other two fields held. */
  lemma DependsOnlyOnSources(e1: SearchResult, e2: SearchResult, size: string)
    requires e1.artworkURL100 == e2.artworkURL100
    requires e1.trackName == e2.trackName && e1.collectionName == e2.collectionName
    ensures Normalised(e1, size) == Normalised(e2, size)
  {
  }

  /** Normalising a second time changes nothing. */
  lemma NormalisedAllIdempotent(s: seq<SearchResult>, size: string)
    ensures NormalisedAll(NormalisedAll(s, size), size) == NormalisedAll(s, size)
  {
  }

  /** Entry `k` of the normalised results is entry `k` of the input with its
      thumbnail size rewritten and its name coalesced; its other fields are
      those of entry `k` of the input. */
  lemma NormalisedAllAt(s: seq<SearchResult>, size: string, k: nat)
    requires k < |s|
    ensures var r := NormalisedAll(s, size)[k];
      && r.artworkURL100 == s[k].artworkURL100
      && r.trackName == s[k].trackName
      && r.collectionName == s[k].collectionName
      && r.artworkURLBig == Join(Split(s[k].artworkURL100, "100x100"), size + "x" + size)
      && (forall j :: 0 <= j < |Split(s[k].artworkURL100, "100x100")| ==>
            !Occurs(Split(s[k].artworkURL100, "100x100")[j], "100x100"))
      && r.name == (if s[k].trackName != "" then s[k].trackName else s[k].collectionName)
  {
    ReplaceAllIsJoinOfSplit(s[k].artworkURL100, Thumbnail, Dimensions(size));
    SplitPiecesFree(s[k].artworkURL100, Thumbnail);
  }

  /** For the requested size "4096" the big-artwork URL equals the thumbnail
      URL exactly when the thumbnail URL does not mention "100x100". */
  lemma BigArtworkUnchangedIffNoThumbnailSize(e: SearchResult)
    ensures Normalised(e, "4096").artworkURLBig == e.artworkURL100
        <==> !Occurs(e.artworkURL100, "100x100")
  {
    UnchangedIffAbsent(e.artworkURL100, Thumbnail, Dimensions("4096"));
  }

  /** A typical thumbnail URL and its 4096 by 4096 counterpart. */
  lemma ArtworkExample()
    ensures ReplaceAll("http://example/100x100bb.jpg", Thumbnail, Dimensions("4096"))
         == "http://example/4096x4096bb.jpg"
  {
    var host, file, rep := "http://example/", "bb.jpg", Dimensions("4096");
    assert "http://example/100x100bb.jpg" == host + (Thumbnail + file);
    assert "http://example/4096x4096bb.jpg" == host + (rep + file);
    ReplaceAllSkips(host, Thumbnail + file, Thumbnail, rep);
    ReplaceAllAtMatch(Thumbnail, file, rep);
    ReplaceAllSkips(file, "", Thumbnail, rep);
    assert file + "" == file;
    ReplaceAllShort("", Thumbnail, rep);
  }

  /** The display names of the three shapes of result. */
  lemma CoalesceExamples()
    ensures Coalesce("Foo", "Bar") == "Foo"
    ensures Coalesce("", "Bar") == "Bar"
    ensures Coalesce("", "") == ""
  {
  }
}
