// The flow of ipic's `main` from the parsed switches to the response handed
// to the HTML template, with the request, the decoding, the file and the
// browser taken out: the decoded results are a parameter.
module Ipic {
  import opened Strings
  import opened Query
  import opened Results

  /** What reaches the template: nothing when usage was printed, otherwise the
      title and the normalised results. */
  datatype Rendered = UsageOnly | Page(title: string, results: seq<SearchResult>)

  /** `main` without its I/O: build the query, stop on -h, otherwise
      normalise the decoded results in place and set the title to the term. */
  method Run(fl: Flags, args: seq<string>, decoded: seq<SearchResult>) returns (out: Rendered)
    ensures fl.h <==> out == UsageOnly
    ensures !fl.h ==> out == Page(Join(args, " "), NormalisedAll(decoded, "4096"))
  {
    var o := BuildQuery(fl, args);
    if o.Usage? {
      return UsageOnly;
    }
    SizeAndTermFixed(fl, args);
    var v := o.params;
    var sr := new SearchResponse(decoded);
    sr.NormaliseResults(v);
    sr.title := Get(v, "term");
    out := Page(sr.title, sr.results[..]);
  }
}
