// Query-parameter construction in ipic's `main`: the seven command-line
// switches and the positional arguments become either the usage outcome (no
// request is made) or the set of `url.Values` sent to the search endpoint.
module Query {
  import opened Strings

  /** The seven boolean switches -i, -m, -a, -f, -t, -b and -h, as parsed. */
  datatype Flags = Flags(i: bool, m: bool, a: bool, f: bool, t: bool, b: bool, h: bool)

  /** The media category a search is restricted to, or none. */
  datatype Category = IOSApp | MacOSApp | Album | Film | TVShow | Book | Unfiltered

  /** `url.Values` with a single value per key, which is all `Set` produces. */
  type Values = map<string, string>

  /** What `main` does with the switches: print usage and return, or search. */
  datatype Outcome = Usage | Search(params: Values)

  /** `url.Values.Get`: the value under `key`, or "" when there is none. */
  function Get(v: Values, key: string): string
  {
    if key in v then v[key] else ""
  }

  /** The law of `url.Values` that `main` relies on: after `Set(k, x)`, `Get`
      of `k` gives `x`, so a later `Set` overrides an earlier one, and `Get` of
      any other key is what it was before. */
  lemma GetAfterSet(v: Values, k: string, x: string, j: string)
    ensures Get(v[k := x], j) == (if j == k then x else Get(v, j))
  {
  }

  /** The switch that selects category `c`; `Unfiltered` has none. */
  predicate FlagFor(fl: Flags, c: Category)
  {
    match c
    case IOSApp => fl.i
    case MacOSApp => fl.m
    case Album => fl.a
    case Film => fl.f
    case TVShow => fl.t
    case Book => fl.b
    case Unfiltered => false
  }

  /** Position of a category in the order the `else if` chain tests them. */
  function Rank(c: Category): nat
  {
    match c
    case IOSApp => 0
    case MacOSApp => 1
    case Album => 2
    case Film => 3
    case TVShow => 4
    case Book => 5
    case Unfiltered => 6
  }

  /** The category the switches select: the first switch that is set, in the
      order -i, -m, -a, -f, -t, -b; `Unfiltered` when none is. -h is not a
      category and is ignored here. */
  function Selected(fl: Flags): (c: Category)
    ensures c != Unfiltered ==> FlagFor(fl, c)
    ensures forall d: Category :: Rank(d) < Rank(c) ==> !FlagFor(fl, d)
  {
    if fl.i then IOSApp
    else if fl.m then MacOSApp
    else if fl.a then Album
    else if fl.f then Film
    else if fl.t then TVShow
    else if fl.b then Book
    else Unfiltered
  }

  /** The `media` and `entity` values of a category, literally as the program
      sends them (the iOS media value is spelled "softare"). */
  function MediaEntity(c: Category): (string, string)
    requires c != Unfiltered
  {
    match c
    case IOSApp => ("softare", "software")
    case MacOSApp => ("software", "macSoftware")
    case Album => ("music", "album")
    case Film => ("movie", "movie")
    case TVShow => ("tvShow", "tvSeason")
    case Book => ("ebook", "ebook")
  }

  /** The result field the search is asked to name entries by. */
  function NameField(c: Category): string
  {
    if c == Album || c == TVShow then "collectionName" else "trackName"
  }

  /** The parameters of a search in category `c` for `term`: always `size`,
      `name` and `term`, and `media` and `entity` exactly when a category is
      selected. */
  function Params(c: Category, term: string): (p: Values)
    ensures {"size", "name", "term"} <= p.Keys
    ensures "media" in p <==> c != Unfiltered
    ensures "entity" in p <==> c != Unfiltered
    ensures |p.Keys| == if c == Unfiltered then 3 else 5
    ensures p["size"] == "4096" && p["term"] == term && p["name"] == NameField(c)
    ensures c != Unfiltered ==> (p["media"], p["entity"]) == MediaEntity(c)
  {
    var base := map["size" := "4096", "name" := NameField(c), "term" := term];
    if c == Unfiltered then base
    else base["media" := MediaEntity(c).0]["entity" := MediaEntity(c).1]
  }

  /** What `main` decides for the given switches and positional arguments. */
  function Expected(fl: Flags, args: seq<string>): (o: Outcome)
    ensures o.Usage? <==> fl.h
    ensures o.Search? ==> Get(o.params, "term") == Join(args, " ")
    ensures o.Search? ==> Get(o.params, "size") == "4096"
  {
    if fl.h then Usage else Search(Params(Selected(fl), Join(args, " ")))
  }

  /** The step-by-step construction of `main`: three defaults, then the
      `else if` chain, each `Set` replacing the value already under its key. */
  method BuildQuery(fl: Flags, args: seq<string>) returns (o: Outcome)
    ensures o == Expected(fl, args)
  {
    var v: Values := map[];
    v := v["size" := "4096"];
    v := v["name" := "trackName"];
    v := v["term" := Join(args, " ")];

    if fl.h {
      return Usage;
    } else if fl.i {
      v := v["media" := "softare"];
      v := v["entity" := "software"];
    } else if fl.m {
      v := v["media" := "software"];
      v := v["entity" := "macSoftware"];
    } else if fl.a {
      v := v["media" := "music"];
      v := v["entity" := "album"];
      v := v["name" := "collectionName"];
    } else if fl.f {
      v := v["media" := "movie"];
      v := v["entity" := "movie"];
    } else if fl.t {
      v := v["media" := "tvShow"];
      v := v["entity" := "tvSeason"];
      v := v["name" := "collectionName"];
    } else if fl.b {
      v := v["media" := "ebook"];
      v := v["entity" := "ebook"];
    }
    o := Search(v);
  }

  // ---------------------------------------------------------------------
  // Properties of the decision

  /** The switches with only the one for `c` set. */
  function Only(c: Category): (fl: Flags)
    ensures forall d: Category :: FlagFor(fl, d) <==> d == c && c != Unfiltered
    ensures !fl.h
  {
    Flags(c == IOSApp, c == MacOSApp, c == Album, c == Film, c == TVShow, c == Book, false)
  }

  /** -h wins over every other switch: usage is printed and no query is made;
      without -h a query is always made. */
  lemma UsageExactlyWithHelp(fl: Flags, args: seq<string>)
    ensures Expected(fl, args) == Usage <==> fl.h
  {
  }

  /** Among several category switches the first set one, in the order -i, -m,
      -a, -f, -t, -b, alone decides the query: the outcome is the one for that
      switch set on its own. */
  lemma FirstSetSwitchDecides(fl: Flags, args: seq<string>)
    requires !fl.h
    ensures Expected(fl, args) == Expected(Only(Selected(fl)), args)
  {
  }

  /** `size` is always "4096" and `term` is always the space-joined arguments;
      no category overrides either. */
  lemma SizeAndTermFixed(fl: Flags, args: seq<string>)
    requires !fl.h
    ensures Expected(fl, args).Search?
    ensures Get(Expected(fl, args).params, "size") == "4096"
    ensures Get(Expected(fl, args).params, "term") == Join(args, " ")
  {
  }

  /** `name` is "collectionName" exactly for albums and TV shows and
      "trackName" otherwise, also when no category is selected. */
  lemma NameByCategory(fl: Flags, args: seq<string>)
    requires !fl.h
    ensures var p := Expected(fl, args).params;
      && (Get(p, "name") == "collectionName" <==> Selected(fl) in {Album, TVShow})
      && (Get(p, "name") == "trackName" <==> Selected(fl) !in {Album, TVShow})
  {
  }

  /** The keys of the query: `media` and `entity` are present exactly when a
      category switch is set; `size`, `name` and `term` always are. */
  lemma KeysOfQuery(fl: Flags, args: seq<string>)
    requires !fl.h
    ensures var p := Expected(fl, args).params;
      && (Selected(fl) == Unfiltered ==> p.Keys == {"size", "name", "term"})
      && (Selected(fl) != Unfiltered ==> p.Keys == {"size", "name", "term", "media", "entity"})
  {
  }

  /** A selected category sends its own `media` and `entity` pair. */
  lemma FilterOfCategory(fl: Flags, args: seq<string>)
    requires !fl.h && Selected(fl) != Unfiltered
    ensures var p := Expected(fl, args).params;
      (Get(p, "media"), Get(p, "entity")) == MediaEntity(Selected(fl))
  {
  }

  /** No category switch selected (and no -h): only `size`, `name` and `term`. */
  lemma UnfilteredQuery(fl: Flags, args: seq<string>)
    requires !fl.h && !fl.i && !fl.m && !fl.a && !fl.f && !fl.t && !fl.b
    ensures Expected(fl, args) == Search(map["size" := "4096", "name" := "trackName", "term" := Join(args, " ")])
    ensures "media" !in Expected(fl, args).params && "entity" !in Expected(fl, args).params
  {
  }

  /** `-a Abbey Road` asks for albums ordered by collection name. */
  lemma AbbeyRoadQuery()
    ensures Expected(Only(Album), ["Abbey", "Road"])
         == Search(map["size" := "4096", "name" := "collectionName", "term" := "Abbey Road",
                       "media" := "music", "entity" := "album"])
  {
    assert Join(["Abbey", "Road"], " ") == "Abbey" + " " + Join(["Road"], " ") == "Abbey Road";
    assert Selected(Only(Album)) == Album;
    var p := Params(Album, "Abbey Road");
    var q := map["size" := "4096", "name" := "collectionName", "term" := "Abbey Road",
                 "media" := "music", "entity" := "album"];
    assert p.Keys == q.Keys;
    assert forall k | k in p :: p[k] == q[k];
  }
}
