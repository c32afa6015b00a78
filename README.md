# ipic: query construction and result normalisation

ipic is a command-line tool. It searches the iTunes/App Store search API for a
term and writes an HTML page of thumbnails. Each thumbnail links to a large
version of its artwork. This project models the two parts of `main` in
`ipic.go` that make decisions, and proves what they do:

- **Query construction** (`Query`, in `query.dfy`). The seven switches
  `-i -m -a -f -t -b -h` are a `Flags` record. `BuildQuery` follows the
  source step by step. It sets three defaults (`size`, `name`, `term`) in a
  `url.Values` map, modelled as `map<string, string>`; each `Set` is a map
  update that replaces the old value. Then it runs the `else if` chain:
  help first, then iOS, macOS, album, film, TV show, book. The result is
  either `Usage` (usage is printed and no request is made) or the parameter
  map. The method is proved equal to `Expected`, a table-driven definition.
  The lemmas then prove the properties that matter: help wins, the first
  set switch decides, `size` and `term` are fixed, which categories use
  `collectionName`, and which keys appear.
- **Result normalisation** (`Results`, in `results.dfy`). The decoded
  response is a class `SearchResponse` with a `title` and an `array` of
  `SearchResult` records. `NormaliseResults` is the source's index loop. It
  writes each entry's `artworkURLBig` and `name` into the array in place,
  reading from the copy `result`. Its postcondition ties the new array to
  `NormalisedAll` of the old one. The lemmas prove that:
  - the new fields depend only on the three decoded fields;
  - normalising twice changes nothing;
  - the big URL is the thumbnail URL with each `"100x100"` that the
    left-to-right scan finds replaced;
  - the name is the coalesced track/collection name.
- **String helpers** (`Strings`, in `strings.dfy`). `Join` models
  `strings.Join`. `ReplaceAll` models `strings.Replace(s, old, new, -1)`: a
  left-to-right scan for non-overlapping occurrences that never rescans the
  inserted text. The empty-pattern case of Go (insert at every character
  boundary) is modelled too. Both are checked against `Split`, a reference
  model of `strings.Split`:
  - replace-all equals join-of-split, for a non-empty pattern;
  - no piece of a split contains the separator, and each cut is at the
    leftmost occurrence that starts after the previous cut. Occurrences that
    overlap a cut are not cut: `"1100x100x100"` holds `"100x100"` at 1 and
    at 5, yet only the first is replaced;
  - join then split gives back the pieces, for a non-empty list of pieces
    and a one-character separator that none of them contains (the empty
    list joins to "", which splits into [""]);
  - split then join gives back the string.

  The length lemma counts the replacements. From it follows that, for
  `"100x100"` to `"4096x4096"`, the URL is unchanged exactly when it does not
  contain `"100x100"`.
- **The flow of `main`** (`Ipic.Run`, in `ipic.dfy`). It builds the query,
  stops on `-h`, puts the decoded results into a `SearchResponse`,
  normalises them in place and sets the title to the search term. It returns
  what the HTML template would be given.

The iOS media value is kept exactly as the code writes it, `"softare"`. The
code is followed here, not the corrected spelling `"software"`.

## Model

| member | source | states |
|---|---|---|
| Query.BuildQuery | ipic.go:89-121 | The sequence of `Set` calls and the `else if` chain give exactly `Expected(fl, args)`: `Usage` when `-h` is set, otherwise the parameters of the selected category with the joined term (later `Set("name", …)` overrides the default) |
| Query.Selected | ipic.go:99-121 | The selected category's switch is set, and no switch of a category tested earlier in the chain is set (first true wins, in the order i, m, a, f, t, b) |
| Query.GetAfterSet | ipic.go:89-121 | The `url.Values` law behind the defaults and their overrides: after `Set(k, x)`, `Get(k)` is `x` (so a later `Set("name", …)` replaces the default), and every other key reads as before (so `size` and `term`, read at lines 156 and 166, keep their values) |
| Query.Params | ipic.go:89-121 | The parameters of a category: `size` "4096", `term` the given term and `name` by category are always present; `media` and `entity` are present exactly when a category is selected, and then they are that category's pair; 3 keys unfiltered, 5 otherwise |
| Query.Expected | ipic.go:89-121 | The closed form that `BuildQuery` is proved equal to: `Usage` exactly when `-h` is set; every search has term the joined arguments and size "4096" |
| Query.UsageExactlyWithHelp | ipic.go:94-98 | The outcome is `Usage` (no query, return before any request) if and only if `-h` is set, whatever the other switches are |
| Query.FirstSetSwitchDecides | ipic.go:99-121 | Without `-h`, the query equals the query for the first set category switch given alone; later switches have no effect |
| Query.SizeAndTermFixed | ipic.go:90-92 | Without `-h` a query is made; its `size` is "4096" and its `term` is the positional arguments joined with " ", in every branch |
| Query.NameByCategory | ipic.go:91-117 | `name` is "collectionName" exactly when the category is album or TV show, and "trackName" exactly otherwise, including when no category is selected |
| Query.KeysOfQuery | ipic.go:89-121 | The keys are exactly size, name, term when no category is selected, and exactly those plus media and entity when one is |
| Query.FilterOfCategory | ipic.go:99-121 | A selected category sends its own (media, entity) pair: i ("softare", "software"), m ("software", "macSoftware"), a ("music", "album"), f ("movie", "movie"), t ("tvShow", "tvSeason"), b ("ebook", "ebook") |
| Query.UnfilteredQuery | ipic.go:89-92 | With no switch set, the query is exactly {size: 4096, name: trackName, term: joined args}, with no media or entity key |
| Query.AbbeyRoadQuery | ipic.go:107-110 | `-a Abbey Road` gives size 4096, name collectionName, term "Abbey Road", media music, entity album |
| Strings.Join | ipic.go:92 | `strings.Join`: the empty list gives ""; otherwise the length is the sum of the parts plus one separator between each adjacent pair |
| Strings.SplitJoinRoundTrip | ipic.go:92 | Joining non-empty lists of parts without the (one-character) separator and splitting again gives back the parts, so the term determines the arguments when none contains a space |
| Strings.SplitPiecesFree | ipic.go:157 | No piece of `Split(s, sep)` contains `sep` |
| Strings.SplitCutsAtFirst | ipic.go:157 | The split scans left to right: no occurrence starts inside the first piece; one piece means the string has no occurrence; otherwise an occurrence starts right after the first piece and the other pieces are the split of the text after it |
| Strings.OverlappingOccurrences | ipic.go:157 | "100x100" occurs at 1 and at 5 in "1100x100x100", the split is ["1", "x100"] and the replacement gives "14096x4096x100": an occurrence overlapping a replaced one is not replaced |
| Strings.SplitFirstIsPrefix | ipic.go:157 | The first piece of a split is a prefix of the string |
| Strings.ReplaceAll | ipic.go:157 | `strings.Replace(…, -1)`: a replacement of the pattern's length keeps the string's length |
| Strings.ReplaceAllIsJoinOfSplit | ipic.go:157 | Replacing every occurrence equals splitting at the occurrences and joining the pieces with the replacement |
| Strings.ReplaceAllAtMatch | ipic.go:157 | At an occurrence the replacement is emitted and the scan resumes after the occurrence; the inserted text is not scanned again |
| Strings.ReplaceAllSkips | ipic.go:157 | Text that contains no first character of the pattern is copied through and the rest is replaced independently |
| Strings.ReplaceAllLength | ipic.go:157 | The result's length is the input's plus `Count` × (|rep| − |pat|), where `Count` counts the non-overlapping occurrences found left to right |
| Strings.OccursIffCounted | ipic.go:157 | The left-to-right scan finds at least one occurrence exactly when the pattern occurs somewhere |
| Strings.ReplaceAllAbsent | ipic.go:157 | A string without the pattern is returned unchanged |
| Strings.UnchangedIffAbsent | ipic.go:157 | For a replacement of different length, the string is unchanged if and only if the pattern does not occur in it |
| Strings.ReplaceAllSelf | ipic.go:157 | Replacing a pattern by itself is the identity |
| Strings.JoinSplitRoundTrip | ipic.go:157 | Splitting at a non-empty separator and joining with it gives back the string |
| Results.DimensionsOfThumbnail | ipic.go:156-157 | The replaced pattern "100x100" is the thumbnail size 100 in the same `%sx%s` form as the new size, and that form determines the size: equal dimensions come from equal sizes |
| Results.Coalesce | ipic.go:159-163 | The name is the track name when it is non-empty, otherwise the collection name; it is "" exactly when both are "" |
| Results.CoalesceExamples | ipic.go:160-163 | ("Foo", "Bar") gives "Foo", ("", "Bar") gives "Bar", ("", "") gives "" |
| Results.Normalised | ipic.go:155-163 | Normalising an entry keeps its thumbnail URL, track name and collection name |
| Results.NormalisedAll | ipic.go:154-164 | Normalising the results keeps their number |
| Results.SearchResponse.NormaliseResults | ipic.go:154-164 | The in-place loop leaves the array equal to `NormalisedAll` of its old contents, for the size `v.Get("size")`: same length and order, entry k normalised from old entry k only |
| Results.SearchResponse.constructor | ipic.go:67-76 | The response the loop works on: the decoded results, in order, in a fresh array, and an empty title, which stands for whatever decoding left there since line 166 overwrites it |
| Results.NormalisedAllAt | ipic.go:154-164 | Entry k afterwards keeps entry k's URL, track and collection name; its big URL is the thumbnail URL split at "100x100" and joined with size+"x"+size, and no piece of that split contains "100x100"; its name is the coalesced name |
| Results.DependsOnlyOnSources | ipic.go:155-163 | Two entries that agree on thumbnail URL, track name and collection name normalise to the same entry, whatever their other fields held |
| Results.NormalisedAllIdempotent | ipic.go:154-164 | Normalising already normalised results changes nothing |
| Results.BigArtworkUnchangedIffNoThumbnailSize | ipic.go:156-157 | With size "4096", the big URL equals the thumbnail URL if and only if the thumbnail URL does not contain "100x100" |
| Results.ArtworkExample | ipic.go:156-157 | "http://example/100x100bb.jpg" becomes "http://example/4096x4096bb.jpg" |
| Ipic.Run | ipic.go:86-166 | With `-h` nothing reaches the page and no request is made. Otherwise the page title is the space-joined term and the results are the decoded results normalised with size "4096", in order |

## Left out

- Flag parsing by the `flag` package (ipic.go:78-87, 96): the parsed switches and positional arguments are inputs.
- Usage text printed for `-h` (ipic.go:95-97): output to standard error only; the model records only that usage is shown and nothing else happens.
- Building and sending the HTTP request, the 3-second client timeout and `url.Values.Encode` percent-encoding (ipic.go:123-140): network I/O and library serialisation.
- The Content-Type warning (ipic.go:142-144): it only writes to standard error and changes nothing.
- JSON decoding into `SearchResponse` (ipic.go:146-152): the decoded results are a parameter of `Ipic.Run`. Any `ArtworkURLBig` or `Name` they carry from decoding is overwritten by the loop, and the model does the same. `Title` has no json tag, so Go fills it from a `"title"` key (matched case-insensitively); line 166 overwrites it, and the model starts it empty.
- Exit codes 1, 2 and 3 (ipic.go:127, 138, 151): process control tied to the I/O failures above.
- Output path construction from `$HOME` with `filepath.Join`, and file creation (ipic.go:168-174): filesystem I/O and path cleaning.
- HTML rendering with `html/template` (ipic.go:33-64, 177-182): a foreign templating engine with context-sensitive escaping. `Ipic.Run` returns the values the template would receive.
- Launching `open` on macOS (ipic.go:184-190): starting an OS process.
- Strings.ReplaceAll: a character is a Unicode scalar value, while a Go string is a sequence of bytes that may hold invalid UTF-8 (each bad byte then counts as one rune). So lengths are not byte counts, and invalid UTF-8 is not modelled; the empty-pattern case, which inserts between runes, is affected only through that. ipic never uses that case; it always passes "100x100".
- Strings.SplitJoinRoundTrip: stated for one-character separators only, which is what ipic uses (" "). With longer separators, occurrences can straddle piece boundaries. It is also stated for non-empty lists only: with no positional arguments the term is "", and `Split("", " ")` is `[""]`, so `ipic -a` and `ipic -a ""` send the same term.
