# oms-parser, modelled in Dafny

oms-parser turns a pile of media file paths into a Show → Season → Episode
catalogue and then enriches that catalogue with records from an external TV
database. This project models the four pieces of sequential logic that do
the work and proves what they guarantee:

- **Season-number heuristic** (`parse_season_number`, `parser.dfy`,
  module `Parser`). It is a chain of rules over the space-separated tokens of
  a release name. A name mentioning "specials" is season 0. Otherwise the
  integer after the first "season" token wins. Failing that, the digits of the
  first token that starts with `s` are concatenated and parsed as an `i32`.
  The out-of-bounds index when "season" is the last token is an explicit
  result, `IndexOutOfBounds`. Worked names are in `ParserExamples`.
- **Catalogue builder** (the loop of `build_config`, `catalogue.dfy`,
  module `Catalogue`). The `BaseConfig` class holds `media`, and its method
  `AddPath` does one iteration in place. It finds or creates the show by
  title, then the season by number, then the episode by number. The specification
  functions `AddFile` and `Build` describe the same fold on values, and the
  lemmas are proved about them: uniqueness at every level, first-encounter
  order, append-only growth, exact counts, and duplicate episodes dropped.
- **Path trie** (`paths_to_structure`, `trie.dfy`, module `S3Trie`). It
  inserts `/`-split object keys into a tree of `Node`s. Children are found or
  created by name, child lists are created lazily, and each new child's path is
  its parent's path, `/` and its name.
- **Metadata merge** (`set_metadata` and its title search, `metadata.dfy`,
  module `Metadata`). The three database calls are the fields of an `Api`
  value. The truncating title search is modelled as written, with a fuel
  bound that exposes its missing base case. The proofs show that `Bound(name)`
  retries decide whether it returns at all. The merge overwrites show, season
  and episode fields and never changes the catalogue's shape. An `unwrap` on a
  missing season number is an explicit `Panics` outcome, and a search that
  does not return is an explicit `Hangs` outcome: its recursion never
  reaches a stopping case, so the real process recurses until it exhausts
  its stack. The `Library` class runs the
  show loop in place.

`common.dfy` (module `Common`) holds the shared string vocabulary:
`position`, ASCII `to_lowercase`, `split` on one character, `join`,
`split_whitespace`, `pop`, and sums over lists.

Four behaviours of the code are easy to miss, and the model keeps each as
written:
- A file whose episode number is already present in its season is dropped,
  so the episode keeps the first path met (src/main.rs:103-117,
  `Catalogue.DuplicateEpisodeDropped`, `Catalogue.BuildKeepsFirstPath`).
- A missing season number becomes 0, and so does a missing episode number
  (src/main.rs:85 and 101, `Catalogue.AddFileFiles`).
- The title search has no case that stops at the empty query. It either
  returns a hit or recurses on `""` without end
  (src/metadata.rs:85-95, `Metadata.HangsIffEveryAttemptMisses`).
- Enrichment can panic: a local season 0 matched by an external season
  without a number reaches `season_number.unwrap()`
  (src/metadata.rs:40-49, `Metadata.MergeSeasonRule`).

## Model

| member | source | states |
|---|---|---|
| Common.Position | src/main.rs:71 | `iter().position(p)`: an index, when present, is in range and satisfies `p`, and every earlier element fails `p`; absent exactly when no element satisfies `p` |
| Common.Lower | src/parser.rs:2 | lower-casing keeps the length and maps each character through ASCII case folding |
| Common.HasSubstringExactly | src/parser.rs:2 | `contains` holds exactly when the word occurs at some offset of the name |
| Common.Split | src/parser.rs:6 | `split` on one character yields at least one piece, and no piece contains the separator |
| Common.JoinSplit | src/parser.rs:6 | joining the pieces of a split with the separator gives back the input, so no character is lost or invented |
| Common.SplitJoin | src/s3.rs:38 | splitting a join of separator-free pieces gives back exactly those pieces, empty pieces included |
| Common.WhitespaceLayout | src/metadata.rs:91 | the input is exactly the words of `split_whitespace`, each non-empty and free of whitespace, interleaved with whitespace-only gaps, and the gaps between two words are non-empty, so no non-whitespace character is lost or invented |
| Common.SplitJoinWords | src/metadata.rs:91-94 | `split_whitespace` undoes `join(" ")` on a list of words |
| Common.DropLastInverse | src/metadata.rs:92 | `pop` undoes `push`, and what it leaves followed by the element it removed is the original list |
| Parser.ParseI32Exactly | src/parser.rs:10 | `parse::<i32>` of a digit run, with an optional `+` or `-`, is its decimal value (negated after `-`) exactly when that lies in the 32-bit range; a sign alone, the empty string or any non-digit after the sign does not parse |
| Parser.LeadingZero | src/parser.rs:23 | a leading zero does not change a digit run's value, so zero-padded numbers such as "01" parse as 1 |
| Parser.DecimalValueOfDecimal | src/parser.rs:23 | the value of a decimal rendering is the number rendered |
| Parser.ParseRendered | src/parser.rs:10-11 | every 32-bit integer written in decimal parses back to itself |
| Parser.OverflowRefused | src/parser.rs:23-26 | a digit run above `i32::MAX` does not parse, so the `s` rule falls through |
| Parser.DigitsOfFilter | src/parser.rs:19-22 | filtering the digits distributes over concatenation, keeps a digit run unchanged and empties a string without digits: the result is exactly the token's digits in order |
| Parser.ParseSeasonNumber | src/parser.rs:1-4 | a name containing "specials" in any letter case is season 0, whatever its other tokens say |
| Parser.SeasonWordRule | src/parser.rs:9-13 | when the token after the first "season" parses, that value is the result, ahead of any `s` token |
| Parser.SeasonWordLastIsOutOfBounds | src/parser.rs:9-10 | the index error happens exactly when there is no "specials" and the first "season" token is the last token |
| Parser.STokenRule | src/parser.rs:17-29 | when the "season" rule misses, the parsed digits of the first `s` token decide, and later `s` tokens are never tried |
| Parser.NoSeasonExactly | src/parser.rs:1-31 | there is no value exactly when there is no "specials", the "season" rule misses, and the first `s` token has no parsable digits |
| ParserExamples.OnlyFirstSTokenCounts | src/parser.rs:18-28 | "Show S02" has no season: "Show" is the first `s` token and has no digits |
| ParserExamples.AllDigitsConcatenated | src/parser.rs:19-25 | "S01E02" is season 102, because all the digits of the token are kept |
| ParserExamples.DoubleSpaceTokens | src/parser.rs:6 | "Season  2" splits into "Season", an empty token and "2" |
| ParserExamples.DoubleSpaceDefeatsSeasonWord | src/parser.rs:6-29 | "Season  2" has no season: the token after "Season" is empty, and the `s` rule then finds "Season" |
| Catalogue.FindOrCreateShow | src/main.rs:71-81 | the show index returned is inside the returned list |
| Catalogue.FindOrCreateShowFacts | src/main.rs:71-81 | the indexed show has the title; existing shows are kept as a prefix; one empty show is appended exactly when the title is new; title uniqueness is kept |
| Catalogue.FindOrCreateSeason | src/main.rs:87-97 | the season index returned is inside the returned list |
| Catalogue.FindOrCreateSeasonFacts | src/main.rs:87-97 | the indexed season has the number; existing seasons are kept as a prefix; one empty season is appended, and the index points past the old list, exactly when the number is new |
| Catalogue.FindOrCreateSeasonUnique | src/main.rs:87-97 | season-number uniqueness survives find-or-create |
| Catalogue.AddEpisodeFacts | src/main.rs:103-117 | afterwards the episode number is present; a known number leaves the list unchanged; a new number appends exactly `Episode(number, path)`; uniqueness is kept |
| Catalogue.AddToSeasonsUnique | src/main.rs:87-117 | season and episode uniqueness survive filing one episode |
| Catalogue.AddToSeasonsFiles | src/main.rs:87-117 | afterwards the season holds the episode number |
| Catalogue.AddToSeasonsExtends | src/main.rs:94-95 | seasons are only appended to, and episode lists only grow at the end |
| Catalogue.AddToSeasonsCounts | src/main.rs:87-117 | at most one season and at most one episode are added, each exactly when it was missing |
| Catalogue.AddFileWellFormed | src/main.rs:65-117 | one iteration keeps titles, season numbers per show and episode numbers per season unique |
| Catalogue.AddFileFiles | src/main.rs:83-117 | afterwards the file's title, season (missing read as 0) and episode (missing read as 0) are catalogued |
| Catalogue.AddFileExtends | src/main.rs:78-79 | existing shows, seasons and episodes are never modified or removed; new ones go at the end |
| Catalogue.AddFileSeasonCount | src/main.rs:85-97 | the total number of seasons grows by one exactly when the file's show lacked its season number |
| Catalogue.AddFileEpisodeCount | src/main.rs:101-117 | the total number of episodes grows by one exactly when the file's episode was not yet catalogued |
| Catalogue.AddFileCounts | src/main.rs:71-117 | a show, a season and an episode are each added exactly when the title, the season or the episode was new |
| Catalogue.AddFileTitles | src/main.rs:71-81 | a new title is appended to the show list; a known title leaves the list of titles unchanged |
| Catalogue.DuplicateEpisodeDropped | src/main.rs:103-117 | a file whose episode is already catalogued leaves the whole catalogue unchanged, so the first path is kept |
| Catalogue.BuildWellFormed | src/main.rs:65-118 | after the whole loop every uniqueness invariant holds |
| Catalogue.BuildFiles | src/main.rs:65-118 | after the whole loop every path's title, season and episode number is catalogued (which path the episode carries: `BuildKeepsFirstPath`) |
| Catalogue.AddFileOnlyAdds | src/main.rs:71-117 | one iteration catalogues nothing new except the file's own title, season and episode |
| Catalogue.AddFileNewEntry | src/main.rs:109-114 | a file whose key is not yet catalogued is stored with its own path |
| Catalogue.FiledKept | src/main.rs:78-79 | growing the catalogue at the ends keeps every stored episode and its path |
| Catalogue.FiledUnique | src/main.rs:103-117 | in a well-formed catalogue each title, season and episode carries a single path |
| Catalogue.BuildOnlyFiles | src/main.rs:65-118 | everything catalogued after the loop is the title, season and episode of some path |
| Catalogue.BuildKeepsFirstPath | src/main.rs:103-117 | after the loop the episode under a path's key carries the first path with that key, and no other |
| Catalogue.BuildTitles | src/main.rs:71-81 | shows are listed in the order their titles are first met |
| Catalogue.BaseConfig.constructor | src/main.rs:59 | the configuration starts with no shows |
| Catalogue.BaseConfig.AddPath | src/main.rs:69-117 | one iteration done in place leaves `media` equal to `AddFile` of the old `media` |
| Catalogue.BuildConfig | src/main.rs:58-118 | the loop yields `Build` of the paths, a well-formed catalogue filing every path |
| S3Trie.FindOrCreateChild | src/s3.rs:46-56 | the child index returned is inside the returned child list |
| S3Trie.FindOrCreateChildFacts | src/s3.rs:46-56 | the indexed child has the name; existing children are a prefix; a new child is appended with no children and the path parent path, `/` and name, exactly when the name was absent |
| S3Trie.InsertParts | src/s3.rs:36-60 | inserting keeps the node's own name and path, and a non-empty key always leaves a child list behind |
| S3Trie.InsertWellFormed | src/s3.rs:46-56 | sibling names stay unique and every child's path stays its parent's path, `/` and its name |
| S3Trie.InsertKeepsChildOrder | src/s3.rs:54-55 | existing children keep their place, name and path; at most one child is appended |
| S3Trie.InsertKeepsChildOrderBelow | src/s3.rs:39-59 | at every node already in the tree, not only the root, inserting a key keeps the node, keeps its children in place with their names and paths, and appends at most one |
| S3Trie.BuildTreeKeepsChildOrder | src/s3.rs:35-61 | a node present after some keys keeps its children, in creation order, until the end of the loop, so siblings are listed in the order their names first occur |
| S3Trie.InsertLookup | src/s3.rs:35-60 | after inserting a key, a name chain leads to a node exactly when it did before or it is a prefix of the key; the node has a child list exactly when it had one or the key goes on past it; existing nodes keep their names and paths |
| S3Trie.InsertPresentIsIdentity | src/s3.rs:46-47 | re-inserting a key that is already present changes nothing |
| S3Trie.LookupPath | src/s3.rs:51 | in a well-formed tree, the node at a name chain has the start's path followed by `/` and each name |
| S3Trie.LookupName | src/s3.rs:50 | the node at a non-empty name chain is named after the chain's last element |
| S3Trie.BuildTreeWellFormed | src/s3.rs:28-63 | the finished tree is well formed, and its root has an empty name and an empty path |
| S3Trie.BuildTreeLookup | src/s3.rs:35-61 | a name chain reaches a node exactly when it is empty or begins some key; that node has a child list exactly when some key goes on past it |
| S3Trie.KeyPaths | src/s3.rs:35-60 | every key's pieces, empty ones included, lead to a node whose path is `/` before each piece |
| S3Trie.PathsToStructure | src/s3.rs:28-64 | the loop over the keys yields `BuildTree` of the keys: a well-formed tree with an empty root name and path, holding every key's chain |
| Metadata.DirtyNameRun | src/metadata.rs:85-95 | the title search never returns `None`: it returns a hit or keeps searching |
| Metadata.RunOutOfFuel | src/metadata.rs:85-95 | the search has not returned after `fuel` retries exactly when the first `fuel + 1` queries all miss |
| Metadata.RunReturnsFirstHit | src/metadata.rs:86-94 | a returned value is the hit of the first query that finds something |
| Metadata.TruncateWords | src/metadata.rs:91-93 | one retry drops exactly the last word and joins the rest with single spaces, and splitting that query gives back the remaining words |
| Metadata.QueryClosedForm | src/metadata.rs:91-94 | retry `i` searches for the first `k - i` words of the name, joined by single spaces, where `k` is the word count |
| Metadata.QueriesReachEmpty | src/metadata.rs:91-94 | from retry `Bound(name)` on, every query is the empty string |
| Metadata.RunMonotone | src/metadata.rs:85-95 | once the search has returned, more fuel does not change its result |
| Metadata.RunDecidedByBound | src/metadata.rs:85-95 | any fuel beyond `Bound(name)` gives the same outcome as `Bound(name)` |
| Metadata.HangsIffEveryAttemptMisses | src/metadata.rs:85-95 | the search never returns exactly when every one of its infinitely many queries misses |
| Metadata.MergeEpisode | src/metadata.rs:68-79 | an episode's number and path are never written |
| Metadata.MergeEpisodes | src/metadata.rs:68 | the episode loop keeps the number of episodes |
| Metadata.MergeSeason | src/metadata.rs:39-66 | a season step never hangs, and when it returns it keeps the season's number and its number of episodes |
| Metadata.MergeSeasons | src/metadata.rs:39-81 | the season loop never hangs, and when it returns it keeps the number of seasons |
| Metadata.MergeShow | src/metadata.rs:9-81 | a show step panics only when the show has a season numbered 0 |
| Metadata.MergeAll | src/metadata.rs:8-83 | a completed run keeps the number of shows |
| Metadata.Library.constructor | src/metadata.rs:8 | the library holds the catalogue it is given |
| Metadata.Library.SetMetadata | src/metadata.rs:8-83 | the in-place show loop completes, panics or hangs exactly as `MergeAll` says, and on completion `media` is `MergeAll`'s catalogue |
| Metadata.MergeShowStep | src/metadata.rs:10-37 | the body of the show loop computes `MergeShow` |
| Metadata.MergeSeasonList | src/metadata.rs:39-66 | the season loop, run in place on a copy, panics exactly when `MergeSeasons` does, and otherwise yields its seasons |
| Metadata.MergeEpisodeList | src/metadata.rs:68-80 | the episode loop, run in place on a copy, yields `MergeEpisodes` |
| Metadata.MergeEpisodeRule | src/metadata.rs:69-79 | a matched episode (first listed with its number, missing read as 0) gets that entry's name when present and is otherwise unchanged |
| Metadata.MergeEpisodeUnmatched | src/metadata.rs:69-75 | an episode with no listed counterpart is unchanged |
| Metadata.MergeEpisodesIdempotent | src/metadata.rs:68-80 | merging an episode list twice equals merging it once |
| Metadata.MergeSeasonRule | src/metadata.rs:40-66 | a matched season panics if the listed number is missing (its own number is then 0); it is unchanged if the fetch fails; otherwise the name is replaced when present, the air date always, and the episodes are merged when listed |
| Metadata.MergeSeasonUnmatched | src/metadata.rs:40-46 | a season with no listed counterpart is unchanged |
| Metadata.MergeSeasonIdempotent | src/metadata.rs:39-66 | merging a merged season again against the same database changes nothing |
| Metadata.MergeSeasonShape | src/metadata.rs:39-79 | a season keeps its number and its episodes' numbers and paths |
| Metadata.MergeShowShape | src/metadata.rs:9-81 | a show keeps its seasons, their numbers and their episodes' numbers and paths |
| Metadata.MergeAllShape | src/metadata.rs:8-83 | a completed run keeps the number of shows, seasons and episodes, their numbers and the episodes' paths; only fields are overwritten |
| Metadata.MergeShowUntouched | src/metadata.rs:10-23 | a show step hangs exactly when every query misses, and leaves the show unchanged when the hit has no id or its details fetch fails |
| Metadata.MergeShowFields | src/metadata.rs:25-37 | after a successful details fetch the name is replaced only when the hit has one; description, original name, air date and rating are replaced unconditionally; without a season list the seasons are untouched, and otherwise each season is merged |
| Metadata.MergeSeasonsFixed | src/metadata.rs:39-66 | a season list whose every season merges to itself merges to itself without panicking |
| Metadata.MergeShowIdempotentWhenSameHit | src/metadata.rs:10-80 | enriching an enriched show again changes nothing when the search for its new name finds the same hit as before |
| Metadata.RenamedShowSearchedAgain | src/metadata.rs:10-27 | enriching is not idempotent: a show "A" whose hit is named "B", where "B"'s hit is named "C", becomes "B" and then "C" |
| Metadata.MergeAllSteps | src/metadata.rs:9-83 | a run completes exactly when every show step returns, and then each show is its step's result; otherwise the first failing show decides between panic and hang |
| Metadata.PanicNeedsSeasonZero | src/metadata.rs:42-49 | the season loop panics only when a local season is numbered 0 |
| MetadataExamples.ReleaseNameWords | src/metadata.rs:91 | "Foo Bar S02 1080p" has the four words "Foo", "Bar", "S02" and "1080p" |
| MetadataExamples.FirstRetry | src/metadata.rs:91-94 | the first retry for "Foo Bar S02 1080p" searches "Foo Bar S02" |
| MetadataExamples.SecondRetry | src/metadata.rs:91-94 | the second retry searches "Foo Bar" |
| MetadataExamples.ThirdRetry | src/metadata.rs:91-94 | the third retry searches "Foo" |
| MetadataExamples.LaterRetries | src/metadata.rs:91-95 | every retry from the fourth on searches the empty string |

## Left out

- `main` (src/main.rs:32-40) and `parse_file_tree` (src/main.rs:42-56) are left out. They are a demo print and a filesystem walk; the model takes the list of paths as input.
- The JSON serialisation and printing at the end of `build_config` (src/main.rs:120-121) is output only.
- The release-name extractor `torrent_name_parser` (src/main.rs:67) is an external library. It is the parameter `extract`, and `Extractable` requires it to succeed on every file name, because the code unwraps its result.
- Catalogue.FileName: `path.file_name()` is the last `/`-separated piece. This matches paths that name files, as the directory walk produces them. A trailing `/` or a final `..` is not modelled.
- src/main.rs:5 imports `parse_season`, which src/parser.rs does not define. The model has `parse_season_number`.
- `parse_s3_structure` (src/s3.rs:6-26) is left out. It covers credentials, the network listing and the extension filter by regular expression. The filtered key list is the input of `PathsToStructure`.
- `parse_structure` and `parse_node` (src/structure.rs:13-45) walk the filesystem; only the `Node` record is modelled. Its `Option<Vec<Node>>` children are the datatype `ChildList`.
- S3Trie.InsertParts: the mutable cursor that walks down the tree is modelled as a recursive function. It rebuilds the nodes along the key's path as values. Only the outer loop over the keys is a method with a loop. Update in place through the borrowed cursor is not captured.
- `get_show_metadata`, `get_show_details` and `get_season_details` (src/metadata.rs:97-133) build HTTP clients with a built-in key. They are the three fields of `Api`. `search` returns the result list directly, so the unwrap of a missing list (src/metadata.rs:111) is not modelled.
- The debug prints (src/metadata.rs:61, 106) are output only.
- Metadata.Library.SetMetadata: says nothing about `media` after a panic or a hang, because the process aborts or never continues, so the partly updated catalogue is never observed.
- Metadata.DirtyNameRun: is bounded by explicit fuel, because the recursion need not terminate. `RunDecidedByBound` shows that `Bound(name)` retries settle the outcome, which holds because `search` is a pure function of the query.
- The search is modelled as a pure function of the query: a request that fails once and succeeds when repeated with the same query is not modelled.
- `Hangs` stands for a search that does not return because it recurses without end; the stack exhaustion that ends the real process is not modelled.
- `set_metadata` is not idempotent (`Metadata.RenamedShowSearchedAgain`): the overwritten name is what the next run searches for. Idempotence is proved only when the new name's search finds the same hit.
- src/metadata.rs reads and writes `show.name`, `description`, `original_name`, `air_date` and `rating`, a season's `name` and `air_date` and an episode's `name`. The `Show`, `Season` and `Episode` records of src/main.rs:15-31 have `title` and none of these fields, so the two files do not compile as one crate. The metadata model uses its own records that carry those fields.
- Ratings are copied and never computed with, so the floating-point value is a `real`.
- Common.Lower: `to_lowercase` is modelled as ASCII case folding; other Unicode case mappings are not modelled.
- Integer widths: season and episode numbers are unbounded integers outside `ParseI32`, which checks the `i32` range as `parse::<i32>` does. Arithmetic that could overflow does not occur.
