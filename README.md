# 1337x spider core, modelled in Dafny

This project models the extraction engine of the 1337x site crawler (`T1337x`), which turns listing and detail pages of the site into torrent records. It covers four operations:

- **`getPage`** (module `Listing`, `listing.dfy`) scans a category listing page.
  - A row becomes a topic reference when it links to a detail page (`href="/torrent/…"`) and is not older than the look-back window.
  - Each topic carries seed and leech counts read from the digits of their cells, and a pacing delay of `10·n + random(10, 20)` seconds.
  - A continuation cursor for the next page follows the topics when at least one topic was yielded and the pagination block mentions `Last`.
  - The generator is modelled as the finite sequence of what it yields. The page is the sequence of its rows, and the clock and random draws are parameters.
- **`getFiles` / `subTree`** (module `FileTree`, `file_tree.dfy`) flatten the file tree of a detail page.
  - The tree is made of groups with an optional directory label, nested groups and leaf lines such as `name (1.5 GB)`.
  - The result is a list of `(path, size in bytes)` entries.
  - `SubTree` and `GetFiles` are methods with the source's loops, proved against the recursive specification `Flatten`.
- **`getImdbByTitle`** (module `TitleLookup`, `title.dfy`) classifies a topic title.
  - It chooses between a show search by name, a movie search by name and four-digit year, or no search.
  - The two searches are function parameters.
- **`getTopic`** (module `TopicDetail`, `topic.dfy`) is the decision sequence that either stores a torrent record or abandons the topic. Its steps are:
  1. the media id, from the description or else from the title;
  2. the magnet link;
  3. the file list;
  4. the language entry;
  5. the episode or movie torrent;
  6. the stored fields.

  The service calls are function parameters.

The modules share two small ones:

- `Text` (`text.dfy`) holds the string primitives behind the regular expressions and PHP string functions the code uses: digit filtering, `(int)` of a digit string, `trim()`, `strpos`, and the leftmost and rightmost match positions a regex engine settles on.
- `Wrappers` (`wrappers.dfy`) holds `Option`.

## Model

| member | source | states |
|---|---|---|
| Text.FindFirstSpec | src/Spider/T1337x.php:252 | The leftmost-match search finds a position where the pattern holds, and none before it; when it finds nothing, the pattern holds nowhere |
| Text.FindLastSpec | src/Spider/T1337x.php:258 | The rightmost-match search (where a greedy `^(.*)X` settles) finds a position where the pattern holds, and none after it; when it finds nothing, the pattern holds nowhere |
| Text.ContainsIff | src/Spider/T1337x.php:142 | `strpos(...) !== false` holds exactly when the needle starts at some index |
| Text.Digits | src/Spider/T1337x.php:163 | Stripping non-digits yields only digits, no longer than the input, and is empty exactly when the cell has no digit |
| Text.DigitsAppend | src/Spider/T1337x.php:163 | Stripping non-digits from a concatenation strips each part and joins the results: every digit is kept, in order |
| Text.DigitsSnoc | src/Spider/T1337x.php:163 | One more character adds itself to the kept digits exactly when it is a digit |
| Text.DecimalValue | src/Spider/T1337x.php:169-170 | `(int)` of a digit string of length d is below 10^d |
| Text.LeadingTrimSpec | src/Spider/T1337x.php:219 | The characters `trim()` strips at the front are all trimmable, and the next one is not |
| Text.TrailingTrimSpec | src/Spider/T1337x.php:219 | The characters `trim()` strips at the end are all trimmable, and the one before them is not |
| Text.TrimSpec | src/Spider/T1337x.php:219 | `trim()` returns a slice of its input with only trimmable characters cut on either side, and neither end of the result is trimmable |
| Text.TrimIdentity | src/Spider/T1337x.php:219 | `trim()` leaves a string unchanged exactly when neither of its ends is trimmable |
| Text.QuotedAtSound | src/Spider/T1337x.php:73 | A capture of `lead(stem[^"]+)"` reported at an index really matches there: the stem, at least one quote-free character, then a quote |
| Text.QuotedAtComplete | src/Spider/T1337x.php:73 | Every such match at an index is reported there, with its capture |
| Text.CaptureQuotedSpec | src/Spider/T1337x.php:73 | `preg_match` of the quoted pattern finds a capture exactly when the pattern matches somewhere, and the capture is the one at the leftmost matching index |
| Listing.ParseCountSpec | src/Spider/T1337x.php:162-170 | A seed or leech count is never negative, is 0 when its cell has no digit, and is below 10^d for d digits |
| Listing.ParseCountStep | src/Spider/T1337x.php:162-170 | Reading a cell left to right, a digit multiplies the count by ten and adds its value, and any other character leaves the count unchanged; this fixes the count of every cell |
| Listing.ParseCountExamples | src/Spider/T1337x.php:163-170 | `1,234` reads 1234; ` 0 ` and `n/a` read 0 |
| Listing.LinkSpec | src/Spider/T1337x.php:151 | A row's link is found exactly when `href="/torrent/…"` with a non-empty, quote-free path occurs; the id is that path, `/torrent/` included |
| Listing.LinkImpliesFilter | src/Spider/T1337x.php:141-151 | The `href="/torrent` pre-filter never drops a row whose link the capture finds |
| Listing.RowYieldsIff | src/Spider/T1337x.php:149-160 | A row yields exactly when it has a link and its time is not strictly before the cutoff; what it yields is its link |
| Listing.VerdictAt | src/Spider/T1337x.php:149-160 | The verdict on each row depends only on that row and the cutoff |
| Listing.TopicsBeforeStep | src/Spider/T1337x.php:167-174 | Each examined row appends its topic when it yields one, and nothing otherwise |
| Listing.RowVerdict | src/Spider/T1337x.php:135-160 | One row through the pre-filter, the link capture and the cutoff yields exactly when it has a link and its time is not strictly before the cutoff, and then yields that link (the pre-filter never drops such a row) |
| Listing.CollectTopics | src/Spider/T1337x.php:147-176 | The loop yields the topics of the yielding rows in page order; `$exist` is set exactly when something was yielded |
| Listing.GetPage | src/Spider/T1337x.php:127-186 | `getPage` yields exactly the page output: the topics, then the continuation cursor when it is due |
| Listing.YieldingRowsExact | src/Spider/T1337x.php:149-175 | The yielding row indices are listed once each, in increasing order, and are exactly the rows whose verdict is to yield |
| Listing.TopicsAreYieldingRows | src/Spider/T1337x.php:149-175 | One topic per yielding row, in page order; each topic is the one built for that row from its own link and its own index |
| Listing.CutoffSkipsOnlyOlderRows | src/Spider/T1337x.php:152-160 | An older linked row is passed over, and a later row within the window still yields: the scan goes on past old rows |
| Listing.UnparsedTimeAlwaysYields | src/Spider/T1337x.php:153-158 | A linked row whose time does not parse always yields, whatever the cutoff |
| Listing.NoWindowYieldsEveryLinkedRow | src/Spider/T1337x.php:146-158 | With no look-back window (null or 0), a row yields exactly when it has a link |
| Listing.TopicFields | src/Spider/T1337x.php:162-172 | Every topic carries its row's link and non-negative counts, and a delay of `10·n + r` with `10 <= r <= 20` for its original row index `n`; delays never decrease along the output |
| Listing.ContinuationRule | src/Spider/T1337x.php:173-185 | The cursor is yielded exactly when some topic was yielded and the pagination mentions `Last`. It comes last, keeps the category and window, advances the page by one and carries the delay |
| FileTree.RunEndSpec | src/Spider/T1337x.php:218 | The `[\d.]+` run is made of digits and dots and ends at a character that is neither |
| FileTree.LeadingDigitsSpec | src/Spider/T1337x.php:220 | The leading digits are a prefix of the text, followed by a non-digit |
| FileTree.NumberValue | src/Spider/T1337x.php:220 | `(float)` of a size run is never negative |
| FileTree.FirstSizeSpec | src/Spider/T1337x.php:218 | The size suffix the lazy `(.*?)` stops at is the leftmost one; none is found exactly when none occurs |
| FileTree.ParseLeafSpec | src/Spider/T1337x.php:218-220 | A leaf line matches exactly when a size suffix occurs in it. Group 1 is the text before the leftmost suffix, group 2 is the digit-and-dot run inside it, and group 3 is the unit its letter names |
| FileTree.Scale | src/Spider/T1337x.php:221-228 | The fall-through `switch` multiplies by 1024, 1024² or 1024³ for KB, MB or GB |
| FileTree.LeafFileSpec | src/Spider/T1337x.php:218-229 | A leaf line gives a file exactly when it has a size suffix. The file is named by the directory and the trimmed text before the leftmost suffix; its size is that suffix's number scaled by 1024, 1024² or 1024³ for its unit, and never negative |
| FileTree.RenamedAppend | src/Spider/T1337x.php:209-213 | Renaming a concatenation renames each part |
| FileTree.SubStep | src/Spider/T1337x.php:207-214 | A nested-group step appends that group's files renamed with this group's prefix |
| FileTree.LeafStep | src/Spider/T1337x.php:217-230 | A leaf step appends the leaf's file, if any |
| FileTree.AppendRenamed | src/Spider/T1337x.php:209-213 | The inner loop appends every returned file renamed with the prefix, in order |
| FileTree.AppendLeaf | src/Spider/T1337x.php:217-230 | One leaf pass appends that line's file, if any |
| FileTree.SubTree | src/Spider/T1337x.php:197-233 | `subTree` returns the nested groups' files renamed with the prefix, then the leaves' files, exactly as `Flatten` specifies |
| FileTree.GetFiles | src/Spider/T1337x.php:188-195 | `getFiles` returns the top-level groups' files, one group after the other |
| FileTree.NamesUnderPrefix | src/Spider/T1337x.php:200-229 | Every path a group returns starts with that group's own directory prefix |
| FileTree.StepUnderPrefix | src/Spider/T1337x.php:207-229 | Every path a single step appends starts with the group's prefix |
| FileTree.LeafOutUnder | src/Spider/T1337x.php:229 | A leaf's file is named under its directory |
| FileTree.NamesUnderAppend | src/Spider/T1337x.php:212 | Appending two lists whose paths are all under a directory keeps them all under it |
| FileTree.RenamedLeaf | src/Spider/T1337x.php:211-229 | Renaming a leaf's file with a prefix is the same as placing the leaf one directory deeper |
| FileTree.RenamedTwice | src/Spider/T1337x.php:211 | Renaming twice is renaming once with the joined prefix |
| FileTree.RenamedFlatten | src/Spider/T1337x.php:197-233 | Renaming a group's files with a directory gives the files of a top-down walk starting in that directory |
| FileTree.RenamedFilesUpTo | src/Spider/T1337x.php:206-230 | The same holds after every step of `subTree` |
| FileTree.RenamedStep | src/Spider/T1337x.php:206-230 | The same holds for each single step |
| FileTree.FlattenIsTopDown | src/Spider/T1337x.php:197-233 | Renaming bottom-up gives the same files, in the same order, as parsing each leaf at its full path top-down |
| FileTree.ParsedLeaves | src/Spider/T1337x.php:217-230 | The count of leaf lines with a size suffix is 0 before the leaf steps start and at most the number of leaf steps taken |
| FileTree.ParsedLeavesAll | src/Spider/T1337x.php:217-230 | Every leaf step so far counts exactly when every leaf line so far has a size suffix |
| FileTree.LeafOutCount | src/Spider/T1337x.php:218-229 | A leaf contributes one file when it has a size suffix and none otherwise |
| FileTree.SubsCount | src/Spider/T1337x.php:207-214 | After the nested-group steps, the result holds as many files as the nested groups return |
| FileTree.LeafStepAt | src/Spider/T1337x.php:217-230 | A leaf step appends the file of its leaf line, if any |
| FileTree.LeavesCount | src/Spider/T1337x.php:206-230 | After the nested groups and some leaves: the nested groups' files plus one per parsed leaf |
| FileTree.FlattenAt | src/Spider/T1337x.php:232 | `subTree` returns what it has collected after its last step |
| FileTree.FlattenCount | src/Spider/T1337x.php:206-232 | `subTree` returns the nested groups' files plus exactly one file per leaf line with a size suffix |
| FileTree.FlattenCountBounds | src/Spider/T1337x.php:217-230 | At most one file per leaf line beyond the nested groups' files, with exactly one per line if and only if every line has a size suffix |
| FileTree.FlattenAllMembers | src/Spider/T1337x.php:191-194 | `getFiles` returns a file exactly when some top-level group's `subTree` returns it |
| FileTree.NumberValueFractions | src/Spider/T1337x.php:220 | `(float)"1.5"` is 1.5 and `(float)"1.2.3"` is 1.2 |
| FileTree.NumberValueWhole | src/Spider/T1337x.php:220 | `(float)"700"` is 700 and `(float)"."` is 0 |
| FileTree.FirstSizeSkips | src/Spider/T1337x.php:218 | The suffix search passes over text without an opening parenthesis |
| FileTree.FirstSizeExample | src/Spider/T1337x.php:218 | In `Episode1 (1.5 GB)` the suffix starts at index 9 |
| FileTree.ParseLeafExample | src/Spider/T1337x.php:218 | `Episode1 (1.5 GB)` gives the groups `Episode1 `, `1.5` and GB |
| FileTree.TrimExamples | src/Spider/T1337x.php:219 | `trim("Episode1 ")` is `Episode1` |
| FileTree.LeafFileExample | src/Spider/T1337x.php:218-229 | `Episode1 (1.5 GB)` in `Season1/` is `Season1/Episode1` with 1610612736 bytes |
| FileTree.SeasonExample | src/Spider/T1337x.php:200-232 | A group labelled `Season1` with that leaf returns that single file |
| FileTree.UnmatchedLeafAsWritten | src/Spider/T1337x.php:218-229 | As written, a line without a size suffix becomes a file named after its directory with size 0; the corrected step gives no file |
| TitleLookup.DotsToSpacesSpec | src/Spider/T1337x.php:237 | Replacing dots keeps the length, leaves no dot, turns every dot into a space, changes nothing else and is idempotent |
| TitleLookup.IsSerialSpec | src/Spider/T1337x.php:238-249 | A title is a serial exactly when `Season` (in any case) or an `SxxEyy` tag occurs, or no `(yyyy)` year does |
| TitleLookup.ShowNameSpec | src/Spider/T1337x.php:252-254 | A show name exists exactly when a season marker occurs, and it is the trimmed text before the leftmost one |
| TitleLookup.MovieKeySpec | src/Spider/T1337x.php:258-266 | The movie key comes from the rightmost `(yyyy`, else from the leftmost ` yyyy`. There is none exactly when neither occurs, and the year is four digits |
| TitleLookup.ClassifySpec | src/Spider/T1337x.php:237-266 | A show search happens exactly for a serial with a season marker, named by the text before the leftmost marker. No search happens exactly when that fails and neither year shape occurs. Otherwise a movie search happens with a four-digit year. A title with a `(yyyy)` year always gets a search |
| TitleLookup.ImdbByTitle | src/Spider/T1337x.php:235-269 | On the dot-free title: a serial with a season marker gets the show search for the trimmed text before the leftmost marker. Otherwise the movie search is made for the text before the rightmost `(yyyy` with that year, or failing that before the leftmost ` yyyy`. With none of these the result is no id |
| TitleLookup.NoMarkerWithoutS | src/Spider/T1337x.php:252 | No season marker starts in a stretch without an `S` |
| TitleLookup.NoOpenYearWithoutParen | src/Spider/T1337x.php:258 | No `(yyyy` starts in a stretch without an opening parenthesis |
| TitleLookup.ShowTitleExample | src/Spider/T1337x.php:237-255 | `The.Thing.S02E05.720p` is searched as the show `The Thing` |
| TitleLookup.MovieTitleExample | src/Spider/T1337x.php:237-268 | `Some.Movie.(2020).1080p` is searched as the movie `Some Movie`, 2020 |
| TitleLookup.SpacedYearExample | src/Spider/T1337x.php:258-268 | `Some.Movie.2020.1080p` falls back to the spaced year: movie `Some Movie`, 2020 |
| TopicDetail.ResolveImdb | src/Spider/T1337x.php:59-67 | A media id that is found is never falsy |
| TopicDetail.ResolveImdbSpec | src/Spider/T1337x.php:59-67 | The description's own id wins when truthy; otherwise the title's guess is used when truthy; no id is found when the title gives nothing to search |
| TopicDetail.MagnetSpec | src/Spider/T1337x.php:73-78 | A magnet is found exactly when a `"magnet…"` literal with at least one character after `magnet` occurs. It begins with `magnet`, holds no quote and is the leftmost such literal |
| TopicDetail.FirstWithSpec | src/Spider/T1337x.php:82-87 | `current(array_filter(...))` gives the first item the filter keeps, and false exactly when it keeps none |
| TopicDetail.EpisodeOfSpec | src/Spider/T1337x.php:90-95 | An episode tag is found exactly when `S\d\dE\d\d` occurs; season and episode are the two-digit numbers of the leftmost tag, each below 100 |
| TopicDetail.TwoDigits | src/Spider/T1337x.php:95 | `(int)` of two digits is ten times the first plus the second |
| TopicDetail.StoredRecordSpec | src/Spider/T1337x.php:113-122 | A stored record carries the title, the leftmost magnet, the seed count, `peer = seed + leech`, the quality, the language's ISO code and the flattened file tree |
| TopicDetail.NoMagnetNoStore | src/Spider/T1337x.php:73-77 | A page without a magnet literal is abandoned, and for that reason when an id was found |
| TopicDetail.NoIdentityNoStore | src/Spider/T1337x.php:59-66 | With no id in the description and nothing to search in the title, the topic is abandoned at the first step |
| TopicDetail.CrashSpec | src/Spider/T1337x.php:82-88 | The run fails with an error exactly when an id and a magnet are found but no attribute entry mentions `Language`, or the first one that does has no `span` |
| TopicDetail.EpisodeRouting | src/Spider/T1337x.php:90-108 | A tagged title is stored on the episode torrent of the tagged episode of the media's show; an untagged title is stored on the movie torrent |
| TopicDetail.RoutesIndependent | src/Spider/T1337x.php:90-108 | The lookups of the route not taken play no part in the outcome |
| TopicDetail.OwnIdSkipsSearch | src/Spider/T1337x.php:59-67 | With a truthy id in the description, the title searches play no part in the outcome |
| TopicDetail.StoredIff | src/Spider/T1337x.php:48-125 | A record is stored exactly when every step succeeds: an id, a magnet, a readable language entry and a torrent |
| TopicDetail.MagnetExample | src/Spider/T1337x.php:73-78 | `"magnet:?xt"` is captured without its quotes |
| TopicDetail.EpisodeExample | src/Spider/T1337x.php:90-95 | `S02E05` reads as season 2, episode 5 |

## Left out

- Text.Digits: its own contract does not say that every digit is kept in order; Text.DigitsAppend and Text.DigitsSnoc state that for all inputs.
- Listing.ParseCountSpec: states only the sign, the zero case and a bound; the value itself is fixed by Listing.ParseCountStep.
- Fetching pages and parsing their markup (the HTTP client and DomCrawler) is left out. A listing page is modelled as its rows (markup, parsed time, seed and leech cells) plus the markup of its pagination block. A detail page is modelled as its title, description, torrent table markup, file-tree groups and attribute-list items.
- `\DateTime` parsing, the clock and `random_int` are parameters: a row's time is an optional integer, `now` is an integer, and the jitter and delay draws are given with their ranges as preconditions.
- The generator's laziness is left out: `getPage` is modelled as the finite sequence of what it yields. A consumer that stops early sees a prefix of it.
- The service calls are function parameters whose behaviour is not modelled: `getImdb`, `getQuality`, `langName2IsoCode`, `getTorrentByImdb`, `TorrentService`, `EpisodeService` and `updateTorrent`. Torrents, shows and episodes are integer handles. `getImdb`, `getQuality` and `langName2IsoCode` are in the base spider class, which is not part of this model.
- The `File` objects that `setName` renames in place are modelled as values. Each file is created by a single `subTree` call and never shared, so no aliasing is lost.
- Sizes are exact reals. PHP float rounding is not modelled.
- Seed and leech counts are unbounded naturals: the platform-integer overflow of `(int)` on a very long digit string is not modelled. The same holds for `seed + leech`.
- `mb_stripos` case folding is ASCII only; multibyte case folding is not modelled.
- The `.` of the regular expressions does not match a newline in PCRE. The model treats the texts as single lines, since DomCrawler's `text()` normalises whitespace.
- The logger calls (`No IMDB`, `Not Magnet torrent`) are side effects only and are left out.
- DomCrawler throws when `text()`, `html()`, `attr()` or `children()` is called on an empty node list. The model assumes the markup has every element these calls read, and does not model the exceptions:
  - the `h1` title (line 57) and the `.torrent-detail-page` table (line 73) of a detail page; a missing `#description` does not throw here, since `first()` of an empty list is an empty list, and what `getImdb` and `getQuality` do with it is not part of this model;
  - the `td.coll-date`, `td.seeds` and `td.leeches` cells of a linked row (lines 152, 162, 164);
  - the `.pagination` block (line 183), read after the topics have been yielded, so a page without it yields its topics and then throws;
  - the `#files` element (line 191);
  - a preceding sibling of every `ul` group (line 200): `head: None` stands for a preceding sibling whose class is not `head`, not for a group without any preceding sibling.
- TopicDetail.GetTopic: the error when the `Language` entry is missing or has no `span` is modelled as the outcome `Crashed`; which exception is raised is not modelled.
- The model follows the code in these places:
  - Cutoff: an older row is skipped with `continue` and the scan goes on; it does not stop at the first old row. The comparison is strictly earlier than the cutoff.
  - Pacing: the delay uses the row's original index `n` (`array_filter` keeps the keys), not the topic's rank among those yielded.
  - Window: a look-back window of 0 counts as no window (PHP truthiness of `$forum->last`).
  - Language: a missing `Language` entry ends the run with an error rather than being skipped. An unmapped language is whatever the ISO lookup function returns; the model does not distinguish it from a mapped code.

## Findings

| source | as written | input that shows it | evidently intended | confidence | as-written member | corrected member |
|---|---|---|---|---|---|---|
| src/Spider/T1337x.php:218-229 | A leaf line without a `(size unit)` suffix leaves `$m` empty. `$m[1]` and `$m[2]` read as null, and a `File` named after the directory with size 0 is still appended | the leaf line `README` in group `Season1` gives the file `Season1/` of size 0 | a leaf line that does not match is dropped, and no file is produced | not executed | FileTree.UnmatchedLeafAsWritten | FileTree.LeafFileSpec |
