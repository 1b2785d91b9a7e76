# Luke–Josephus parallels: a Dafny model

The repository has two small programs that share one JSON file:

- `process_data.py` builds `full_parallels.json` offline. It has four parts:
  - it reads the text of Josephus's *Jewish War* and cuts it wherever a reference marker (`I.1.2`, `P.1.1`, ...) stands on a line of its own between two newlines;
  - it reads the CSV table of parallels between Luke and Josephus; the code splits each line on whitespace (process_data.py:37), not on commas;
  - for every Luke chapter and verse it keeps the *Wars* references whose book is 1 to 7, rewrites the book as a Roman numeral, looks up the Josephus text and collects `{ref, text}` entries;
  - it writes those entries with string keys.
- `script.js` is the page. It splits `luke.txt` into blank-line-separated blocks and renders every `Luke <chapter>:<verse>: <text>` block as a verse. A chapter heading appears whenever the chapter number changes. A verse is highlighted when the JSON has a list at its chapter and verse, even an empty one, since an empty array is truthy in JavaScript (script.js:52). A click on a highlighted verse fills the side panel with its entries and shows the panel. The close button hides the panel.

The model has nine files:

| file | module | what it holds |
|---|---|---|
| `wrappers.dfy` | `Wrappers` | `Option` |
| `seqs.dfy` | `Seqs` | `FilterMap`: a partial function mapped over a list, keeping what it does not reject, the shape of three of the loops |
| `strings.dfy` | `Strings` | the string primitives both programs use (see below) |
| `parallels_json.dfy` | `ParallelsJson` | the shape of `full_parallels.json`: chapter string → verse string → entries |
| `josephus_text.dfy` | `JosephusText` | `parse_josephus_text`: the `re.split` on `\n<marker>\n`, modelled by hand, and the `while` loop that builds the map |
| `parallels_csv.dfy` | `ParallelsCsv` | `parse_parallels_csv`: line cleaning, tokenising, the `chapter:verse` check, the Wars/Antiquities choice and the de-duplicating append, as a loop over the lines |
| `website_data.dfy` | `WebsiteData` | `ROMAN_MAP`, the three nested combine loops, the stringification of the keys, and the whole script as one run |
| `luke_text.dfy` | `LukeText` | the pieces of `displayLuke` as functions: the blank-line split, the verse matcher and the render instructions it produces; also the lookup of the click handler |
| `viewer.dfy` | `Viewer` | the page as a class: what has been rendered, the panel entries and the two visibility classes, with `displayLuke`, the click handler, `showSidebar` and `hideSidebar` as methods |

The string primitives in `strings.dfy`:

- JavaScript's `\s` and `trim`;
- Python's `isspace`, `strip`, `split()`, `split(c)` and `replace`;
- ASCII digits;
- `str(int)` and `int(str)`.

Imperative code stays imperative:

- Every loop of the source is a `method` with a `while` loop. Its contract ties the result to a specification function, and the lemmas state what the source promises about that function.
- The page state is a `class` whose methods have `modifies` frames.

## Model

| member | source | states |
|---|---|---|
| Strings.Trim | script.js:41 | the trimmed string is no longer than the input; it is empty iff the input is all whitespace, otherwise it neither starts nor ends with whitespace |
| Strings.TrimCutsEnds | script.js:41 | trimming leaves a slice `s[i..j]` of its input, and the cut prefix `s[..i]` and suffix `s[j..]` are all whitespace |
| Strings.JsTrim | script.js:41 | `trim` with JavaScript's whitespace; a specification function stated by Trim, TrimCutsEnds and TrimIdempotent |
| Strings.IsJsSpace | script.js:31 | the code points of JavaScript's WhiteSpace and LineTerminator productions, used by `\s` and `trim` |
| Strings.TrimIdempotent | script.js:41 | trimming twice is trimming once |
| Strings.TrimSkipsPrefix | script.js:36-41 | leading whitespace does not change what trimming leaves |
| Strings.PyStripEnds | process_data.py:17-18 | `strip()` leaves a slice `s[i..j]` of its input; the cut prefix and suffix are all whitespace, and the slice neither starts nor ends with whitespace |
| Strings.PyStrip | process_data.py:17-18 | `strip()` as `rstrip` after `lstrip`; a specification function stated by PyStripEnds and PyStripIdempotent |
| Strings.IsPySpace | process_data.py:17 | the code points for which Python's `str.isspace` holds, used by `strip()` and `split()` |
| Strings.PyStripIdempotent | process_data.py:34 | stripping twice is stripping once |
| Strings.ReplaceChar | process_data.py:18 | `replace(a, b)` keeps the length and changes exactly the `a` characters into `b` |
| Strings.RemoveChar | process_data.py:34 | `replace('"', '')` leaves no quote |
| Strings.RemoveCharCounts | process_data.py:34 | every character other than the quote keeps its number of occurrences, and the quote's drops to zero |
| Strings.RemoveCharConcat | process_data.py:34 | deleting from a concatenation deletes in each part, in place, so what is kept keeps its order |
| Strings.RemoveCharOne | process_data.py:34 | a single character is dropped iff it is the deleted one |
| Strings.Words | process_data.py:37 | `split()` gives nonempty words without whitespace |
| Strings.WordsEmpty | process_data.py:35-37 | `split()` gives no words iff the line is all whitespace, so an empty cleaned line has no columns |
| Strings.WordsSkipSpace | process_data.py:37 | leading whitespace does not change the words |
| Strings.WordsCons | process_data.py:37 | a word followed by a nonempty run of whitespace is the first word, and the rest of the text gives the rest of the words |
| Strings.WordsOfJoin | process_data.py:68 | words joined by spaces split back into the same words |
| Strings.WordsOfTwo | process_data.py:68-69 | `"<a> <b>"` splits into exactly `[a, b]` |
| Strings.SplitOn | process_data.py:70 | `split(c)` gives at least one piece, no piece contains `c`, and the pieces joined by `c` are the input |
| Strings.SplitOnJoin | process_data.py:70 | splitting a join of separator-free pieces gives the pieces back |
| Strings.NatToString | process_data.py:89 | `str(n)` of a natural is its canonical decimal digits, whose value is `n` |
| Strings.CanonicalRoundTrip | process_data.py:89 | a canonical digit string is `str` of its own value |
| Strings.IntToString | process_data.py:89 | `str(n)` is the canonical decimal digits of `n` when `n >= 0`, and `-` followed by the canonical digits of `-n` otherwise; so it starts with `-` iff `n` is negative |
| Strings.IntToStringInjective | process_data.py:89 | two integers with the same `str` are equal, so stringified keys never collide |
| Strings.PyIntAcceptsLiterals | process_data.py:42 | `int()` accepts only an optionally signed literal of digits with single underscores between digits, whitespace around it |
| Strings.PyInt | process_data.py:42 | `int()` on a string, None for ValueError; a specification function stated by PyIntAcceptsLiterals, DigitsRead and PyIntOfString |
| Strings.DecimalFrom | process_data.py:42 | the decimal-literal grammar of `int()`: digits with single underscores between digits; stated by PyIntAcceptsLiterals, DigitsRead and DecimalFromShift |
| Strings.DigitsRead | process_data.py:75 | `int()` of a digit string, leading zeros and all, is its decimal value |
| Strings.PyIntOfString | process_data.py:89 | `int(str(n)) == n` |
| JosephusText.MarkerShapeIff | process_data.py:13 | the marker matcher accepts exactly `[A-Z0-9]+` `.` digits `.` digits |
| JosephusText.MarkerFrom | process_data.py:13 | the left-to-right reading of the group `[IVXPA-Z0-9]+\.[0-9]+\.[0-9]+` from one stage on; stated by MarkerShapeIff |
| JosephusText.IsMarker | process_data.py:13 | a whole string matches the marker group; stated by MarkerShapeIff and MarkerChars |
| JosephusText.MarkerShape | process_data.py:13 | the marker group written out with the positions of its two dots; the independent definition MarkerShapeIff compares IsMarker with |
| JosephusText.MarkerChars | process_data.py:13 | a marker has no newline and starts with a marker character and ends with a digit |
| JosephusText.MarkerIsStripped | process_data.py:13-17 | `strip()` leaves a marker unchanged |
| JosephusText.MarkerAtComplete | process_data.py:13 | every marker between two newlines is a match at the first newline |
| JosephusText.FindMarker | process_data.py:13 | a found match lies at or after the scan start and is a match there |
| JosephusText.FindMarkerLeftmost | process_data.py:13 | the match found is the leftmost one, and None means there is none |
| JosephusText.MarkerAt | process_data.py:13 | a match at p is a newline, a marker, and the newline that ends it |
| JosephusText.SplitMarkersFrom | process_data.py:13 | the split has odd length and every odd-indexed part is a marker |
| JosephusText.SplitMarkers | process_data.py:13 | `re.split` with the marker pattern from the start of the text; stated by SplitMarkersFrom, SplitReassembles, SplitCutsEveryMarker and SplitWithoutMarker |
| JosephusText.SplitReassembles | process_data.py:13 | putting each marker back on its own line gives the input back, so the split loses nothing |
| JosephusText.SplitCutsEveryMarker | process_data.py:13 | no text part holds a match of `\n<marker>\n` of its own; a marker line right after another, or on the first line, is not such a match and stays in the text (ConsecutiveMarkers, FirstLineMarkerKept) |
| JosephusText.LineStartNotCut | process_data.py:13 | a newline-free line where the scan starts or resumes is not cut there: the next text part begins with it |
| JosephusText.ConsecutiveMarkers | process_data.py:13 | of two marker lines in a row only the first is cut out; the second begins the first one's text part, because the newline between them closes the first match and cannot open another |
| JosephusText.FirstLineMarkerKept | process_data.py:13-15 | a marker on the first line, with no newline before it, is not cut out: it stays in `parts[0]`, which the loop never stores |
| JosephusText.SplitWithoutMarker | process_data.py:13 | the split is the whole text as one part iff the text has no match of `\n<marker>\n` |
| JosephusText.CleanText | process_data.py:18 | a stored text contains no newline |
| JosephusText.Pairs | process_data.py:15-20 | the loop makes one store per marker part, `|parts| / 2` in all |
| JosephusText.PairsAt | process_data.py:15-20 | turn j of the loop stores the stripped `parts[2j+1]` with the cleaned `parts[2j+2]`, so `parts[0]`, the text before the first marker, is never stored |
| JosephusText.MapOf | process_data.py:19 | the dict after the stores in order; a specification function stated by MapOfKeys and MapOfLastWins |
| JosephusText.MapOfKeys | process_data.py:19 | the keys of the built map are exactly the keys stored |
| JosephusText.MapOfLastWins | process_data.py:19 | a key keeps the value of its last store |
| JosephusText.ParseJosephusText | process_data.py:6-25 | the loop, with `i` odd and `i+1` in range at every read, builds the map of the stored pairs; every value is newline-free and every key is a marker |
| JosephusText.JosephusKeys | process_data.py:13-19 | the keys are exactly the marker parts of the split |
| JosephusText.JosephusValues | process_data.py:18-19 | no stored text contains a newline |
| JosephusText.JosephusLastWins | process_data.py:15-20 | a marker maps to the cleaned text after its last cut occurrence, up to the next match of `\n<marker>\n` |
| ParallelsCsv.CleanLine | process_data.py:34 | a cleaned line has no quote |
| ParallelsCsv.SourceName | process_data.py:43 | the work is "Wars" iff the first column is all digits, otherwise "Antiquities" |
| ParallelsCsv.ParseLukeLoc | process_data.py:42 | `map(int, luke_loc.split(':'))` unpacked into two names, None for ValueError; stated by ParseLukeLocRoundTrip and ParseRowSome |
| ParallelsCsv.RowOf | process_data.py:38-44 | the row of a line's columns; stated by ParseRowSome and RowRef |
| ParallelsCsv.ParseRow | process_data.py:34-44 | the loop body for one line, None where it is skipped; stated by ParseRowSome and RowRef |
| ParallelsCsv.ParseRowSome | process_data.py:35-49 | a line gives a row iff it has at least five columns after cleaning and its fifth column is `int:int` |
| ParallelsCsv.RowRef | process_data.py:37-44 | a row's reference is the work's name, a space and the second column, and it splits back into those two words; its chapter and verse are those of the fifth column |
| ParallelsCsv.ParseLukeLocRoundTrip | process_data.py:42 | `str(c) + ":" + str(v)` reads back to `(c, v)` |
| ParallelsCsv.AddRefAt | process_data.py:46-47 | the append touches only its own verse's list, creates it if need be, and adds the reference only if it is absent |
| ParallelsCsv.AddRef | process_data.py:46-47 | the de-duplicating append through the two defaultdicts; stated by AddRefAt |
| ParallelsCsv.ParallelsOf | process_data.py:33-49 | the dict after the rows are added in order; stated by ParallelsOfIsDedup and ParallelsShape |
| ParallelsCsv.ParseParallelsCsv | process_data.py:28-53 | an empty file raises StopIteration; otherwise the header is skipped and the dict is that of the rows of the remaining lines in order |
| ParallelsCsv.DedupProps | process_data.py:46-47 | de-duplication keeps exactly the elements, each once; the result is nonempty if the input is |
| ParallelsCsv.DedupPrefix | process_data.py:46-47 | de-duplicating a prefix gives a prefix of the de-duplicated list, so elements stay in order of first occurrence |
| ParallelsCsv.Dedup | process_data.py:46-47 | the list with every repeat after the first dropped; stated by DedupProps and DedupPrefix |
| ParallelsCsv.ParallelsOfIsDedup | process_data.py:33-49 | each list is the rows' references at that verse with repeats dropped, in order of first appearance; a verse is present iff some row points to it |
| ParallelsCsv.ParallelsShape | process_data.py:46-47 | a present list is nonempty, has no duplicates, and holds exactly the references of the rows at that verse |
| ParallelsCsv.RefsAtMembers | process_data.py:46-47 | the references collected at a verse are exactly those of the rows at that verse |
| ParallelsCsv.CsvListsOnlyRows | process_data.py:28-53 | a reference is listed at `(c, v)` only if some line after the header parses to that row |
| ParallelsCsv.CsvListsAllRows | process_data.py:28-53 | every line after the header that parses gets its reference listed at its chapter and verse |
| Seqs.FilterMapCons | process_data.py:33-49 | an element in front contributes its result, if any, in front |
| Seqs.HeadFirstIsFilterMap | script.js:35-37 | a filter written head first is FilterMap |
| Seqs.FilterMapMembers | process_data.py:33-49 | the kept results are exactly the results of the elements that are not skipped |
| Seqs.FilterMapInOrder | process_data.py:33-49 | kept results follow the order of their elements, and every element that is not skipped has its place |
| WebsiteData.RomanNumeral | process_data.py:56 | `ROMAN_MAP.get(n)` has a value iff `1 <= n <= 7` |
| WebsiteData.RomanNumerals | process_data.py:56 | the numerals are distinct, nonempty, dot-free and made of marker characters |
| WebsiteData.LookupKeyIsMarker | process_data.py:78 | a key built from a numeral and two digit runs has the shape of a Josephus marker, so it can be in the map |
| WebsiteData.LookupKey | process_data.py:78 | the f-string `{book_roman}.{chap}.{para}`; stated by LookupKeyIsMarker and DottedWord |
| WebsiteData.EntryOf | process_data.py:68-84 | an entry keeps its reference string; EntryOfCases states when there is one and what it holds |
| WebsiteData.EntryOfCases | process_data.py:68-84 | a reference gets an entry iff its first word is `Wars`, its second word has three dot-separated parts and the first reads by `int()` as 1 to 7; the entry holds the Josephus text at the Roman key, or the not-found text |
| WebsiteData.WarsEntry | process_data.py:68-84 | `Wars <n>.<chap>.<para>` gets an entry iff `1 <= n <= 7`; its text is the Josephus text at `<Roman>.<chap>.<para>`, or "Text for this reference was not found." |
| WebsiteData.WarsLocEntry | process_data.py:68-84 | for `Wars <loc>` with a one-word location: an entry iff the location has three dot-separated parts whose first reads as 1 to 7, holding the text at the Roman key or the not-found text |
| WebsiteData.LeadingZeroValue | process_data.py:75 | a leading zero does not change the value of a digit string |
| WebsiteData.WarsBookLeadingZero | process_data.py:74-79 | a book written with a leading zero (`Wars 02.1.1`) is looked up under the same Roman key as without it |
| WebsiteData.WarsRefParts | process_data.py:68-75 | such a reference splits into `Wars` and its location, the location into its three parts, and the book reads back as `n` |
| WebsiteData.AntiquitiesSkipped | process_data.py:72 | an Antiquities reference never gets an entry |
| WebsiteData.DottedWord | process_data.py:70-74 | three dot-free words joined by dots make one word that splits back into them |
| WebsiteData.VerseLoop | process_data.py:67-86 | the innermost loop: IndexError iff some reference has no second word; otherwise the verse's entries in reference order |
| WebsiteData.ChapterLoop | process_data.py:66-86 | the verse loop: IndexError iff some reference of the chapter has no second word; otherwise exactly the verses with at least one entry, each with its entries |
| WebsiteData.BuildWebsiteData | process_data.py:62-86 | the combine step: empty when either input is empty, IndexError when a reference has no second word, and exactly the chapters and verses that got entries otherwise |
| WebsiteData.Combine | process_data.py:62-86 | the combine step as a value: empty, IndexError, or the data; stated by BuildWebsiteData and WebDataShape |
| WebsiteData.WebDataOf | process_data.py:62-86 | `final_data_for_website` after the loops: the chapters and verses whose references gave entries; stated by WebDataShape, VerseEntriesInOrder and BuildWebsiteData |
| WebsiteData.VerseDataOnAdd | process_data.py:66-81 | one more verse adds its entries under its key if it has any, and nothing otherwise |
| WebsiteData.WebDataOnAdd | process_data.py:65-81 | one more chapter adds its verses under its key if it has any, and nothing otherwise |
| WebsiteData.VerseEntriesInOrder | process_data.py:67-84 | a verse's entries follow the order of its references: each comes from a reference, the indices increase, and every reference with an entry has one |
| WebsiteData.WebDataShape | process_data.py:62-84 | a chapter and verse are in the data iff they are in the parallels and got at least one entry; every present list is that verse's entries and is nonempty |
| WebsiteData.StringifyLookup | process_data.py:89 | the integer keys are found again under their `str`, with the same entries, and no other key appears |
| WebsiteData.StringifyKeys | process_data.py:89 | every output key is the `str` of an integer key, and `int()` reads it back |
| WebsiteData.Stringify | process_data.py:89 | `final_output`; stated by StringifyLookup and StringifyKeys |
| WebsiteData.RunScript | process_data.py:59-89 | the script parses the Josephus text and the CSV, stops on StopIteration or IndexError, and otherwise writes the stringified combined data |
| WebsiteData.Script | process_data.py:59-89 | the whole script as a value; stated by RunScript, ScriptWrites and ScriptContents |
| WebsiteData.CsvRefsSplit | process_data.py:68-69 | every reference the CSV parser stores has a second word, so `parts[1]` never raises |
| WebsiteData.ScriptWrites | process_data.py:59-93 | the script writes its JSON iff the CSV has a header line |
| WebsiteData.ScriptContents | process_data.py:59-89 | end to end, the JSON holds a `(str(c), str(v))` entry list iff the CSV lists `(c, v)` and its references give an entry, and that list is those entries; the JSON is empty when either input map is empty |
| LukeText.SeparatorAt | script.js:31 | a match of `\n\s*\n` at p is greedy: it ends at the last newline of the whitespace run, and None means no match there |
| LukeText.FindSeparator | script.js:31 | the separator found is the leftmost one, and None means there is none |
| LukeText.SplitBlocks | script.js:31 | `text.split(/\n\s*\n/)`; stated by BlocksHaveNoSeparator, SplitBlocksReassembles, SeparatorsAreMatches and NoSeparatorOneBlock |
| LukeText.SplitBlocksReassembles | script.js:31 | there is one more block than separators, and the blocks with the separators put back between them give the text, so the split loses nothing |
| LukeText.SeparatorsAreMatches | script.js:31 | what is cut out between two blocks is each time a newline, a run of whitespace and a newline |
| LukeText.BlocksHaveNoSeparator | script.js:31 | no block of the split contains a blank-line separator |
| LukeText.NoSeparatorOneBlock | script.js:31 | a text without a separator is a single block |
| LukeText.TextGroup | script.js:36-41 | the third group is nonempty and trims to the trim of the rest of the block |
| LukeText.MatchVerseAt | script.js:36 | a match at p is the text `Luke <chapter>:<verse>:` found at p, and its remainder is the rest of the block |
| LukeText.MatchVerseAtComplete | script.js:36-40 | every `Luke <digits>:<digits>:` followed by at least one character matches there, with those groups |
| LukeText.MatchVerseAtSound | script.js:36-40 | a match is exactly such an occurrence |
| LukeText.LeftmostVerse | script.js:36 | the match found is the leftmost, and None means no position matches |
| LukeText.MatchVerse | script.js:36-37 | a block fails to match iff no position in it matches |
| LukeText.WellFormedBlock | script.js:36-41 | `Luke c:v: text` parses to chapter `c`, verse `v` and the trimmed text |
| LukeText.ParseBlock | script.js:36-41 | one block's match, or None when the block is skipped; stated by MatchVerse and WellFormedBlock |
| LukeText.ChapterNumber | script.js:43-44 | `parseInt(chapter)` on the matched digit group, its decimal value; used by RenderMatches and Group to decide where a heading goes |
| LukeText.Matches | script.js:35-37 | there are no more matches than blocks; MatchesIsFilterMap and MatchesInOrder state which and in what order |
| LukeText.MatchesIsFilterMap | script.js:35-37 | the matches are the blocks' parses that are not None, in block order |
| LukeText.MatchesInOrder | script.js:35-37 | match a is the parse of block `idx[a]`, the indices increase, and every block that matches has its place |
| LukeText.VerseOf | script.js:50-59 | one verse span, marked parallel with ref `c:v` when the mapping has a value at its chapter and verse; stated by VersesOf and ClickFindsRenderedVerse |
| LukeText.RenderMatches | script.js:35-61 | the render loop's output from a given current chapter; stated by RenderIsLayout |
| LukeText.Display | script.js:30-62 | the whole output of `displayLuke`; stated by DisplaySections and DisplayStartsWithHeading |
| LukeText.VersesOf | script.js:50-60 | one verse span per match, in order, marked parallel iff the mapping has its chapter and verse |
| LukeText.Group | script.js:43-48 | the runs of equal chapter number are nonempty, and the first starts with the first match |
| LukeText.GroupFlatten | script.js:43-48 | grouping loses and reorders nothing |
| LukeText.GroupRunsConstant | script.js:43-48 | within a run, every match has the chapter number of its first |
| LukeText.GroupRunsDiffer | script.js:43-48 | adjacent runs differ in chapter number, so the runs are maximal |
| LukeText.RenderIsLayout | script.js:32-61 | the rendering loop emits each run's heading followed by its verses; a first run that continues the current chapter gets no heading |
| LukeText.LayoutHeadings | script.js:43-48 | the layout has exactly one heading per run, and its verse spans are all the matches' spans in order |
| LukeText.DisplaySections | script.js:30-62 | `displayLuke` emits one heading per maximal run of equal chapter numbers and exactly one verse span per matched block, in source order |
| LukeText.DisplayStartsWithHeading | script.js:32-48 | nonempty output starts with the heading of the first matched verse, so every verse sits under a heading |
| LukeText.ClickLookup | script.js:70-72 | a found entry list is the mapping's list at some chapter and verse |
| LukeText.ClickFindsRenderedVerse | script.js:52-74 | a verse span is marked parallel with ref `c:v` iff clicking that ref finds entries, and they are the entries at its own chapter and verse |
| Viewer.Viewer.constructor | script.js:8 | before loading, the mapping is empty, nothing is rendered and the panel is empty and hidden |
| Viewer.Viewer.OnLoaded | script.js:19-20 | loading keeps the mapping and appends the rendering of the text; the panel is untouched |
| Viewer.Viewer.DisplayLuke | script.js:30-62 | the loop appends exactly `Display(mapping, text)` to the container |
| Viewer.Viewer.Click | script.js:66-84 | a click that finds entries makes the panel exactly those entries, in order, and shows it; any other click changes neither the panel nor the visibility; it raises iff the chapter is missing |
| Viewer.Viewer.ShowSidebar | script.js:90-93 | both classes are on afterwards, whatever the state before |
| Viewer.Viewer.HideSidebar | script.js:95-98 | both classes are off afterwards, whatever the state before |

## Left out

- Not every marker line becomes a key, and the model states this rather than hiding it: `re.split` resumes after a match's closing newline, so the second of two consecutive marker lines, and a marker on the file's first line, stay inside a text part (ConsecutiveMarkers, FirstLineMarkerKept). This is how the code behaves; whether the authors meant it is not known, so it is not listed as a finding.
- Strings.Trim: its own contract bounds the result and fixes its ends; that the result is a slice cut at whitespace is stated by the lemma TrimCutsEnds, because stating it on the function made every proof that uses Trim much slower.
- Strings.RemoveChar: its own contract says only that no quote is left; what is kept and in what order is stated by RemoveCharCounts, RemoveCharConcat and RemoveCharOne, for the same reason.
- LukeText.Matches: its own contract only bounds the number of matches; which blocks are kept and in what order is stated by MatchesIsFilterMap and MatchesInOrder.
- Strings.PyInt: Python's limit of 4300 digits for `int()` and `str()` on decimal strings (a ValueError above it) is not modelled; digit strings of any length are read, and `IntToString` prints integers of any size.
- `initialize` is left out: the `fetch` calls, `Promise.all` and the error message that replaces the page (script.js:11-27). This is network I/O and an async join. `OnLoaded` takes the two fetched values as parameters.
- The DOM is left out. The container is a sequence of render instructions and the per-chapter `div`s are flattened. The panel is a sequence of entries and the classes are two booleans. `innerHTML` markup is not modelled (no escaping, no `<sup>` or `<h4>` strings).
- `closest('.parallel')` is left out. The click's target is given as the `data-luke-ref` it finds, or None.
- File opening, `FileNotFoundError`, `print` and `json.dump` are left out (process_data.py:9,22-24,31,50-52,59-60,92-95). The Josephus file is a string and the CSV is a sequence of lines.
  - So `None` from a missing file is not modelled.
  - The truthiness test at process_data.py:64 becomes "both maps nonempty".
- Iteration order of dicts and JSON objects is not modelled. Maps are unordered, so the output's key order is not stated. The order inside each entry list is stated.
- There is no regex engine. The three patterns (script.js:31,36; process_data.py:13) are hand-written matchers.
- Unicode is approximated:
  - `str.isdigit`, `int()` and `\d` accept ASCII digits only.
  - Whitespace follows the code-point lists of Python's `isspace` and JavaScript's `\s`.
  - There is no normalisation.
- JavaScript `parseInt` is modelled as the exact decimal value. Precision loss above 2^53 is not modelled.
- A verse string that reaches the mapping as a JavaScript property key, or as an inherited prototype key such as `constructor`, is not modelled. The mapping is a plain map.
- Strings.DigitsRead: the value `int()` gives to literals with underscores is not stated. Only acceptance is characterised (PyIntAcceptsLiterals), and the value only for plain digit runs.
- WebsiteData.EntryOf: for a reference with fewer than two words it gives no entry. The source raises IndexError there instead. This is raised by `VerseLoop` and `Combine` before any entry matters, so the script's outcome is modelled exactly.
- The empty `except KeyError` at process_data.py:85 has no counterpart. Nothing in the `try` can raise KeyError, since both lookups use `.get`.
- Outside-click dismissal of the panel does not exist in the code. It is not modelled.
