# Radio manager core in Dafny

`radio-manager.py` is a desktop editor for the station lists of internet-radio
receivers. A list is a text file with one station per line (name, stream URL,
volume from -64 to 64). The application reads and writes these lists and probes
every station over HTTP. It writes the verdict into an "info" column, repairs
mis-decoded ICY metadata, renames stations from a template of tags, and cleans
the table up: it marks and removes duplicate addresses, rewrites HTTPS to
HTTP, and removes dead stations.

This project models the non-graphical logic behind those features and proves
what it promises. There is one module per component:

- `PyStr` (pystr.dfy): the parts of Python's `str` that the code relies on.
  This covers `isspace`, `strip`/`lstrip`/`rstrip`, `lower`/`upper`, `in`,
  `startswith`, `count`, `replace`, `split(c)[0]`/`[-1]`, `splitlines`, `int()`,
  and `str()` of an integer.
- `Ingest` (ingest.dfy): `DataProcessor`.
  - `process_csv_file` reads a list line by line. Each line is stripped and its
    BOM dropped. It is then split on `\t+|\s{2,}`, sent down a three-way
    branch, given a cleaned URL and a coerced volume, and checked for an
    `http(s)://` prefix.
  - `save_csv_file` writes the line format back out.
- `Playlist` (playlist.dfy): `PlaylistParser`. This covers the guards and
  format sniffing of `fetch_and_parse`, and its four readers: M3U/M3U8, PLS,
  XSPF over parsed elements, and bare links.
- `Encoding` (encoding.dfy): the ICY repair (`_has_encoding_issues`,
  `_is_text_valid`, `fix_icy_encoding`).
- `Probe` (probe.dfy): `StationChecker`.
  - `_normalize_format`, `_is_playlist` and `_is_html_response`.
  - The classification that `check_station` performs, from the outcome of a
    probe to the info cell.
  - `check_stations` as a sequential fold with cancellation.
- `Rename` (rename.dfy): `NameFixer`, which covers `parse_info_cell`,
  `build_new_name` and `fix_names`.
- `Table` (table.dfy): the table operations of `MainWindow`. These are
  `find_duplicates`, `remove_duplicates`, `fix_https`, `remove_inactive`, and
  searching with wrap-around navigation.

Network replies, `urllib.parse.urljoin`, `ElementTree.fromstring`,
`charset_normalizer` and `bytes.decode` are function-typed parameters that the
model does not interpret. The Qt table is a `seq` of rows (`Table.Row`), and
confirmation dialogs are boolean parameters.

Where the code does something step by step, the model does too. These parts are
methods with loops and invariants, proved against specification functions:
- the per-line loop of `process_csv_file` and `DataProcessor.log_messages`;
- the `pending_title` loop and the `file_map`/`title_map` loop;
- the counting loop of `_is_text_valid`;
- the `replace` loop of `build_new_name`;
- the renaming loop over an `array` of name cells;
- the dictionary-of-lists loops of `find_duplicates`;
- the cell loop of `fix_https`;
- the descending `removeRow` loop.

The lemmas then prove what the source promises about those functions:
- the ingestion tally;
- the save/parse round trip;
- the playlist guards, titles and ordering;
- the info-cell round trip between checker and renamer;
- "exactly the later rows of each address are duplicates";
- idempotence of the HTTPS rewrite;
- removal counts;
- search wrap-around.

## Model

| member | source | states |
|---|---|---|
| PyStr.Strip | radio-manager.py:43 | `strip()` leaves no whitespace at either end and never lengthens the text |
| PyStr.StripIsBothStrips | radio-manager.py:43 | `strip()` is `rstrip()` after `lstrip()` |
| PyStr.StripIdempotent | radio-manager.py:43 | stripping twice is stripping once |
| PyStr.LStripChar | radio-manager.py:43 | `lstrip('﻿')` is the longest suffix not starting with the character, and every character dropped is that character |
| PyStr.LStrip | radio-manager.py:1274 | `lstrip()` is the longest suffix not starting with whitespace; everything dropped is whitespace |
| PyStr.RStrip | radio-manager.py:43 | `rstrip()` is the longest prefix not ending with whitespace; everything dropped is whitespace |
| PyStr.RemoveChar | radio-manager.py:78 | `replace(' ', '')` leaves no space, keeps every other character and keeps a space-free text unchanged |
| PyStr.ReplaceOneChar | radio-manager.py:78 | the one-character `replace` by "" is `RemoveChar` |
| PyStr.IndexOf | radio-manager.py:1306 | the first occurrence of a character, or none exactly when it does not occur |
| PyStr.LastIndexOf | radio-manager.py:62 | the last occurrence of a character, or none exactly when it does not occur |
| PyStr.AfterLast | radio-manager.py:1416 | `split(c)[-1]` is the whole text when it has no `c`, and otherwise the `c`-free suffix that starts right after the last `c` |
| PyStr.BeforeFirst | radio-manager.py:1418 | `split(c)[0]` is the whole text when it has no `c`, and otherwise the `c`-free prefix that ends right before the first `c` |
| PyStr.ReplaceSplit | radio-manager.py:1750 | replacing in a concatenation is replacing in each part when no occurrence straddles the seam |
| PyStr.ReplaceAbsent | radio-manager.py:1750 | replacing a pattern that does not occur changes nothing |
| PyStr.ReplaceWithoutFirst | radio-manager.py:1750 | a text without the pattern's first character is left unchanged by `replace` |
| PyStr.LineEnd | radio-manager.py:39 | the first line break, with none before it |
| PyStr.SplitLinesCrlf | radio-manager.py:39 | a break-free line ended by CRLF comes back from `splitlines` as that one line, followed by the lines of the rest |
| PyStr.ContainsAt | radio-manager.py:2159 | `p in s` holds when `p` occurs at some offset |
| PyStr.ContainsWitness | radio-manager.py:2159 | `p in s` gives an offset where `p` occurs |
| PyStr.NatToString | radio-manager.py:115 | `str(n)` is a non-empty string of decimal digits |
| PyStr.NatToStringValue | radio-manager.py:115 | the digits of `str(n)` have the value `n` |
| PyStr.IntToString | radio-manager.py:115 | `str(v)` is non-empty, free of spaces, and starts with a minus or a digit |
| PyStr.PyInt | radio-manager.py:80 | `int()` succeeds only on text that is not blank after stripping |
| PyStr.IntRoundTrip | radio-manager.py:115 | `int(str(v)) == v` for every integer |
| PyStr.CaseKeepsSpace | radio-manager.py:1408 | lower- and upper-casing never turn a non-space into a space or back |
| PyStr.Lower | radio-manager.py:1408 | `lower()` keeps the length; it maps each character by `LowerChar` (the ranges are under "## Left out") |
| PyStr.Upper | radio-manager.py:1416 | `upper()` keeps the length; it maps each character by `UpperChar`; `UpperKeepsSlash` and `CaseKeepsSpace` state what the callers rely on |
| PyStr.Count | radio-manager.py:50 | `count(p)`: the non-overlapping occurrences of `p`, from the left; `Ingest.CutLine` uses it for the two-`http` test |
| PyStr.Replace | radio-manager.py:1750 | `replace(p, q)`: every non-overlapping occurrence, from the left; `ReplaceSplit`, `ReplaceAbsent` and `ReplaceWithoutFirst` state its properties |
| PyStr.SplitLines | radio-manager.py:39 | `splitlines()` with CRLF as one break and no empty last line; `SplitLinesCrlf` and `Ingest.SplitSaveText` state its properties |
| Ingest.TabRun | radio-manager.py:47 | the maximal run of tabs at the front, as `\t+` consumes it |
| Ingest.SpaceRun | radio-manager.py:47 | the run of whitespace at the start is maximal |
| Ingest.SeparatorAt | radio-manager.py:47 | a separator starts exactly where there is a tab or two whitespace characters |
| Ingest.SplitFields | radio-manager.py:47 | `re.split` always gives at least one field |
| Ingest.SplitFieldsUnbroken | radio-manager.py:47 | no field of the split holds a tab or two whitespace characters in a row |
| Ingest.SplitFromUnbroken | radio-manager.py:47 | separator-free text goes whole into the current field |
| Ingest.SplitThreeFields | radio-manager.py:47 | three separator-free fields joined by single tabs split back into those fields |
| Ingest.SchemeLen | radio-manager.py:51 | `https?://` at the start matches with length 7 or 8, or not at all |
| Ingest.VolumeTail | radio-manager.py:51 | the optional volume group is an optional minus and digits |
| Ingest.MatchUrl2 | radio-manager.py:51 | the lazy third group, with the name and first URL at their places and the volume group well formed |
| Ingest.MatchUrl1 | radio-manager.py:51 | the lazy second group, with the name at its place and the first URL starting after the whitespace |
| Ingest.MatchName | radio-manager.py:51 | the lazy first group: the name is a prefix of the line |
| Ingest.GluedMatch | radio-manager.py:51-53 | a match has the name as a prefix of the line and a volume group of an optional minus and digits |
| Ingest.EarlyVolumeNote | radio-manager.py:55-58 | the glued branch notes only an out-of-range volume, against this line |
| Ingest.CutLine | radio-manager.py:47-74 | the three-way branch; its only early notes are of an out-of-range volume for this line |
| Ingest.CoerceVolume | radio-manager.py:79-86 | the volume is always in [-64, 64] and at most one note is made; a missing or empty volume is 0 with no note; one `int()` cannot read is 0 with a BadVolume note; a readable one is kept as read, without a note, when it is in range, and noted otherwise; every note means volume 0 |
| Ingest.GluedVolumeReportedTwice | radio-manager.py:55-83 | in the glued branch an out-of-range volume is noted twice, and the record keeps volume 0 |
| Ingest.Finish | radio-manager.py:77-95 | never blank; accepted exactly when the cleaned URL starts with http:// or https://, so a bad volume never rejects the record; an accepted record is valid, has the stripped name, the cleaned URL and the coerced volume; a rejection ends with its failure note; every note is about this line |
| Ingest.ParseLine | radio-manager.py:42-100 | blank exactly when the cleaned line is empty; an accepted record has volume in range, an `http(s)://` URL without spaces and a stripped name; a rejection ends with its failure note |
| Ingest.IngestedInvariant | radio-manager.py:41-100 | `|stations| == success` and `success + error` equals the number of non-blank lines; every record is valid; every note is about a line of the file |
| Ingest.ScanLine | radio-manager.py:42-100 | the loop body for one line extends the tally of the lines before it to that line |
| Ingest.DataProcessor.constructor | radio-manager.py:22-23 | the log starts empty |
| Ingest.DataProcessor.Log | radio-manager.py:25-26 | `log` appends one message |
| Ingest.DataProcessor.ProcessLines | radio-manager.py:28-108 | the records and log are those of the line-by-line fold, all records are valid, and the last message is the summary (successes, non-blank lines minus successes) |
| Ingest.SaveableNoLineBreak | radio-manager.py:115 | a saved line of a saveable record contains no line break |
| Ingest.SaveLine | radio-manager.py:115 | the line `name\turl\tvolume\r\n`; `LineRoundTrip` proves it reads back as the record |
| Ingest.SaveText | radio-manager.py:113-116 | the saved lines one after another; `FileRoundTrip` proves the file reads back as the records |
| Ingest.SplitSavedLine | radio-manager.py:115 | a saved line splits into name, URL and volume text |
| Ingest.LineRoundTrip | radio-manager.py:115 | parsing the line `save_csv_file` writes (without its CRLF) gives back the same record, with no notes |
| Ingest.SplitSaveText | radio-manager.py:115 | `splitlines` of a saved file gives its lines |
| Ingest.IngestSavedLines | radio-manager.py:41-100 | reading the lines of saved records gives those records, all successes and no notes |
| Ingest.FileRoundTrip | radio-manager.py:39-115 | saving records and reading the file again gives the same records, no failures and no notes besides the summary |
| Playlist.Sniff | radio-manager.py:1273-1284 | the first format whose markers occur in the lowered, left-stripped body is chosen, with each condition stated in both directions |
| Playlist.ExtinfTitle | radio-manager.py:1306-1308 | a title exists exactly when the line has a comma, and it is stripped |
| Playlist.M3uEntries | radio-manager.py:1297-1314 | one entry per URL line with the pending title; `M3uEntryUrls`, `PendingKept` and `M3uTitleThenUrl` state its properties |
| Playlist.ParseM3u | radio-manager.py:1297-1314 | the entries are the M3U fold over the lines |
| Playlist.M3uEntryUrls | radio-manager.py:1301-1313 | one entry per stripped non-empty line that is not a comment or directive, in order, with its URL joined to the base |
| Playlist.M3uUntitled | radio-manager.py:1305-1313 | without a `#EXTINF` line that has a comma, no entry has a title |
| Playlist.PendingUntitled | radio-manager.py:1305-1308 | without a titled `#EXTINF` line, no title is pending |
| Playlist.PendingKept | radio-manager.py:1303-1311 | blank lines, comments and comma-less `#EXTINF` lines keep the pending title |
| Playlist.M3uTitleThenUrl | radio-manager.py:1305-1313 | the entry right after a titled `#EXTINF` takes its title and the next entry takes none |
| Playlist.ReadPlsLine | radio-manager.py:1323-1340 | a `fileN` line has a key starting with "file", and a `titleN` line one starting with "title" |
| Playlist.PlsItems | radio-manager.py:1322 | one item per line |
| Playlist.ReadPls | radio-manager.py:1320-1340 | the keys of `file_map` are exactly the recorded key order, which has no repetition |
| Playlist.PlsFileKeys | radio-manager.py:1329-1332 | an index is a key of `file_map` exactly when some line sets it |
| Playlist.PlsLastWins | radio-manager.py:1332 | a later `fileN` line overrides an earlier one |
| Playlist.Get | radio-manager.py:1342 | `title_map.get(idx)` is the title exactly when the index has one |
| Playlist.Insert | radio-manager.py:1341 | insertion adds exactly the new element |
| Playlist.Sort | radio-manager.py:1341 | `sorted` is a permutation |
| Playlist.SortAscending | radio-manager.py:1341 | `sorted` is ascending |
| Playlist.InsertAscending | radio-manager.py:1341 | insertion into an ascending list keeps it ascending |
| Playlist.PlsEntriesSorted | radio-manager.py:1341-1342 | one entry per distinct `fileN` index, in strictly ascending order, with the last value and its title |
| Playlist.PlsOutput | radio-manager.py:1341-1343 | the final loop emits the entry of each sorted index |
| Playlist.EntriesFor | radio-manager.py:1341-1342 | the output loop gives one entry per index, in the order given, each with the index's URL joined to the base and its title |
| Playlist.PlsEntries | radio-manager.py:1317-1343 | the entries of the sorted `file_map` indices; `PlsEntriesSorted` and `PlsLastWins` state its properties |
| Playlist.ParsePls | radio-manager.py:1317-1343 | the dictionary-filling loop gives `PlsEntries` |
| Playlist.ChildText | radio-manager.py:1359 | a child's text is stripped, or absent when there is none |
| Playlist.XspfEntries | radio-manager.py:1352-1363 | the entries of the track elements in document order; `XspfOnePerTrack` and `BlankLastLocationDropsTrack` state its properties |
| Playlist.XspfOnePerTrack | radio-manager.py:1352-1363 | at most one entry per element, each from a track element with a non-blank location joined to the base |
| Playlist.BlankLastLocationDropsTrack | radio-manager.py:1356-1362 | the last location child decides, and an empty one drops the track |
| Playlist.ReadTrack | radio-manager.py:1355-1361 | the loop over a track's children gives the text of its last location child and of its last title child |
| Playlist.ParseXspf | radio-manager.py:1346-1366 | a document that does not parse gives no entries; otherwise the entries are `XspfEntries` |
| Playlist.PlainEntries | radio-manager.py:1287-1292 | one untitled entry per stripped `http` line; `PlainEntriesAreLinks` and `PlainEntriesComplete` state its properties |
| Playlist.PlainEntriesAreLinks | radio-manager.py:1287-1292 | every fallback entry comes from a line starting with `http` in any case and has no title |
| Playlist.PlainEntriesComplete | radio-manager.py:1287-1292 | every stripped line starting with `http` in any case (and not with '#') gives its untitled entry, joined to the base |
| Playlist.ParsePlain | radio-manager.py:1287-1292 | the fallback loop gives `PlainEntries` |
| Playlist.Visited.constructor | radio-manager.py:1257-1258 | a run starts with no URL visited |
| Playlist.Visited.FetchAndParse | radio-manager.py:1250-1294 | depth over 3 or a known URL gives [] with `visited` unchanged; otherwise the URL is added before the fetch, a failure or non-200 status gives [], and a 200 body gives the entries of the sniffed format |
| Encoding.HasEncodingIssues | radio-manager.py:1477-1485 | a text has an issue when it holds Ð, Ñ, Â or a C1 control; every such mark lies in U+0080..U+00FF, so ASCII and Cyrillic text never triggers a repair |
| Encoding.TextValid | radio-manager.py:1487-1506 | non-empty with `10 * strange < 3 * total`; `CyrillicTextValid` and `AllStrangeInvalid` state its properties |
| Encoding.StrangeCount | radio-manager.py:1493-1503 | at most one per character, and zero exactly when no character is strange |
| Encoding.IsTextValid | radio-manager.py:1487-1506 | the counting loop decides plausibility: non-empty and under 30% strange |
| Encoding.CyrillicTextValid | radio-manager.py:1497-1503 | non-empty ASCII and Cyrillic text is always plausible |
| Encoding.AllStrangeCount | radio-manager.py:1497-1503 | a text of strange characters counts every one |
| Encoding.AllStrangeInvalid | radio-manager.py:1506 | a text of strange characters is never plausible |
| Encoding.Latin1Encode | radio-manager.py:1446 | `encode('latin-1')` succeeds exactly when every code point is below 256, byte for byte |
| Encoding.Latin1Decode | radio-manager.py:1575 | `decode('latin-1')` maps each byte to the same code point |
| Encoding.Latin1RoundTrip | radio-manager.py:1446 | latin-1 is a bijection between bytes and the first 256 code points |
| Encoding.FirstPlausible | radio-manager.py:1462-1469 | the decoding of the first code page whose decoding is plausible, with every earlier one failing or implausible; none exactly when no code page gives plausible text |
| Encoding.TryFallbacks | radio-manager.py:1462-1469 | the loop over the code pages returns `FirstPlausible` of the fallback list |
| Encoding.FixedText | radio-manager.py:1433-1475 | the repair returns its input, or plausible text for a mojibake value that latin-1 can encode; when the detector raises, the input comes back; when it has no guess or an implausible one, the result is the first fallback code page's plausible decoding, or the input if there is none |
| Encoding.FixIcyEncoding | radio-manager.py:1433-1475 | the early-return flow gives `FixedText` |
| Encoding.CleanTextUnchanged | radio-manager.py:1435-1441 | a missing value, the placeholder and text without marks pass through |
| Encoding.WideTextUnchanged | radio-manager.py:1446 | a value with a code point above 255 comes back as it was |
| Encoding.DetectorFirst | radio-manager.py:1450-1459 | a plausible guess of the detector wins over the fallbacks |
| Probe.TableNamesClean | radio-manager.py:1386-1402 | every format name in the table is trimmed and free of '/' |
| Probe.NormalizeFormat | radio-manager.py:1384-1422 | a missing, empty or placeholder type gives the placeholder; a table key after lowering and stripping maps through the table; any other type with a '/' gives the upper-cased text after the last '/', cut at the first ';' and stripped; any other type is upper-cased whole; the result is trimmed and free of '/' |
| Probe.NormalizeIgnoresCase | radio-manager.py:1408 | normalisation gives the same result for a type and its lower-case form |
| Probe.NormalizeTableKey | radio-manager.py:1408-1412 | "Audio/AAC " maps to AAC |
| Probe.NormalizeSubtype | radio-manager.py:1415-1419 | "a/x-b; c" gives "X-B": the upper-cased text after the last '/', cut at ';' |
| Probe.UpperKeepsSlash | radio-manager.py:1416 | upper-casing keeps '/' in and out |
| Probe.Head | radio-manager.py:1526 | `content[:100]` is a prefix of at most 100 characters |
| Probe.IsPlaylist | radio-manager.py:1508-1517 | a playlist extension in the URL or a playlist mark in the lowered type; `PlaylistByExtension`, `MarkIsPlaylist` and `PlaylistTypes` state its properties |
| Probe.IsHtmlResponse | radio-manager.py:1519-1527 | `text/html` in the lowered type or an HTML tag in the lowered first 100 characters; `HtmlByType` and `HtmlLooksAtHead` state its properties |
| Probe.PlaylistByExtension | radio-manager.py:1510-1511 | a URL containing a playlist extension is a playlist |
| Probe.MarkIsPlaylist | radio-manager.py:1512-1517 | every listed type mark is a playlist type |
| Probe.PlaylistTypes | radio-manager.py:1512-1517 | the playlist MIME types of the table are recognised |
| Probe.HtmlLooksAtHead | radio-manager.py:1525-1527 | only the first 100 characters of the sample are looked at |
| Probe.HtmlByType | radio-manager.py:1521-1523 | an HTML content type decides, whatever the body |
| Probe.Shown | radio-manager.py:1594-1595 | a missing or empty value is shown as the placeholder |
| Probe.Metadata | radio-manager.py:1584-1595 | name, format, bitrate and genre, with name and genre non-empty |
| Probe.Classify | radio-manager.py:1549-1635 | the station is active exactly when the info starts with "[OK]", exactly when the reply is 200, not HTML, and not an empty or failed playlist |
| Probe.DeadInfo | radio-manager.py:1576-1635 | the dead cells: "[Timeout]", "[ConnError]", "[Error]", the status in brackets, "[404]" for an HTML page, "[Error]" for an empty or failed playlist |
| Probe.LiveInfo | radio-manager.py:1597-1621 | a live cell is "[OK]" then the playlist size or STREAM, then the metadata, in brackets |
| Probe.Reports | radio-manager.py:1644 | one report per probed station, with its row |
| Probe.ActiveCount | radio-manager.py:1598 | the number of active probes |
| Probe.OkCount | radio-manager.py:1644 | the number of reports starting with "[OK]" |
| Probe.ActiveCountIsOkRows | radio-manager.py:1542-1650 | the active counter equals the number of "[OK]" reports |
| Probe.FoldStep | radio-manager.py:1542-1650 | one probe adds one report and moves the active count by the verdict |
| Probe.Probed | radio-manager.py:1652-1664 | how many stations are probed when a cancel arrives after a given number |
| Probe.StationChecker.constructor | radio-manager.py:1376-1381 | no cancel is pending |
| Probe.StationChecker.CheckStation | radio-manager.py:1542-1650 | a cancelled probe changes nothing; otherwise the info is the classification, checked goes up by one, and exactly one of active and dead goes up |
| Probe.StationChecker.ProbeNext | radio-manager.py:1542-1650 | one probe extends the reports and counters of the fold |
| Probe.StationChecker.CheckStations | radio-manager.py:1529-1676 | the reports are those of the stations probed before the cancel; it finishes with (all, active, dead) exactly when no cancel arrived, and reports cancelled otherwise |
| Rename.Fields | radio-manager.py:1704 | the bracketed fields are non-empty and free of ']', and they make up the whole text, bar one final "\n" that `$` allows |
| Rename.Clean | radio-manager.py:1716-1724 | realname placeholder becomes none; bitrate and genre placeholders become N/A; a codec with '/' is cut to its upper-cased last part, any other codec but the placeholder is kept, and no codec keeps a '/' |
| Rename.UnknownCodec | radio-manager.py:1718-1724 | the placeholder codec ends up as "A" |
| Rename.MimeCodec | radio-manager.py:1723-1724 | codec "audio/mpeg" becomes "MPEG" |
| Rename.ParseInfoCell | radio-manager.py:1694-1731 | a result comes only from a text that is "[OK]" and four non-empty, ']'-free bracketed fields, or a kind field and four, with at most one final "\n", and it is the cleaned last four fields; it has no placeholder left and no '/' in the codec |
| Rename.ParseInfoCellExactly | radio-manager.py:1704-1731 | every text of that shape, with or without the final "\n", gives the cleaned last four fields, so a result comes exactly from those texts |
| Rename.FieldsCons | radio-manager.py:1704 | a field in brackets is read off the front |
| Rename.FieldsOfBracketed | radio-manager.py:1704 | bracketed fields are read back as written |
| Rename.FieldsOfBracketedLine | radio-manager.py:1704 | bracketed fields followed by one "\n" are read back as written |
| Rename.InfoCellRoundTrip | radio-manager.py:1704-1731 | cells of both layouts are read back field for field |
| Rename.ParseInfoCellFields | radio-manager.py:1704-1731 | the four last fields are cleaned up |
| Rename.PlaylistKind | radio-manager.py:1704 | "PL: n" is a kind field |
| Rename.KindCellRoundTrip | radio-manager.py:1704 | a cell with a kind field gives the cleaned metadata |
| Rename.CheckedCellRoundTrip | radio-manager.py:1704-1731 | the cell `check_station` writes for a live station gives its metadata, cleaned up |
| Rename.DeadCellSkipped | radio-manager.py:1712-1713 | a dead station's cell is never read as station data |
| Rename.Tags | radio-manager.py:1740-1744 | every substituted key is one of the bracketed template tags |
| Rename.Render | radio-manager.py:1750 | a rendered value is never empty (an empty one becomes N/A) and brings in no bracket |
| Rename.BuildNewName | radio-manager.py:1733-1751 | the sequential `replace` loop gives the new name, and the old name when nothing was parsed |
| Rename.SubstitutedNext | radio-manager.py:1749-1750 | one more tag is one more `replace` |
| Rename.SubstitutedFive | radio-manager.py:1749-1750 | the five replacements in order |
| Rename.Substituted | radio-manager.py:1749-1750 | each tag replaced in turn, all of one tag before the next; `SubstitutedNext` and `SubstitutedFive` state its properties |
| Rename.NewName | radio-manager.py:1733-1751 | the old name without info, otherwise the substituted template; `DefaultLayout` and `DefaultExample` state its properties |
| Rename.DefaultPieces | radio-manager.py:17 | the pieces of the default template |
| Rename.DefaultLayout | radio-manager.py:17 | with bracket-free values the default template gives `realname [codec - bitrate] (genre)` |
| Rename.DefaultExample | radio-manager.py:17 | New, MP3, 128 and Pop give "New [MP3 - 128] (Pop)" |
| Rename.Swap | radio-manager.py:1750 | every piece equal to the tag is replaced |
| Rename.ReplacePieces | radio-manager.py:1750 | replacing one tag in safe pieces replaces each piece |
| Rename.RenameRow | radio-manager.py:1764-1775 | one row keeps the number of names, and adds at most one signal and at most one count |
| Rename.RenameRowEffect | radio-manager.py:1764-1775 | only the row's own name changes, to its new name; the count goes up exactly when it changes; a signal is sent exactly when the station is active; a row passed over changes nothing |
| Rename.Renaming | radio-manager.py:1763-1775 | the renaming keeps the number of names and counts at most one per signal |
| Rename.Actives | radio-manager.py:1768 | whether each entry's cell parses |
| Rename.Visited | radio-manager.py:1777-1778 | all entries are visited when applying to all |
| Rename.VisitedStops | radio-manager.py:1768-1778 | when not applying to all, every entry before the last one visited is inactive, and a visit that ends early ends at an active one |
| Rename.VisitedFirst | radio-manager.py:1768-1778 | when not applying to all, the visit runs past the inactive entries and stops at the first active one |
| Rename.VisitedNext | radio-manager.py:1777-1778 | the visit goes on past an inactive entry |
| Rename.RenamingNext | radio-manager.py:1763 | one more entry is one more row step |
| Rename.RenameEntry | radio-manager.py:1764-1778 | the loop body on the name cells is one row step, and reports whether the station is active |
| Rename.FixNames | radio-manager.py:1753-1780 | announces all entries or one, and leaves the names, signals and count of `FixedNames` |
| Rename.UntouchedRow | radio-manager.py:1768 | a name outside the entries, or with an inactive station, is left alone |
| Rename.InactiveRowsNoop | radio-manager.py:1768 | entries without an active station change nothing and send nothing |
| Rename.SingleRowAtMostOne | radio-manager.py:1777-1778 | for one row, at most one signal and at most one rename |
| Rename.EveryActiveRenamed | radio-manager.py:1764-1771 | over distinct entries every active station gets its new name |
| Rename.ApplyToAllRenames | radio-manager.py:1753-1780 | applying to all renames every active entry |
| Table.Keys | radio-manager.py:2305 | one key per row, its URL stripped and lower-cased |
| Table.AppearancesSpec | radio-manager.py:2301-2309 | the list of a key holds exactly its rows, in ascending order |
| Table.FirstSeen | radio-manager.py:2301-2309 | the dictionary's keys are the non-empty keys, each once |
| Table.LaterAppearances | radio-manager.py:2313-2316 | a row is one of its key's later rows exactly when an earlier row has the key |
| Table.DuplicateListNext | radio-manager.py:2312-2316 | one more key adds its later rows |
| Table.DuplicateListMember | radio-manager.py:2312-2316 | a row is collected exactly when it is a later row of a key gone through |
| Table.DuplicatesExactly | radio-manager.py:2298-2321 | the duplicates are exactly the rows whose non-empty key an earlier row has |
| Table.DuplicateListKeys | radio-manager.py:2312-2316 | a collected row is in the table and its key was gone through |
| Table.DuplicateListDistinct | radio-manager.py:2312-2316 | no row is collected twice |
| Table.DuplicatesDistinct | radio-manager.py:2298-2321 | the duplicates have no repetition |
| Table.Marked | radio-manager.py:2317-2319 | marking keeps the number of rows |
| Table.MarkedNext | radio-manager.py:2317-2319 | marking one more row sets its info cell |
| Table.AbsentAppearances | radio-manager.py:2306-2307 | a key no row has has an empty list |
| Table.GroupByKey | radio-manager.py:2301-2309 | the dictionary maps each key, in order of first appearance, to its rows |
| Table.MarkLater | radio-manager.py:2315-2319 | one key's rows after the first are collected and marked |
| Table.MarkGroups | radio-manager.py:2312-2321 | the collected rows, their number and the marked table for all keys |
| Table.Downgraded | radio-manager.py:2402-2404 | a stripped `https://` address is rewritten to `http://` and the same rest; any other is left alone |
| Table.HttpRows | radio-manager.py:2399-2406 | rewriting keeps the number of rows |
| Table.HttpsCount | radio-manager.py:2399-2406 | the number of changed rows is at most the number of rows |
| Table.DowngradedTrimmed | radio-manager.py:2402-2404 | a rewritten address is not rewritten again |
| Table.HttpRowsIdempotent | radio-manager.py:2399-2406 | running the rewrite twice changes nothing more and counts nothing |
| Table.NoneCounted | radio-manager.py:2406 | nothing to rewrite counts nothing |
| Table.KeptFrom | radio-manager.py:2356-2357 | removal never adds rows |
| Table.KeptFromLength | radio-manager.py:2356-2357 | one row is dropped per removed index |
| Table.KeptFromRows | radio-manager.py:2356-2357 | what remains are the rows whose index is not removed |
| Table.WithoutLength | radio-manager.py:2356-2357 | removal drops exactly one row per index within the table |
| Table.WithoutRows | radio-manager.py:2761-2762 | a row remains exactly when some unremoved index holds it |
| Table.DeadRows | radio-manager.py:2739-2742 | the rows, ascending, whose info contains a chosen flag, and no others |
| Table.LiveCellFlagged | radio-manager.py:2711-2742 | the flag test is a substring test: a live "[OK]" cell whose name field is "Error" is selected as dead under the four offered flags |
| Table.Matches | radio-manager.py:2154-2161 | the rows, ascending, whose name, URL or info contains the query ignoring case; none for an empty query |
| Table.StepsWrap | radio-manager.py:2170-2192 | "next" and "previous" count modulo the number of results and undo each other |
| Table.AdvanceCompose | radio-manager.py:2182-2192 | presses add up |
| Table.AdvanceCounts | radio-manager.py:2182-2192 | before the last result "next" counts up |
| Table.AdvanceWraps | radio-manager.py:2182-2192 | as many presses as results return to the same result |
| Table.MarkedFound | radio-manager.py:2327-2330 | the search for the mark finds every duplicate marked |
| Table.DistinctCard | radio-manager.py:2356 | a list without repetition has as many elements as entries |
| Table.RemovedCount | radio-manager.py:2356-2357 | removing distinct in-table indices takes off one row each |
| Table.DuplicatesRemoved | radio-manager.py:2356-2359 | `remove_duplicates` takes off exactly as many rows as it reports |
| Table.DeadRemoved | radio-manager.py:2737-2762 | `remove_inactive` takes off as many rows as it reports, and no remaining row carries a chosen flag |
| Table.DowngradeAll | radio-manager.py:2396-2404 | the cell loop gives the rewritten table and the number of changes |
| Table.StationTable.constructor | radio-manager.py:2100-2101 | no rows, no duplicates, no check, no search results |
| Table.StationTable.PerformSearch | radio-manager.py:2137-2168 | the results are the matching rows, the first selected, and nothing else changes |
| Table.StationTable.NextSearchResult | radio-manager.py:2182-2192 | one result on, wrapping to the first |
| Table.StationTable.PrevSearchResult | radio-manager.py:2170-2180 | one result back, wrapping to the last |
| Table.StationTable.FindDuplicates | radio-manager.py:2287-2339 | an empty table changes nothing; otherwise exactly the duplicates are collected and marked, the flag says whether there are any, and when there are, the search for the mark is run |
| Table.StationTable.MarkDuplicates | radio-manager.py:2293-2325 | the two loops collect and mark exactly the duplicates |
| Table.StationTable.RemoveRows | radio-manager.py:2356-2357 | removing from the highest index down leaves the rows whose index is not removed |
| Table.StationTable.RemoveDuplicates | radio-manager.py:2341-2375 | unconfirmed or without duplicates nothing changes; otherwise the duplicates are removed, their number is reported, and the search is cleared |
| Table.StationTable.FixHttps | radio-manager.py:2377-2406 | an empty table or a refusal changes nothing; otherwise every stripped `https://` address is rewritten and the changes are counted |
| Table.StationTable.SelectDead | radio-manager.py:2739-2742 | the rows offered for removal are those with a chosen flag |
| Table.StationTable.RemoveInactive | radio-manager.py:2702-2767 | after a check, with flags chosen, flagged rows present and confirmation, the flagged rows are removed, counted, and the check is undone; otherwise nothing changes |

## Left out

- Files, the configuration INI and the outer `try` of `process_csv_file` are
  not modelled. The model starts from the lines of the file and ends with the
  text written.
- The network is not modelled: `requests.head`/`get`, `iter_content` and
  `response.close()`.
  - An answered probe is a `Probe.Response` record: status, headers, the
    sample already read, the final URL, and the size of the nested playlist.
  - A failed probe is one of three exception kinds.
  - The HEAD-then-GET sequence and its fallback only decide which reply is
    seen, so they are folded into that outcome.
  - The playlist GET is `get: string -> Reply`.
- Threads, the semaphore and unsynchronised counters in `check_stations` are
  not modelled. Probes run one after another, and `cancel_check()` arriving
  after a given number of probes is the parameter `cancelAt`.
- `progress_updated` and the other Qt signals are return values or data, not
  signals.
  - `station_checked` is the list of reports.
  - `station_renamed` is a list of events.
  - The started and finished counts are returned.
- The following are parameters that the model does not interpret:
  - `urljoin` (RFC 3986 section 5.2 reference resolution);
  - `ElementTree.fromstring` and `root.iter()` (an optional sequence of
    elements with their direct children);
  - `charset_normalizer.from_bytes(...).best()`;
  - `bytes.decode` for the fallback code pages.
- The Qt table is a sequence of rows with every cell present, so the `if item:`
  checks for missing cells are not modelled.
- Highlighting, message boxes, logging from `MainWindow`, the
  `ui_state_manager` and the search box's text are not modelled. The
  following stand in for them.
  - A confirmation is the `confirmed` parameter.
  - The flags chosen in the deletion dialog are the `flags` parameter, and
    their persistence is left out.
  - Clearing the search box is a search for the empty text.
- Table.StationTable.constructor: the source does not set `duplicates` and
  `has_duplicates` in `MainWindow.__init__`, and sets `has_checked_stations`
  in the check handlers (2573, 2662, 2683), which are not modelled. The model
  starts with all of them empty or false.
- String-level limits:
  - `int()` accepts surrounding whitespace, a sign and ASCII digits only.
    Underscores and non-ASCII digits are left out, and so are non-ASCII
    digits for `\d` in the line pattern.
  - Case mapping covers ASCII, the Latin-1 letters U+00C0..U+00FE and the
    Cyrillic letters U+0400..U+045F. Python also upper-cases ß to "SS", µ to
    U+039C and ÿ to U+0178, and maps the rest of the Cyrillic block (such as
    Ґ U+0490, Қ and Ә), Greek and other scripts; the model leaves those
    characters unchanged.
  - The `[^\]]+` fields and `\d+` of `parse_info_cell` are modelled over
    those characters.
- Encoding.TextValid: the float test `strange / total < 0.3` is stated in
  integers as `10 * strange < 3 * total`. This is the same for every length a string in memory can have.
- The float player volume, StreamPlayer and its ICY socket reader are not part
  of this model.
- Behaviour of the source that is easy to miss:
  - `audio/x-custom; charset=utf-8` normalises to `X-CUSTOM`, because only the
    text after the last '/' is kept.
  - Sniffing looks at the whole body.
  - `fetch_and_parse` is never called recursively, so `depth` and `visited`
    act only as guards.
  - `application/pls+xml` is in the format table but is not recognised as a
    playlist by `_is_playlist`.
  - The status cells `[403]`, `[500]` and the like are never among the
    deletion flags.
- `sorted(rows, reverse=True)` followed by `removeRow` is modelled as a scan
  from the highest index down over the set of indices to remove. This is the
  same removal, because the indices are distinct: `Table.DuplicatesDistinct`
  and `Table.DeadRows` prove it.
- `fix_names` leaves its loop with `break` after the first active entry when
  it is not applied to all. The model uses a stop flag.
- Playlist.XspfOnePerTrack: an exception in the middle of the element loop
  would keep the entries found so far. The model treats a document as parsed
  or not parsed.
- Playlist.Visited.FetchAndParse: a `ValueError` from `urljoin`, for example on
  an unclosed IPv6 address such as `http://[::1`, is caught by the
  `except Exception` at 1293-1294 and yields []. The model's join is a total
  function, so this path is not modelled, and the promise that any exception
  yields [] is shown for the GET only.
- Playlist.ParseM3u, Playlist.ParsePls and Playlist.ParsePlain: for the same
  reason, a join that would raise (1312, 1342, 1291) still gives an entry in the
  model, where the source returns no entries at all.
