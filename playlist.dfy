/** `PlaylistParser`: fetching a playlist URL once, sniffing its format and
    reading the stream entries out of M3U/M3U8, PLS, XSPF or a bare list of links. */
module Playlist {
  import opened PyStr

  /** `PlaylistParser.MAX_DEPTH`. */
  const MaxDepth: int := 3

  /** One `{'url': ..., 'title': ...}` dictionary of the result. */
  datatype Entry = Entry(url: string, title: Option<string>)

  /** `urllib.parse.urljoin(base, ref)`, which the model does not interpret. */
  type Join = (string, string) -> string

  // ---------------------------------------------------------------------------
  // Sniffing (lines 1273-1284): markers searched in `text.lstrip().lower()`

  function Sniffed(text: string): string {
    Lower(LStrip(text))
  }

  predicate HasM3uMarker(s: string) {
    Contains(s, "#extm3u") || Contains(s, "#extinf")
  }

  predicate HasPlsMarker(s: string) {
    Contains(s, "[playlist]") || Contains(s, "file1=")
  }

  predicate HasXspfMarker(s: string) {
    Contains(s, "<playlist") && Contains(s, "<tracklist")
  }

  datatype Format = M3u | Pls | Xspf | PlainLinks

  /** The branch `fetch_and_parse` takes: the first format whose markers occur wins. */
  function Sniff(text: string): (f: Format)
    ensures f == M3u <==> HasM3uMarker(Sniffed(text))
    ensures f == Pls <==> !HasM3uMarker(Sniffed(text)) && HasPlsMarker(Sniffed(text))
    ensures f == Xspf <==> !HasM3uMarker(Sniffed(text)) && !HasPlsMarker(Sniffed(text)) && HasXspfMarker(Sniffed(text))
  {
    var s := Sniffed(text);
    if HasM3uMarker(s) then M3u
    else if HasPlsMarker(s) then Pls
    else if HasXspfMarker(s) then Xspf
    else PlainLinks
  }

  // ---------------------------------------------------------------------------
  // _parse_m3u (lines 1297-1314)

  /** A stripped line that `_parse_m3u` reads as a `#EXTINF` directive. */
  predicate IsExtinf(ln: string) {
    StartsWith(Upper(ln), "#EXTINF")
  }

  /** `ln.split(',', 1)[1].strip()` when there is a comma. */
  function ExtinfTitle(ln: string): (r: Option<string>)
    ensures r.Some? <==> ',' in ln
    ensures r.Some? ==> Trimmed(r.value)
  {
    match IndexOf(ln, ',')
    case None => None
    case Some(k) => Some(Strip(ln[k + 1..]))
  }

  /** A stripped line that becomes an entry: not blank, not a directive, not a comment. */
  predicate IsM3uUrl(ln: string) {
    ln != [] && !IsExtinf(ln) && ln[0] != '#'
  }

  /** The value of `pending_title` after `lines`: the title of the last `#EXTINF`
      line with a comma since the last entry line, if any. */
  function PendingTitle(lines: seq<string>): Option<string>
    decreases |lines|
  {
    if lines == [] then None
    else
      var ln := Strip(lines[|lines| - 1]);
      var before := PendingTitle(lines[..|lines| - 1]);
      if ln == [] then before
      else if IsExtinf(ln) then (if ExtinfTitle(ln).Some? then ExtinfTitle(ln) else before)
      else if ln[0] == '#' then before
      else None
  }

  /** The entries `_parse_m3u` returns for the lines of the playlist. */
  function M3uEntries(lines: seq<string>, base: string, join: Join): seq<Entry>
    decreases |lines|
  {
    if lines == [] then []
    else
      var prefix := lines[..|lines| - 1];
      var ln := Strip(lines[|lines| - 1]);
      M3uEntries(prefix, base, join)
      + (if IsM3uUrl(ln) then [Entry(join(base, ln), PendingTitle(prefix))] else [])
  }

  /** The stripped entry lines of an M3U playlist, in order. */
  function M3uUrlLines(lines: seq<string>): seq<string>
    decreases |lines|
  {
    if lines == [] then []
    else
      var ln := Strip(lines[|lines| - 1]);
      M3uUrlLines(lines[..|lines| - 1]) + (if IsM3uUrl(ln) then [ln] else [])
  }

  method ParseM3u(content: string, base: string, join: Join) returns (entries: seq<Entry>)
    ensures entries == M3uEntries(SplitLines(content), base, join)
  {
    var lines := SplitLines(content);
    entries := [];
    var pending: Option<string> := None;
    for i := 0 to |lines|
      invariant entries == M3uEntries(lines[..i], base, join)
      invariant pending == PendingTitle(lines[..i])
    {
      assert lines[..i + 1][..i] == lines[..i];
      var ln := Strip(lines[i]);
      if ln == [] {
        continue;
      }
      if IsExtinf(ln) {
        match IndexOf(ln, ',') {
          case Some(k) => pending := Some(Strip(ln[k + 1..]));
          case None =>
        }
        continue;
      }
      if ln[0] == '#' {
        continue;
      }
      entries := entries + [Entry(join(base, ln), pending)];
      pending := None;
    }
    assert lines[..|lines|] == lines;
  }

  /** One entry per entry line, in order, each URL resolved against the playlist's URL. */
  lemma {:induction false} M3uEntryUrls(lines: seq<string>, base: string, join: Join)
    ensures |M3uEntries(lines, base, join)| == |M3uUrlLines(lines)|
    ensures forall i :: 0 <= i < |M3uUrlLines(lines)| ==>
      M3uEntries(lines, base, join)[i].url == join(base, M3uUrlLines(lines)[i])
    decreases |lines|
  {
    if lines != [] {
      M3uEntryUrls(lines[..|lines| - 1], base, join);
    }
  }

  /** Without a `#EXTINF` line carrying a comma, no entry gets a title. */
  lemma {:induction false} M3uUntitled(lines: seq<string>, base: string, join: Join)
    requires forall j :: 0 <= j < |lines| ==> !(IsExtinf(Strip(lines[j])) && ',' in Strip(lines[j]))
    ensures forall e :: e in M3uEntries(lines, base, join) ==> e.title == None
    decreases |lines|
  {
    if lines != [] {
      var prefix := lines[..|lines| - 1];
      PendingUntitled(prefix);
      M3uUntitled(prefix, base, join);
    }
  }

  lemma {:induction false} PendingUntitled(lines: seq<string>)
    requires forall j :: 0 <= j < |lines| ==> !(IsExtinf(Strip(lines[j])) && ',' in Strip(lines[j]))
    ensures PendingTitle(lines) == None
    decreases |lines|
  {
    if lines != [] {
      PendingUntitled(lines[..|lines| - 1]);
    }
  }

  /** A title sits on the next entry only: the entry line right after a titled
      `#EXTINF` line takes its title, and the one after that takes none. */
  lemma M3uTitleThenUrl(lines: seq<string>, info: string, url: string, url2: string, base: string, join: Join)
    requires IsExtinf(Strip(info)) && ',' in Strip(info)
    requires IsM3uUrl(Strip(url)) && IsM3uUrl(Strip(url2))
    ensures M3uEntries(lines + [info, url, url2], base, join)
      == M3uEntries(lines, base, join)
         + [Entry(join(base, Strip(url)), ExtinfTitle(Strip(info))), Entry(join(base, Strip(url2)), None)]
  {
    var a := lines + [info];
    var b := a + [url];
    var c := b + [url2];
    assert c == lines + [info, url, url2];
    assert a[..|a| - 1] == lines && a[|a| - 1] == info;
    assert b[..|b| - 1] == a && b[|b| - 1] == url;
    assert c[..|c| - 1] == b && c[|c| - 1] == url2;
    assert M3uEntries(a, base, join) == M3uEntries(lines, base, join);
    assert PendingTitle(a) == ExtinfTitle(Strip(info));
    assert M3uEntries(b, base, join) == M3uEntries(a, base, join) + [Entry(join(base, Strip(url)), PendingTitle(a))];
    assert PendingTitle(b) == None;
    assert M3uEntries(c, base, join) == M3uEntries(b, base, join) + [Entry(join(base, Strip(url2)), PendingTitle(b))];
  }

  /** A `#EXTINF` line without a comma keeps the title already pending, and so do blank
      lines and comments. */
  lemma PendingKept(lines: seq<string>, ln: string)
    requires Strip(ln) == [] || (IsExtinf(Strip(ln)) && ',' !in Strip(ln)) || (!IsExtinf(Strip(ln)) && Strip(ln)[0] == '#')
    ensures PendingTitle(lines + [ln]) == PendingTitle(lines)
  {
    var a := lines + [ln];
    assert a[..|a| - 1] == lines && a[|a| - 1] == ln;
  }

  // ---------------------------------------------------------------------------
  // _parse_pls (lines 1317-1343)

  /** What one line of a PLS file sets. */
  datatype PlsLine =
    | FileLine(idx: int, value: string)
    | TitleLine(idx: int, value: string)
    | Ignored

  /** The key and value of a line: `line.split('=', 1)`, the key stripped and
      lower-cased, the value stripped; a line that is blank or has no `=` has none. */
  function KeyValue(raw: string): Option<(string, string)>
  {
    var line := Strip(raw);
    match IndexOf(line, '=')
    case None => None
    case Some(j) => Some((Lower(Strip(line[..j])), Strip(line[j + 1..])))
  }

  /** `int(k.replace(word, ''))`, for a key that starts with `word`. */
  function KeyIndex(k: string, word: string): Option<int>
    requires word != []
  {
    PyInt(Replace(k, word, ""))
  }

  function ReadPlsLine(raw: string): (r: PlsLine)
    ensures r.FileLine? ==> KeyValue(raw).Some? && StartsWith(KeyValue(raw).value.0, "file")
    ensures r.TitleLine? ==> KeyValue(raw).Some? && StartsWith(KeyValue(raw).value.0, "title")
  {
    match KeyValue(raw)
    case None => Ignored
    case Some((k, v)) =>
      if StartsWith(k, "file") then
        (match KeyIndex(k, "file") case Some(i) => FileLine(i, v) case None => Ignored)
      else if StartsWith(k, "title") then
        (match KeyIndex(k, "title") case Some(i) => TitleLine(i, v) case None => Ignored)
      else Ignored
  }

  /** `file_map` and `title_map` after `lines`; `order` lists the keys of
      `file_map` in the order a `dict` keeps them (first insertion). */
  datatype PlsMaps = PlsMaps(files: map<int, string>, order: seq<int>, titles: map<int, string>)

  ghost predicate Distinct(ks: seq<int>) {
    forall i, j :: 0 <= i < j < |ks| ==> ks[i] != ks[j]
  }

  /** What each line of the file sets. */
  function PlsItems(lines: seq<string>): (r: seq<PlsLine>)
    ensures |r| == |lines|
  {
    seq(|lines|, i requires 0 <= i < |lines| => ReadPlsLine(lines[i]))
  }

  /** The two dictionaries after the lines that set `items`. */
  function ReadPls(items: seq<PlsLine>): (m: PlsMaps)
    ensures forall i :: i in m.files <==> i in m.order
    ensures Distinct(m.order)
    decreases |items|
  {
    if items == [] then PlsMaps(map[], [], map[])
    else
      var m := ReadPls(items[..|items| - 1]);
      match items[|items| - 1]
      case FileLine(i, v) =>
        PlsMaps(m.files[i := v], if i in m.files then m.order else m.order + [i], m.titles)
      case TitleLine(i, v) => m.(titles := m.titles[i := v])
      case Ignored => m
  }

  /** The line sets `FileN` for `N == i`. */
  predicate SetsFile(l: PlsLine, i: int) {
    l.FileLine? && l.idx == i
  }

  /** The last line adds its index to `file_map` if it sets one, and removes none. */
  lemma ReadPlsLast(items: seq<PlsLine>, i: int)
    requires items != []
    ensures i in ReadPls(items).files
      <==> i in ReadPls(items[..|items| - 1]).files || SetsFile(items[|items| - 1], i)
  {
  }

  /** An index is a key of `file_map` exactly when some line sets it. */
  lemma {:induction false} PlsFileKeys(items: seq<PlsLine>, i: int)
    ensures i in ReadPls(items).files <==> exists j :: 0 <= j < |items| && SetsFile(items[j], i)
    decreases |items|
  {
    if items != [] {
      var n := |items| - 1;
      PlsFileKeys(items[..n], i);
      ReadPlsLast(items, i);
      var p := l => SetsFile(l, i);
      ExistsSnoc(items, items[..n], p);
      assert forall j :: 0 <= j < |items| ==> p(items[j]) == SetsFile(items[j], i);
      assert forall j :: 0 <= j < n ==> p(items[..n][j]) == SetsFile(items[..n][j], i);
    }
  }

  /** A later `FileN` line overrides an earlier one: `file_map[N]` holds the value of the last. */
  lemma {:induction false} PlsLastWins(items: seq<PlsLine>, i: int, j: nat)
    requires j < |items| && SetsFile(items[j], i)
    requires forall k :: j < k < |items| ==> !SetsFile(items[k], i)
    ensures i in ReadPls(items).files && ReadPls(items).files[i] == items[j].value
    decreases |items|
  {
    var prefix := items[..|items| - 1];
    if j < |items| - 1 {
      assert prefix[j] == items[j];
      assert forall k :: j < k < |prefix| ==> prefix[k] == items[k];
      PlsLastWins(prefix, i, j);
      assert !SetsFile(items[|items| - 1], i);
    }
  }

  /** `title_map.get(idx)`. */
  function Get(m: map<int, string>, i: int): (r: Option<string>)
    ensures r.Some? <==> i in m
    ensures r.Some? ==> r.value == m[i]
  {
    if i in m then Some(m[i]) else None
  }

  /** `x` put into the sorted `ks`, before the first element not below it. */
  function Insert(x: int, ks: seq<int>): (r: seq<int>)
    ensures multiset(r) == multiset{x} + multiset(ks)
    ensures forall y :: y in r <==> y == x || y in ks
  {
    if ks == [] then [x]
    else if x <= ks[0] then [x] + ks
    else
      assert ks == [ks[0]] + ks[1..];
      [ks[0]] + Insert(x, ks[1..])
  }

  /** `sorted(ks)` for integers. */
  function Sort(ks: seq<int>): (r: seq<int>)
    ensures multiset(r) == multiset(ks)
    ensures forall y :: y in r <==> y in ks
  {
    if ks == [] then []
    else
      assert ks == [ks[0]] + ks[1..];
      Insert(ks[0], Sort(ks[1..]))
  }

  ghost predicate Ascending(ks: seq<int>) {
    forall i, j :: 0 <= i < j < |ks| ==> ks[i] <= ks[j]
  }

  lemma ConsAscending(k: int, ks: seq<int>)
    requires Ascending(ks) && forall y :: y in ks ==> k <= y
    ensures Ascending([k] + ks)
  {
    var r := [k] + ks;
    forall i, j | 0 <= i < j < |r|
      ensures r[i] <= r[j]
    {
      assert r[j] == ks[j - 1] && ks[j - 1] in ks;
      if i > 0 {
        assert r[i] == ks[i - 1];
      }
    }
  }

  lemma TailAscending(ks: seq<int>)
    requires ks != [] && Ascending(ks)
    ensures Ascending(ks[1..]) && forall y :: y in ks[1..] ==> ks[0] <= y
  {
    var t := ks[1..];
    forall i, j | 0 <= i < j < |t|
      ensures t[i] <= t[j]
    {
      assert t[i] == ks[i + 1] && t[j] == ks[j + 1];
    }
    forall y | y in t
      ensures ks[0] <= y
    {
      var k :| 0 <= k < |t| && t[k] == y;
      assert ks[k + 1] == y;
    }
  }

  lemma {:induction false} InsertAscending(x: int, ks: seq<int>)
    requires Ascending(ks)
    ensures Ascending(Insert(x, ks))
    decreases |ks|
  {
    if ks == [] {
      assert Insert(x, ks) == [x];
    } else if x <= ks[0] {
      TailAscending(ks);
      assert ks == [ks[0]] + ks[1..];
      ConsAscending(x, ks);
    } else {
      var t := ks[1..];
      TailAscending(ks);
      InsertAscending(x, t);
      ConsAscending(ks[0], Insert(x, t));
    }
  }

  lemma {:induction false} SortAscending(ks: seq<int>)
    ensures Ascending(Sort(ks))
    decreases |ks|
  {
    if ks != [] {
      SortAscending(ks[1..]);
      InsertAscending(ks[0], Sort(ks[1..]));
    }
  }

  /** The entry for PLS index `i`. */
  function PlsEntry(m: PlsMaps, i: int, base: string, join: Join): Entry
    requires i in m.files
  {
    Entry(join(base, m.files[i]), Get(m.titles, i))
  }

  /** The entries `_parse_pls` returns: one per `FileN` index, by ascending index. */
  function PlsEntries(lines: seq<string>, base: string, join: Join): seq<Entry>
  {
    var m := ReadPls(PlsItems(lines));
    var ks := Sort(m.order);
    seq(|ks|, k requires 0 <= k < |ks| => PlsEntry(m, ks[k], base, join))
  }

  /** The PLS result lists each `FileN` index once, by ascending index, each
      with the last `FileN` value and the `TitleN` value if there is one. */
  lemma PlsEntriesSorted(lines: seq<string>, base: string, join: Join)
    ensures var m := ReadPls(PlsItems(lines)); var ks := Sort(m.order);
      Ascending(ks) && multiset(ks) == multiset(m.order) && Distinct(m.order)
      && (forall i :: i in ks <==> i in m.files)
      && |PlsEntries(lines, base, join)| == |ks|
      && forall k :: 0 <= k < |ks| ==>
        PlsEntries(lines, base, join)[k] == Entry(join(base, m.files[ks[k]]), Get(m.titles, ks[k]))
  {
    SortAscending(ReadPls(PlsItems(lines)).order);
  }

  method ParsePls(content: string, base: string, join: Join) returns (entries: seq<Entry>)
    ensures entries == PlsEntries(SplitLines(content), base, join)
  {
    var lines := SplitLines(content);
    ghost var items := PlsItems(lines);
    var fileMap: map<int, string> := map[];
    var order: seq<int> := [];
    var titleMap: map<int, string> := map[];
    for i := 0 to |lines|
      invariant ReadPls(items[..i]) == PlsMaps(fileMap, order, titleMap)
    {
      assert items[..i + 1][..i] == items[..i];
      var item := ReadPlsLine(lines[i]);
      assert item == items[i];
      match item {
        case FileLine(idx, v) =>
          if idx !in fileMap {
            order := order + [idx];
          }
          fileMap := fileMap[idx := v];
        case TitleLine(idx, v) =>
          titleMap := titleMap[idx := v];
        case Ignored =>
      }
    }
    assert items[..|lines|] == items;
    entries := PlsOutput(PlsMaps(fileMap, order, titleMap), base, join);
  }

  /** The final loop of `_parse_pls`: one entry per key of `file_map`, by ascending key. */
  method PlsOutput(m: PlsMaps, base: string, join: Join) returns (entries: seq<Entry>)
    requires forall x :: x in m.order ==> x in m.files
    ensures var ks := Sort(m.order);
      entries == seq(|ks|, k requires 0 <= k < |ks| => PlsEntry(m, ks[k], base, join))
  {
    var ks := Sort(m.order);
    entries := EntriesFor(m, ks, base, join);
  }

  /** One entry per index of `ks`, in the order of `ks`. */
  method EntriesFor(m: PlsMaps, ks: seq<int>, base: string, join: Join) returns (entries: seq<Entry>)
    requires forall x :: x in ks ==> x in m.files
    ensures |entries| == |ks|
    ensures forall j :: 0 <= j < |ks| ==> entries[j] == PlsEntry(m, ks[j], base, join)
  {
    entries := [];
    for k := 0 to |ks|
      invariant |entries| == k
      invariant forall j :: 0 <= j < k ==> entries[j] == PlsEntry(m, ks[j], base, join)
    {
      assert ks[k] in ks;
      entries := entries + [Entry(join(base, m.files[ks[k]]), Get(m.titles, ks[k]))];
    }
  }

  // ---------------------------------------------------------------------------
  // _parse_xspf (lines 1346-1366), over the elements `ElementTree` produces

  /** A child element of a track: its tag and its text (`None` or empty when it has none). */
  datatype XmlChild = XmlChild(tag: string, text: Option<string>)

  /** An element as `root.iter()` visits it, with its direct children. */
  datatype XmlElem = XmlElem(tag: string, children: seq<XmlChild>)

  /** `ch.text.strip() if ch.text else None`. */
  function ChildText(text: Option<string>): (r: Option<string>)
    ensures r.Some? ==> Trimmed(r.value)
  {
    if text.Some? && text.value != [] then Some(Strip(text.value)) else None
  }

  predicate IsLocation(ch: XmlChild) {
    EndsWith(Lower(ch.tag), "location")
  }

  predicate IsTitle(ch: XmlChild) {
    !IsLocation(ch) && EndsWith(Lower(ch.tag), "title")
  }

  /** `loc` after looking at `children`: the text of the last location child. */
  function TrackLocation(children: seq<XmlChild>): Option<string>
    decreases |children|
  {
    if children == [] then None
    else if IsLocation(children[|children| - 1]) then ChildText(children[|children| - 1].text)
    else TrackLocation(children[..|children| - 1])
  }

  /** `title` after looking at `children`: the text of the last title child. */
  function TrackTitle(children: seq<XmlChild>): Option<string>
    decreases |children|
  {
    if children == [] then None
    else if IsTitle(children[|children| - 1]) then ChildText(children[|children| - 1].text)
    else TrackTitle(children[..|children| - 1])
  }

  predicate IsTrack(e: XmlElem) {
    EndsWith(Lower(e.tag), "track")
  }

  /** What one element adds to the result. */
  function TrackEntries(e: XmlElem, base: string, join: Join): seq<Entry>
  {
    var loc := TrackLocation(e.children);
    if IsTrack(e) && loc.Some? && loc.value != [] then [Entry(join(base, loc.value), TrackTitle(e.children))] else []
  }

  /** The entries `_parse_xspf` returns for the elements of a document that parsed. */
  function XspfEntries(elems: seq<XmlElem>, base: string, join: Join): seq<Entry>
    decreases |elems|
  {
    if elems == [] then []
    else XspfEntries(elems[..|elems| - 1], base, join) + TrackEntries(elems[|elems| - 1], base, join)
  }

  /** `e` comes from a track element of `elems` with a non-blank location, joined to `base`. */
  predicate FromTrack(elems: seq<XmlElem>, e: Entry, base: string, join: Join) {
    exists k :: 0 <= k < |elems| && IsTrack(elems[k]) && TrackLocation(elems[k].children).Some?
      && TrackLocation(elems[k].children).value != [] && e.url == join(base, TrackLocation(elems[k].children).value)
  }

  /** At most one entry per track element, each with a non-blank location. */
  lemma {:induction false} XspfOnePerTrack(elems: seq<XmlElem>, base: string, join: Join)
    ensures |XspfEntries(elems, base, join)| <= |elems|
    ensures forall e :: e in XspfEntries(elems, base, join) ==> FromTrack(elems, e, base, join)
    decreases |elems|
  {
    if elems != [] {
      var n := |elems| - 1;
      var prefix := elems[..n];
      XspfOnePerTrack(prefix, base, join);
      var front := XspfEntries(prefix, base, join);
      var added := TrackEntries(elems[n], base, join);
      assert XspfEntries(elems, base, join) == front + added;
      forall e | e in front + added
        ensures FromTrack(elems, e, base, join)
      {
        MemberConcat(front, added, e);
        if e in front {
          var k :| 0 <= k < |prefix| && IsTrack(prefix[k]) && TrackLocation(prefix[k].children).Some?
            && TrackLocation(prefix[k].children).value != [] && e.url == join(base, TrackLocation(prefix[k].children).value);
          assert prefix[k] == elems[k];
        } else {
          assert IsTrack(elems[n]) && e.url == join(base, TrackLocation(elems[n].children).value);
        }
      }
    }
  }

  /** The last location child decides: an empty one hides a filled one before it. */
  lemma BlankLastLocationDropsTrack(tag: string, first: string, last: XmlChild, base: string, join: Join)
    requires EndsWith(Lower(tag), "track")
    requires IsLocation(last) && (last.text == None || last.text == Some([]))
    ensures TrackEntries(XmlElem(tag, [XmlChild("location", Some(first)), last]), base, join) == []
  {
    var cs := [XmlChild("location", Some(first)), last];
    assert cs[..1] == [XmlChild("location", Some(first))];
  }

  /** The loop over a track's children: the text of its last location child and of
      its last title child. */
  method ReadTrack(children: seq<XmlChild>) returns (loc: Option<string>, title: Option<string>)
    ensures loc == TrackLocation(children) && title == TrackTitle(children)
  {
    loc, title := None, None;
    for j := 0 to |children|
      invariant loc == TrackLocation(children[..j])
      invariant title == TrackTitle(children[..j])
    {
      assert children[..j + 1][..j] == children[..j];
      var ch := children[j];
      if IsLocation(ch) {
        loc := ChildText(ch.text);
      } else if IsTitle(ch) {
        title := ChildText(ch.text);
      }
    }
    assert children[..|children|] == children;
  }

  method ParseXspf(doc: Option<seq<XmlElem>>, base: string, join: Join) returns (entries: seq<Entry>)
    ensures doc.None? ==> entries == []
    ensures doc.Some? ==> entries == XspfEntries(doc.value, base, join)
  {
    entries := [];
    if doc == None {
      return;
    }
    var elems := doc.value;
    for i := 0 to |elems|
      invariant entries == XspfEntries(elems[..i], base, join)
    {
      assert elems[..i + 1][..i] == elems[..i];
      var track := elems[i];
      if IsTrack(track) {
        var loc, title := ReadTrack(track.children);
        if loc.Some? && loc.value != [] {
          entries := entries + [Entry(join(base, loc.value), title)];
        }
      }
    }
    assert elems[..|elems|] == elems;
  }

  // ---------------------------------------------------------------------------
  // The fallback of fetch_and_parse (lines 1286-1292)

  /** A stripped line the fallback keeps. */
  predicate IsLink(ln: string) {
    ln != [] && ln[0] != '#' && StartsWith(Lower(ln), "http")
  }

  function PlainEntries(lines: seq<string>, base: string, join: Join): seq<Entry>
    decreases |lines|
  {
    if lines == [] then []
    else
      var ln := Strip(lines[|lines| - 1]);
      PlainEntries(lines[..|lines| - 1], base, join) + (if IsLink(ln) then [Entry(join(base, ln), None)] else [])
  }

  /** Every fallback entry comes from a line starting with `http` in any case, and has no title. */
  lemma {:induction false} PlainEntriesAreLinks(lines: seq<string>, base: string, join: Join)
    ensures forall e :: e in PlainEntries(lines, base, join) ==>
      e.title == None && exists j :: 0 <= j < |lines| && IsLink(Strip(lines[j])) && e.url == join(base, Strip(lines[j]))
    decreases |lines|
  {
    if lines != [] {
      var prefix := lines[..|lines| - 1];
      PlainEntriesAreLinks(prefix, base, join);
      assert forall j :: 0 <= j < |prefix| ==> prefix[j] == lines[j];
    }
  }

  /** Every line starting with `http` in any case gives its untitled entry. */
  lemma {:induction false} PlainEntriesComplete(lines: seq<string>, base: string, join: Join, j: nat)
    requires j < |lines| && IsLink(Strip(lines[j]))
    ensures Entry(join(base, Strip(lines[j])), None) in PlainEntries(lines, base, join)
    decreases |lines|
  {
    var prefix := lines[..|lines| - 1];
    if j < |lines| - 1 {
      assert prefix[j] == lines[j];
      PlainEntriesComplete(prefix, base, join, j);
    }
  }

  method ParsePlain(text: string, base: string, join: Join) returns (entries: seq<Entry>)
    ensures entries == PlainEntries(SplitLines(text), base, join)
  {
    var lines := SplitLines(text);
    entries := [];
    for i := 0 to |lines|
      invariant entries == PlainEntries(lines[..i], base, join)
    {
      assert lines[..i + 1][..i] == lines[..i];
      var ln := Strip(lines[i]);
      if ln != [] && ln[0] != '#' && StartsWith(Lower(ln), "http") {
        entries := entries + [Entry(join(base, ln), None)];
      }
    }
    assert lines[..|lines|] == lines;
  }

  // ---------------------------------------------------------------------------
  // fetch_and_parse (lines 1247-1294)

  /** What `requests.get(url)` gives: an exception, or a status and the decoded body. */
  datatype Reply = Unreachable | Reply(status: int, text: string)

  /** The entries for a body that was fetched with status 200. */
  ghost function BodyEntries(text: string, url: string, xml: string -> Option<seq<XmlElem>>, join: Join): seq<Entry>
  {
    match Sniff(text)
    case M3u => M3uEntries(SplitLines(text), url, join)
    case Pls => PlsEntries(SplitLines(text), url, join)
    case Xspf => if xml(text).Some? then XspfEntries(xml(text).value, url, join) else []
    case PlainLinks => PlainEntries(SplitLines(text), url, join)
  }

  /** The URLs already fetched in one run (`visited`), shared by the caller. */
  class Visited {
    var urls: set<string>

    constructor ()
      ensures urls == {}
    {
      urls := {};
    }
  }

  /** `fetch_and_parse(url, depth, visited)`; `get` answers the GET request,
      `xml` is `ElementTree.fromstring` (`None` when it raises). */
  method FetchAndParse(url: string, depth: int, visited: Visited, get: string -> Reply,
                       xml: string -> Option<seq<XmlElem>>, join: Join)
    returns (entries: seq<Entry>)
    modifies visited
    ensures depth > MaxDepth || url in old(visited.urls) ==> entries == [] && visited.urls == old(visited.urls)
    ensures depth <= MaxDepth && url !in old(visited.urls) ==>
      visited.urls == old(visited.urls) + {url}
      && entries == (if get(url).Reply? && get(url).status == 200 then BodyEntries(get(url).text, url, xml, join) else [])
  {
    if depth > MaxDepth {
      return [];
    }
    if url in visited.urls {
      return [];
    }
    visited.urls := visited.urls + {url};
    var r := get(url);
    if r.Unreachable? || r.status != 200 {
      return [];
    }
    var text := r.text;
    match Sniff(text)
    case M3u =>
      entries := ParseM3u(text, url, join);
    case Pls =>
      entries := ParsePls(text, url, join);
    case Xspf =>
      entries := ParseXspf(xml(text), url, join);
    case PlainLinks =>
      entries := ParsePlain(text, url, join);
  }
}
