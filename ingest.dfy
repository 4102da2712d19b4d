/** `DataProcessor`: turning the lines of a station list into station records,
    and the line format the list is saved in. */
module Ingest {
  import opened PyStr

  /** A station record, as `process_csv_file` appends it. */
  datatype Station = Station(name: string, url: string, volume: int)

  const MinVolume: int := -64
  const MaxVolume: int := 64

  /** Why a line was refused; the three messages the per-line `try` block raises. */
  datatype LineError =
    | BadFormat          // the glued name/URL/URL line did not match its pattern
    | TooFewParts        // fewer than three fields
    | BadUrl(url: string) // the URL does not start with http:// or https://

  /** One entry of `log_messages`, with the line number it is about. */
  datatype LogEntry =
    | VolumeOutOfRange(line: nat, volume: int)
    | BadVolume(line: nat, text: string)
    | LineFailed(line: nat, error: LineError)
    | Summary(succeeded: nat, failed: nat)

  // ---------------------------------------------------------------------------
  // re.split(r'\t+|\s{2,}', line)

  function TabRun(s: string): (k: nat)
    ensures k <= |s|
    ensures forall i :: 0 <= i < k ==> s[i] == '\t'
    ensures k < |s| ==> s[k] != '\t'
  {
    if s != [] && s[0] == '\t' then 1 + TabRun(s[1..]) else 0
  }

  function SpaceRun(s: string): (k: nat)
    ensures k <= |s|
    ensures forall i :: 0 <= i < k ==> IsSpace(s[i])
    ensures k < |s| ==> !IsSpace(s[k])
  {
    if s != [] && IsSpace(s[0]) then 1 + SpaceRun(s[1..]) else 0
  }

  /** Length of the separator that matches at the start of `s` (0 for none).
      The first alternative wins: at a tab only the run of tabs is taken. */
  function SeparatorAt(s: string): (k: nat)
    ensures k <= |s|
    ensures k == 0 <==> s == [] || (s[0] != '\t' && !(|s| >= 2 && IsSpace(s[0]) && IsSpace(s[1])))
  {
    if s != [] && s[0] == '\t' then TabRun(s)
    else if |s| >= 2 && IsSpace(s[0]) && IsSpace(s[1]) then SpaceRun(s)
    else 0
  }

  /** The split, scanning `s` with the characters of the current field in `piece`. */
  function SplitFrom(s: string, piece: string): (r: seq<string>)
    ensures r != []
    decreases |s|
  {
    if s == [] then [piece]
    else
      var k := SeparatorAt(s);
      if k > 0 then [piece] + SplitFrom(s[k..], [])
      else SplitFrom(s[1..], piece + [s[0]])
  }

  function SplitFields(line: string): (r: seq<string>)
    ensures r != []
  {
    SplitFrom(line, [])
  }

  /** No separator can start inside `s`: no tab, no two whitespace characters in a row. */
  ghost predicate Unbroken(s: string) {
    && (forall i :: 0 <= i < |s| ==> s[i] != '\t')
    && (forall i, j :: 0 <= i < j < |s| && j == i + 1 ==> !(IsSpace(s[i]) && IsSpace(s[j])))
  }

  /** Characters where no separator starts go into the current field. */
  lemma {:induction false} SplitFromUnbroken(x: string, rest: string, piece: string)
    requires Unbroken(x)
    requires x != [] && rest != [] ==> !(IsSpace(x[|x| - 1]) && IsSpace(rest[0]))
    ensures SplitFrom(x + rest, piece) == SplitFrom(rest, piece + x)
    decreases |x|
  {
    if x != [] {
      var s := x + rest;
      ConcatFirst(x, rest);
      assert |s| >= 2 ==> s[1] == (if |x| >= 2 then x[1] else rest[0]);
      assert SeparatorAt(s) == 0;
      UnbrokenTail(x, rest);
      SplitFromUnbroken(x[1..], rest, piece + [x[0]]);
      ConcatAssoc(piece, [x[0]], x[1..]);
      assert [x[0]] + x[1..] == x;
    } else {
      assert x + rest == rest && piece + x == piece;
    }
  }

  lemma UnbrokenTail(x: string, rest: string)
    requires x != [] && Unbroken(x)
    requires rest != [] ==> !(IsSpace(x[|x| - 1]) && IsSpace(rest[0]))
    ensures Unbroken(x[1..])
    ensures x[1..] != [] && rest != [] ==> !(IsSpace(x[1..][|x[1..]| - 1]) && IsSpace(rest[0]))
  {
    var t := x[1..];
    forall i, j | 0 <= i < j < |t| && j == i + 1
      ensures !(IsSpace(t[i]) && IsSpace(t[j]))
    {
      assert t[i] == x[i + 1] && t[j] == x[j + 1];
    }
  }

  /** Every field `re.split` returns is free of separators. */
  lemma {:induction false} SplitFromFieldsUnbroken(s: string, piece: string)
    requires Unbroken(piece)
    requires piece != [] && s != [] ==> !(IsSpace(piece[|piece| - 1]) && IsSpace(s[0]))
    ensures forall f :: f in SplitFrom(s, piece) ==> Unbroken(f)
    decreases |s|
  {
    if s != [] {
      var k := SeparatorAt(s);
      if k > 0 {
        SplitFromFieldsUnbroken(s[k..], []);
      } else {
        var p := piece + [s[0]];
        assert |s| >= 2 ==> !(IsSpace(s[0]) && IsSpace(s[1]));
        assert s[1..] != [] ==> s[1..][0] == s[1];
        SplitFromFieldsUnbroken(s[1..], p);
      }
    }
  }

  lemma SplitFieldsUnbroken(line: string)
    ensures forall f :: f in SplitFields(line) ==> Unbroken(f)
  {
    SplitFromFieldsUnbroken(line, []);
  }

  // ---------------------------------------------------------------------------
  // re.match(r'^(.*?)\s+(https?://.*?)\s+(https?://.*?)(?:\s+(-?\d+))?$', s)

  /** The groups of the pattern for a name and two URLs glued by single spaces. */
  datatype Glued = Glued(name: string, url1: string, url2: string, volume: Option<string>)

  /** Length of `https://` or `http://` at the start of `s`, 0 for neither. */
  function SchemeLen(s: string): (k: nat)
    ensures k == 0 || k == 7 || k == 8
    ensures k > 0 ==> k <= |s| && StartsWith(s, "http")
  {
    if StartsWith(s, "https://") then 8 else if StartsWith(s, "http://") then 7 else 0
  }

  predicate IsSignedDigits(t: string) {
    t != [] && (if t[0] == '-' then |t| > 1 && AllDigits(t[1..]) else AllDigits(t))
  }

  /** `(?:\s+(-?\d+))?$` tried on the rest `t` of the line, with the group taken:
      the value of group 4 if `t` is whitespace then `-?\d+` (then an optional final newline). */
  function VolumeTail(t: string): (r: Option<string>)
    ensures r.Some? ==> IsSignedDigits(r.value)
  {
    var w := SpaceRun(t);
    if w > 0 && IsSignedDigits(t[w..]) then Some(t[w..])
    else if t != [] && t[|t| - 1] == '\n' && w > 0 && w < |t| && IsSignedDigits(t[w..|t| - 1]) then Some(t[w..|t| - 1])
    else None
  }

  /** `$`: the end, or just before a final newline. */
  predicate AtEnd(t: string) {
    t == [] || t == "\n"
  }

  /** The lazy third group: the shortest `url2` after which the optional
      volume group and `$` match. `u2` is where `url2` starts, `j` its candidate end. */
  function MatchUrl2(s: string, n: nat, e1: nat, m: nat, u2: nat, j: nat): (r: Option<Glued>)
    requires n <= e1 <= m <= u2 <= j <= |s|
    ensures r.Some? ==> r.value.name == s[..n] && r.value.url1 == s[e1..m] && StartsWith(s[u2..], r.value.url2)
    ensures r.Some? && r.value.volume.Some? ==> IsSignedDigits(r.value.volume.value)
    decreases |s| - j
  {
    match VolumeTail(s[j..])
    case Some(v) => Some(Glued(s[..n], s[e1..m], s[u2..j], Some(v)))
    case None =>
      if AtEnd(s[j..]) then Some(Glued(s[..n], s[e1..m], s[u2..j], None))
      else if s[j] == '\n' then None
      else MatchUrl2(s, n, e1, m, u2, j + 1)
  }

  /** The lazy second group: the shortest `url1` (ending at `m`) after which
      whitespace, a second scheme and the rest of the pattern match. */
  function MatchUrl1(s: string, n: nat, e1: nat, m: nat): (r: Option<Glued>)
    requires n <= e1 <= m <= |s|
    ensures r.Some? ==> r.value.name == s[..n] && StartsWith(s[e1..], r.value.url1)
    ensures r.Some? && r.value.volume.Some? ==> IsSignedDigits(r.value.volume.value)
    decreases |s| - m
  {
    if m == |s| then None
    else
      var here :=
        if IsSpace(s[m]) then
          var u2 := m + SpaceRun(s[m..]);
          var k := SchemeLen(s[u2..]);
          if k > 0 then MatchUrl2(s, n, e1, m, u2, u2 + k) else None
        else None;
      if here.Some? then here
      else if s[m] == '\n' then None
      else MatchUrl1(s, n, e1, m + 1)
  }

  /** The lazy first group: the shortest name after which whitespace, a scheme
      and the rest of the pattern match. */
  function MatchName(s: string, n: nat): (r: Option<Glued>)
    requires n <= |s|
    ensures r.Some? ==> StartsWith(s, r.value.name)
    ensures r.Some? && r.value.volume.Some? ==> IsSignedDigits(r.value.volume.value)
    decreases |s| - n
  {
    if n == |s| then None
    else
      var here :=
        if IsSpace(s[n]) then
          var e1 := n + SpaceRun(s[n..]);
          var k := SchemeLen(s[e1..]);
          if k > 0 then MatchUrl1(s, n, e1, e1 + k) else None
        else None;
      if here.Some? then here
      else if s[n] == '\n' then None
      else MatchName(s, n + 1)
  }

  /** The match of the glued-line pattern, with Python's backtracking order. */
  function GluedMatch(s: string): (r: Option<Glued>)
    ensures r.Some? ==> StartsWith(s, r.value.name)
    ensures r.Some? && r.value.volume.Some? ==> IsSignedDigits(r.value.volume.value)
  {
    MatchName(s, 0)
  }

  // ---------------------------------------------------------------------------
  // The three-way branch

  /** What the branch hands on: name, URL, the volume text (`None` where Python
      holds `None`), and the out-of-range note the glued branch logs early. */
  datatype Cut =
    | Cut(name: string, url: string, volume: Option<string>, early: seq<LogEntry>)
    | CutFailed(error: LineError)

  /** `s.rsplit(' ', 2)` when it yields three pieces. */
  function RSplitTwo(s: string): Option<(string, string, string)>
  {
    match LastIndexOf(s, ' ')
    case None => None
    case Some(j) =>
      match LastIndexOf(s[..j], ' ')
      case None => None
      case Some(i) => Some((s[..i], s[i + 1..j], s[j + 1..]))
  }

  /** `' '.join(parts)`. */
  function JoinSpaces(parts: seq<string>): string
  {
    if parts == [] then "" else if |parts| == 1 then parts[0] else parts[0] + " " + JoinSpaces(parts[1..])
  }

  function InRange(v: int): bool {
    MinVolume <= v <= MaxVolume
  }

  /** Lines 55-58: the glued branch checks its volume group once already. */
  function EarlyVolumeNote(volume: Option<string>, n: nat): (r: seq<LogEntry>)
    ensures forall e :: e in r ==> e.VolumeOutOfRange? && e.line == n
  {
    match volume
    case None => []
    case Some(d) =>
      match PyInt(d)
      case None => []
      case Some(v) => if InRange(v) then [] else [VolumeOutOfRange(n, v)]
  }

  function CutLine(line: string, n: nat): (r: Cut)
    ensures r.Cut? ==> forall e :: e in r.early ==> e.VolumeOutOfRange? && e.line == n
  {
    var parts := SplitFields(line);
    if |parts| == 1 && ' ' in parts[0] then
      if Count(parts[0], "http") >= 2 then
        match GluedMatch(parts[0])
        case None => CutFailed(BadFormat)
        case Some(g) => Cut(g.name, g.url1, g.volume, EarlyVolumeNote(g.volume, n))
      else
        match RSplitTwo(parts[0])
        case None => CutFailed(TooFewParts)
        case Some(pieces) => Cut(pieces.0, pieces.1, Some(pieces.2), [])
    else if |parts| >= 3 then
      Cut(JoinSpaces(parts[..|parts| - 2]), parts[|parts| - 2], Some(parts[|parts| - 1]), [])
    else
      CutFailed(TooFewParts)
  }

  // ---------------------------------------------------------------------------
  // Lines 77-95

  /** `int(volume) if volume else 0`, then the range check: never refuses the line. */
  function CoerceVolume(volume: Option<string>, n: nat): (r: (int, seq<LogEntry>))
    ensures InRange(r.0)
    ensures |r.1| <= 1
    ensures r.1 == [] ==> (volume.Some? && PyInt(volume.value) == Some(r.0)) || r.0 == 0
    ensures r.1 != [] ==> r.0 == 0
    ensures volume.None? || volume.value == [] ==> r == (0, [])
    ensures volume.Some? && volume.value != [] && PyInt(volume.value).None? ==> r.1 == [BadVolume(n, volume.value)]
    ensures volume.Some? && volume.value != [] && PyInt(volume.value).Some? ==>
      (InRange(PyInt(volume.value).value) <==> r.1 == [])
    ensures volume.Some? && volume.value != [] && PyInt(volume.value).Some? && InRange(PyInt(volume.value).value)
      ==> r == (PyInt(volume.value).value, [])
    ensures forall e :: e in r.1 ==> (e.VolumeOutOfRange? || e.BadVolume?) && e.line == n
  {
    if volume == None || volume.value == [] then (0, [])
    else match PyInt(volume.value)
      case None => (0, [BadVolume(n, volume.value)])
      case Some(v) => if InRange(v) then (v, []) else (0, [VolumeOutOfRange(n, v)])
  }

  /** `re.match(r'^https?://', url)`. */
  predicate HttpPrefixed(url: string) {
    StartsWith(url, "http://") || StartsWith(url, "https://")
  }

  /** What every record `process_csv_file` returns satisfies. */
  predicate ValidStation(st: Station) {
    InRange(st.volume) && HttpPrefixed(st.url) && ' ' !in st.url && Trimmed(st.name)
  }

  /** Line 43: strip, then drop leading U+FEFF. */
  function CleanLine(raw: string): string {
    LStripChar(Strip(raw), '\U{FEFF}')
  }

  datatype LineOutcome =
    | Blank                                          // skipped by `continue`
    | Accepted(station: Station, notes: seq<LogEntry>)
    | Rejected(notes: seq<LogEntry>)

  /** A note about line `n` that is not the summary. */
  predicate LineNote(e: LogEntry, n: nat) {
    !e.Summary? && e.line == n
  }

  /** Lines 77-95, once the branch has produced the fields. */
  function Finish(name: string, url: string, volume: Option<string>, early: seq<LogEntry>, n: nat): (r: LineOutcome)
    requires forall e :: e in early ==> LineNote(e, n)
    ensures !r.Blank?
    ensures r.Accepted? ==> ValidStation(r.station)
    ensures r.Rejected? ==> r.notes != [] && r.notes[|r.notes| - 1].LineFailed?
    ensures forall e :: e in r.notes ==> LineNote(e, n)
    ensures r.Accepted? <==> HttpPrefixed(RemoveChar(Strip(url), ' '))
    ensures r.Accepted? ==> r.station.volume == CoerceVolume(volume, n).0
    ensures r.Accepted? ==> r.station.name == Strip(name) && r.station.url == RemoveChar(Strip(url), ' ')
  {
    var name' := Strip(name);
    var url' := RemoveChar(Strip(url), ' ');
    var coerced := CoerceVolume(volume, n);
    if HttpPrefixed(url') then
      Accepted(Station(name', url', coerced.0), early + coerced.1)
    else
      Rejected(early + coerced.1 + [LineFailed(n, BadUrl(url'))])
  }

  /** In the glued branch an out-of-range volume is reported twice, once by the branch and
      once by the common check, and the record still gets volume 0. */
  lemma GluedVolumeReportedTwice(name: string, url: string, d: string, n: nat, v: int)
    requires PyInt(d) == Some(v) && !InRange(v)
    ensures var r := Finish(name, url, Some(d), EarlyVolumeNote(Some(d), n), n);
      |r.notes| >= 2 && r.notes[0] == VolumeOutOfRange(n, v) && r.notes[1] == VolumeOutOfRange(n, v)
      && (r.Accepted? ==> r.station.volume == 0)
  {
    assert d != [];
  }

  /** The body of the per-line `try` block of `process_csv_file`. */
  function ParseLine(raw: string, n: nat): (r: LineOutcome)
    ensures r.Blank? <==> CleanLine(raw) == []
    ensures r.Accepted? ==> ValidStation(r.station)
    ensures r.Rejected? ==> r.notes != [] && r.notes[|r.notes| - 1].LineFailed?
    ensures !r.Blank? ==> forall e :: e in r.notes ==> LineNote(e, n)
  {
    var line := CleanLine(raw);
    if line == [] then Blank
    else match CutLine(line, n)
      case CutFailed(err) => Rejected([LineFailed(n, err)])
      case Cut(name, url, volume, early) => Finish(name, url, volume, early, n)
  }

  // ---------------------------------------------------------------------------
  // The whole file

  /** What `process_csv_file` has built after a prefix of the lines. */
  datatype Tally = Tally(stations: seq<Station>, log: seq<LogEntry>, succeeded: nat, failed: nat)

  /** One more line's outcome added to the tally. */
  function Step(t: Tally, outcome: LineOutcome): Tally {
    match outcome
    case Blank => t
    case Accepted(st, notes) => Tally(t.stations + [st], t.log + notes, t.succeeded + 1, t.failed)
    case Rejected(notes) => Tally(t.stations, t.log + notes, t.succeeded, t.failed + 1)
  }

  /** The records and notes for `lines`, numbered from 1 (before the summary line). */
  function Ingested(lines: seq<string>): Tally
    decreases |lines|
  {
    if lines == [] then Tally([], [], 0, 0)
    else Step(Ingested(lines[..|lines| - 1]), ParseLine(lines[|lines| - 1], |lines|))
  }

  lemma IngestedPrefix(lines: seq<string>, i: nat)
    requires i < |lines|
    ensures Ingested(lines[..i + 1]) == Step(Ingested(lines[..i]), ParseLine(lines[i], i + 1))
  {
    assert lines[..i + 1][..i] == lines[..i];
  }

  /** Number of lines that are not blank once cleaned. */
  function NonBlank(lines: seq<string>): nat
  {
    if lines == [] then 0
    else NonBlank(lines[..|lines| - 1]) + (if CleanLine(lines[|lines| - 1]) == [] then 0 else 1)
  }

  /** Each non-blank line adds one record or one failure, and every record is valid. */
  lemma {:induction false} IngestedInvariant(lines: seq<string>)
    ensures var t := Ingested(lines);
      |t.stations| == t.succeeded && t.succeeded + t.failed == NonBlank(lines)
      && (forall st :: st in t.stations ==> ValidStation(st))
      && (forall e :: e in t.log ==> !e.Summary? && 1 <= e.line <= |lines|)
    decreases |lines|
  {
    if lines != [] {
      IngestedInvariant(lines[..|lines| - 1]);
    }
  }

  /** The body of the loop of `process_csv_file` for line `i` (numbered `i + 1`). */
  method ScanLine(lines: seq<string>, i: nat, stations: seq<Station>, log: seq<LogEntry>, succeeded: nat, failed: nat)
    returns (stations': seq<Station>, log': seq<LogEntry>, succeeded': nat, failed': nat)
    requires i < |lines| && Ingested(lines[..i]) == Tally(stations, log, succeeded, failed)
    ensures Ingested(lines[..i + 1]) == Tally(stations', log', succeeded', failed')
  {
    IngestedPrefix(lines, i);
    stations', log', succeeded', failed' := stations, log, succeeded, failed;
    match ParseLine(lines[i], i + 1)
    case Blank =>
    case Accepted(st, notes) =>
      log' := log + notes;
      stations' := stations + [st];
      succeeded' := succeeded + 1;
    case Rejected(notes) =>
      log' := log + notes;
      failed' := failed + 1;
  }

  /** `DataProcessor`: the list of log messages lives across calls. */
  class DataProcessor {
    var logMessages: seq<LogEntry>

    constructor ()
      ensures logMessages == []
    {
      logMessages := [];
    }

    method Log(e: LogEntry)
      modifies this
      ensures logMessages == old(logMessages) + [e]
    {
      logMessages := logMessages + [e];
    }

    /** `process_csv_file` on the lines of the file (`content.splitlines()`). */
    method ProcessLines(lines: seq<string>) returns (stations: seq<Station>, log: seq<LogEntry>)
      modifies this
      ensures var t := Ingested(lines);
        stations == t.stations && logMessages == t.log + [Summary(t.succeeded, t.failed)]
      ensures log == logMessages
      ensures forall st :: st in stations ==> ValidStation(st)
      ensures |stations| <= NonBlank(lines)
      ensures logMessages[|logMessages| - 1] == Summary(|stations|, NonBlank(lines) - |stations|)
    {
      logMessages := [];
      stations := [];
      var errorCount, successCount := 0, 0;
      for i := 0 to |lines|
        invariant Ingested(lines[..i]) == Tally(stations, logMessages, successCount, errorCount)
      {
        var notes;
        stations, notes, successCount, errorCount := ScanLine(lines, i, stations, logMessages, successCount, errorCount);
        logMessages := notes;
      }
      assert lines[..|lines|] == lines;
      IngestedInvariant(lines);
      Log(Summary(successCount, errorCount));
      log := logMessages;
    }
  }

  // ---------------------------------------------------------------------------
  // save_csv_file (line 115)

  /** The fields of a saved line, without its CRLF. */
  function FieldsLine(st: Station): string {
    st.name + "\t" + st.url + "\t" + IntToString(st.volume)
  }

  function SaveLine(st: Station): string {
    FieldsLine(st) + "\r\n"
  }

  /** The whole file `save_csv_file` writes. */
  function SaveText(stations: seq<Station>): string
  {
    if stations == [] then "" else SaveLine(stations[0]) + SaveText(stations[1..])
  }

  /** A name that survives the parser: non-empty, no U+FEFF first, whitespace only
      as isolated single spaces away from both ends. */
  ghost predicate NameOk(name: string) {
    && name != []
    && name[0] != '\U{FEFF}'
    && !IsSpace(name[0]) && !IsSpace(name[|name| - 1])
    && (forall i :: 0 <= i < |name| && IsSpace(name[i]) ==> name[i] == ' ')
    && (forall i, j :: 0 <= i < j < |name| && j == i + 1 ==> !(IsSpace(name[i]) && IsSpace(name[j])))
  }

  ghost predicate Saveable(st: Station) {
    NameOk(st.name) && HttpPrefixed(st.url) && NoSpace(st.url) && InRange(st.volume)
  }

  lemma {:induction false} NoSpaceNotContains(s: string)
    requires NoSpace(s)
    ensures !Contains(s, " ")
    decreases |s|
  {
    if s != [] {
      assert !StartsWith(s, " ") by {
        if |s| >= 1 { assert s[..1][0] == s[0]; }
      }
      NoSpaceNotContains(s[1..]);
    }
  }

  /** A tab in front of a field that does not start with a tab is a one-character separator. */
  lemma TabThen(x: string, piece: string)
    requires x != [] && x[0] != '\t'
    ensures SplitFrom("\t" + x, piece) == [piece] + SplitFrom(x, [])
  {
    var s := "\t" + x;
    assert s[1..] == x;
    assert TabRun(s[1..]) == 0;
    assert SeparatorAt(s) == 1;
  }

  predicate NoLineBreak(s: string) {
    forall j :: 0 <= j < |s| ==> !IsLineBreak(s[j])
  }

  lemma SaveableNoLineBreak(st: Station)
    requires Saveable(st)
    ensures NoLineBreak(FieldsLine(st))
  {
    var v := IntToString(st.volume);
    forall j | 0 <= j < |st.name| ensures !IsLineBreak(st.name[j]) {
      LineBreakIsSpace(st.name[j]);
    }
    forall j | 0 <= j < |st.url| ensures !IsLineBreak(st.url[j]) {
      LineBreakIsSpace(st.url[j]);
    }
    forall j | 0 <= j < |v| ensures !IsLineBreak(v[j]) {
      LineBreakIsSpace(v[j]);
    }
    assert FieldsLine(st) == st.name + "\t" + st.url + "\t" + v;
  }

  lemma NoSpaceUnbroken(s: string)
    requires NoSpace(s)
    ensures Unbroken(s)
  {
  }

  lemma NameUnbroken(name: string)
    requires NameOk(name)
    ensures Unbroken(name)
  {
    forall i | 0 <= i < |name| ensures name[i] != '\t' {
      if name[i] == '\t' { assert IsSpace(name[i]); }
    }
  }

  /** One field followed by a tab and the rest: the field is cut off whole. */
  lemma FieldThenTab(x: string, rest: string, piece: string)
    requires Unbroken(x) && x != [] && !IsSpace(x[|x| - 1])
    requires rest != [] && rest[0] != '\t'
    ensures SplitFrom(x + ("\t" + rest), piece) == [piece + x] + SplitFrom(rest, [])
  {
    SplitFromUnbroken(x, "\t" + rest, piece);
    TabThen(rest, piece + x);
  }

  /** Three separator-free fields joined by single tabs split back into those fields. */
  lemma SplitThreeFields(a: string, b: string, c: string)
    requires Unbroken(a) && Unbroken(b) && Unbroken(c)
    requires a != [] && b != [] && c != []
    requires !IsSpace(a[|a| - 1]) && !IsSpace(b[|b| - 1])
    requires b[0] != '\t' && c[0] != '\t'
    ensures SplitFrom(a + ("\t" + (b + ("\t" + c))), []) == [a, b, c]
  {
    FieldThenTab(a, b + ("\t" + c), []);
    assert [] + a == a;
    assert (b + ("\t" + c))[0] == b[0];
    FieldThenTab(b, c, []);
    assert [] + b == b;
    SplitFromUnbroken(c, [], []);
    assert c + [] == c && [] + c == c;
  }

  /** `SplitFields` cuts a saved line back into its three fields. */
  lemma SplitSavedLine(st: Station)
    requires Saveable(st)
    ensures SplitFields(FieldsLine(st)) == [st.name, st.url, IntToString(st.volume)]
  {
    var v := IntToString(st.volume);
    NameUnbroken(st.name);
    NoSpaceUnbroken(st.url);
    NoSpaceUnbroken(v);
    assert st.url[0] == 'h';
    assert FieldsLine(st) == st.name + ("\t" + (st.url + ("\t" + v)));
    SplitThreeFields(st.name, st.url, v);
  }

  /** Parsing the line `save_csv_file` writes (without its CRLF) gives back the record, with no notes. */
  lemma LineRoundTrip(st: Station, n: nat)
    requires Saveable(st)
    ensures ParseLine(FieldsLine(st), n) == Accepted(st, [])
  {
    var line := FieldsLine(st);
    var v := IntToString(st.volume);
    assert line[0] == st.name[0];
    assert line[|line| - 1] == v[|v| - 1];
    StripTrimmed(line);
    assert CleanLine(line) == line;
    SplitSavedLine(st);
    var parts := SplitFields(line);
    assert parts[..1] == [st.name];
    StripTrimmed(st.name);
    StripTrimmed(st.url);
    NoSpaceNotContains(st.url);
    IntRoundTrip(st.volume);
    assert CutLine(line, n) == Cut(st.name, st.url, Some(v), []);
  }

  /** The lines of a saved file, as `splitlines` returns them. */
  function SavedLines(stations: seq<Station>): seq<string> {
    seq(|stations|, i requires 0 <= i < |stations| => FieldsLine(stations[i]))
  }

  lemma SavedLinesCons(stations: seq<Station>)
    requires stations != []
    ensures SavedLines(stations) == [FieldsLine(stations[0])] + SavedLines(stations[1..])
  {
    var a, b := SavedLines(stations), [FieldsLine(stations[0])] + SavedLines(stations[1..]);
    forall i | 0 <= i < |stations|
      ensures a[i] == b[i]
    {
      if i > 0 {
        assert stations[1..][i - 1] == stations[i];
      }
    }
  }

  lemma SavedLinesPrefix(stations: seq<Station>, k: nat)
    requires k <= |stations|
    ensures SavedLines(stations)[..k] == SavedLines(stations[..k])
  {
  }

  lemma {:induction false} SplitSaveText(stations: seq<Station>)
    requires forall st :: st in stations ==> Saveable(st)
    ensures SplitLines(SaveText(stations)) == SavedLines(stations)
    decreases |stations|
  {
    if stations != [] {
      var st := stations[0];
      var rest := stations[1..];
      assert forall x :: x in rest ==> x in stations;
      SaveableNoLineBreak(st);
      SplitLinesCrlf(FieldsLine(st), SaveText(rest));
      SplitSaveText(rest);
      SavedLinesCons(stations);
    }
  }

  /** One more accepted line with no notes appends its record. */
  lemma IngestAccepted(lines: seq<string>, i: nat, front: seq<Station>, st: Station)
    requires i < |lines|
    requires Ingested(lines[..i]) == Tally(front, [], i, 0)
    requires ParseLine(lines[i], i + 1) == Accepted(st, [])
    ensures Ingested(lines[..i + 1]) == Tally(front + [st], [], i + 1, 0)
  {
    IngestedPrefix(lines, i);
  }

  /** A saved line read after the records before it appends its record. */
  lemma IngestSaved(lines: seq<string>, i: nat, front: seq<Station>, st: Station)
    requires i < |lines| && Saveable(st) && lines[i] == FieldsLine(st)
    requires Ingested(lines[..i]) == Tally(front, [], i, 0)
    ensures Ingested(lines[..i + 1]) == Tally(front + [st], [], i + 1, 0)
  {
    LineRoundTrip(st, i + 1);
    IngestAccepted(lines, i, front, st);
  }

  /** A saved last line, read after the lines of the records before it, appends its record. */
  lemma IngestSavedLast(lines: seq<string>, front: seq<Station>, st: Station)
    requires lines != [] && Saveable(st) && lines[|lines| - 1] == FieldsLine(st)
    requires Ingested(lines[..|lines| - 1]) == Tally(front, [], |lines| - 1, 0)
    ensures Ingested(lines) == Tally(front + [st], [], |lines|, 0)
  {
    var i := |lines| - 1;
    assert lines[..i + 1] == lines;
    IngestSaved(lines, i, front, st);
  }

  lemma {:induction false} IngestSavedLines(stations: seq<Station>)
    requires forall st :: st in stations ==> Saveable(st)
    ensures Ingested(SavedLines(stations)) == Tally(stations, [], |stations|, 0)
    decreases |stations|
  {
    if stations != [] {
      var k := |stations| - 1;
      var front, st := stations[..k], stations[k];
      assert forall x :: x in front ==> x in stations;
      IngestSavedLines(front);
      SavedLinesPrefix(stations, k);
      IngestSavedLast(SavedLines(stations), front, st);
      LastSplit(stations);
    }
  }

  /** Saving Saveable records and opening the file again gives the same records,
      no failures and no notes besides the summary. */
  lemma FileRoundTrip(stations: seq<Station>)
    requires forall st :: st in stations ==> Saveable(st)
    ensures Ingested(SplitLines(SaveText(stations))) == Tally(stations, [], |stations|, 0)
  {
    SplitSaveText(stations);
    IngestSavedLines(stations);
  }
}
