/** `StationChecker`: how one probe of a station URL is turned into the text of
    its info cell, and the sequential fold of `check_stations` over a list. */
module Probe {
  import opened PyStr
  import Encoding

  // ---------------------------------------------------------------------------
  // _normalize_format (lines 1384-1422; the same code and table at 1041-1057, 1134-1154)

  const FormatTable: map<string, string> := map[
    "audio/mpeg" := "MP3",
    "audio/aac" := "AAC",
    "audio/aacp" := "AAC+",
    "audio/mp4" := "MP4",
    "audio/flac" := "FLAC",
    "audio/ogg" := "OGG",
    "audio/wav" := "WAV",
    "audio/x-wav" := "WAV",
    "audio/vnd.wav" := "WAV",
    "audio/x-mpegurl" := "M3U",
    "audio/scpls" := "PLS",
    "application/vnd.apple.mpegurl" := "M3U8",
    "application/x-mpegurl" := "M3U",
    "application/pls+xml" := "PLS",
    "application/xspf+xml" := "XSPF"
  ]

  /** Every format name of the table is trimmed and has no '/'. */
  lemma TableNamesClean(k: string)
    requires k in FormatTable
    ensures Trimmed(FormatTable[k]) && '/' !in FormatTable[k]
  {
    TableValues(k);
    NamesClean(FormatTable[k]);
  }

  /** The format names the table maps to. */
  const FormatNames: set<string> :=
    {"MP3", "AAC", "AAC+", "MP4", "FLAC", "OGG", "WAV", "M3U", "PLS", "M3U8", "XSPF"}

  lemma TableValues(k: string)
    requires k in FormatTable
    ensures FormatTable[k] in FormatNames
  {
  }

  lemma NamesClean(v: string)
    requires v in FormatNames
    ensures Trimmed(v) && '/' !in v
  {
  }

  lemma UpperKeepsSlash(s: string)
    ensures '/' in Upper(s) <==> '/' in s
  {
    if '/' in s {
      var k :| 0 <= k < |s| && s[k] == '/';
      assert Upper(s)[k] == '/';
    }
  }

  lemma StripKeepsOut(s: string, c: char)
    requires c !in s
    ensures c !in Strip(s)
  {
    StripIsBothStrips(s);
    assert LStrip(s) == s[|s| - |LStrip(s)|..];
  }

  lemma UpperKeepsTrimmed(s: string)
    requires Trimmed(s)
    ensures Trimmed(Upper(s))
  {
    if s != [] {
      CaseKeepsSpace(s[0]);
      CaseKeepsSpace(s[|s| - 1]);
    }
  }

  /** A readable format name for a Content-Type header value. */
  function NormalizeFormat(contentType: Option<string>): (r: string)
    ensures contentType.None? || contentType.value == [] || contentType.value == Encoding.Unknown
      ==> r == Encoding.Unknown
    ensures Trimmed(r) && '/' !in r
    ensures contentType.Some? && Strip(Lower(contentType.value)) in FormatTable && contentType.value != Encoding.Unknown
      ==> r == FormatTable[Strip(Lower(contentType.value))]
    ensures contentType.Some? && contentType.value != Encoding.Unknown && Strip(Lower(contentType.value)) !in FormatTable
        && '/' in Strip(Lower(contentType.value))
      ==> ';' !in r
    ensures contentType.Some? && contentType.value != [] && contentType.value != Encoding.Unknown
        && Strip(Lower(contentType.value)) !in FormatTable
      ==> var ct := Strip(Lower(contentType.value));
        r == (if '/' in ct then Strip(BeforeFirst(Upper(AfterLast(ct, '/')), ';')) else Upper(ct))
  {
    if contentType.None? || contentType.value == [] || contentType.value == Encoding.Unknown then Encoding.Unknown
    else
      var ct := Strip(Lower(contentType.value));
      if ct in FormatTable then
        TableNamesClean(ct);
        FormatTable[ct]
      else if '/' in ct then
        var sub := AfterLast(ct, '/');
        var t := BeforeFirst(Upper(sub), ';');
        UpperKeepsSlash(sub);
        StripKeepsOut(t, '/');
        StripKeepsOut(t, ';');
        Strip(t)
      else
        UpperKeepsSlash(ct);
        UpperKeepsTrimmed(ct);
        Upper(ct)
  }

  lemma LowerIdempotent(s: string)
    ensures Lower(Lower(s)) == Lower(s)
  {
    assert forall i :: 0 <= i < |s| ==> Lower(Lower(s))[i] == Lower(s)[i];
  }

  /** Content types are compared without regard to case; only the placeholder itself is
      matched exactly before lowering. */
  lemma NormalizeIgnoresCase(s: string)
    requires s != Encoding.Unknown
    ensures NormalizeFormat(Some(Lower(s))) == NormalizeFormat(Some(s))
  {
    LowerIdempotent(s);
    if |s| == |Encoding.Unknown| {
      assert Lower(s)[0] != Encoding.Unknown[0];
    }
  }

  lemma NormalizeTableKey()
    ensures NormalizeFormat(Some("Audio/AAC ")) == "AAC"
  {
    TableKeyLowered();
    TableKeyStripped();
  }

  lemma TableKeyLowered()
    ensures Lower("Audio/AAC ") == "audio/aac "
  {
  }

  lemma TableKeyStripped()
    ensures Strip("audio/aac ") == "audio/aac"
  {
    StripTrimmed("audio/aac");
  }

  /** Only the text after the last '/' is kept, with any "x-" prefix, and parameters
      after ';' are cut off. */
  lemma NormalizeSubtype()
    ensures NormalizeFormat(Some("a/x-b; c")) == "X-B"
  {
    SubtypeKey();
    SubtypePart();
    SubtypeExample();
  }

  lemma SubtypeKey()
    ensures Strip(Lower("a/x-b; c")) == "a/x-b; c" && "a/x-b; c" !in FormatTable && '/' in "a/x-b; c"
  {
    var ct := "a/x-b; c";
    assert Lower(ct) == ct;
    StripTrimmed(ct);
    assert ct[1] == '/';
  }

  lemma SubtypePart()
    ensures AfterLast("a/x-b; c", '/') == "x-b; c"
  {
    var ct := "a/x-b; c";
    AfterLastAt(ct, '/', 1);
    assert ct[2..] == "x-b; c";
  }

  lemma SubtypeExample()
    ensures Strip(BeforeFirst(Upper("x-b; c"), ';')) == "X-B"
  {
    UpperExample();
    SubtypeCut();
    StripTrimmed("X-B");
  }

  lemma SubtypeCut()
    ensures BeforeFirst("X-B; C", ';') == "X-B"
  {
    var t := "X-B; C";
    assert t[..3] == "X-B";
    BeforeFirstAt(t, ';', 3);
  }

  lemma UpperExample()
    ensures Upper("x-b; c") == "X-B; C"
  {
  }

  // ---------------------------------------------------------------------------
  // _is_playlist (lines 1508-1517) and _is_html_response (lines 1519-1527)

  const PlaylistExtensions: seq<string> := [".m3u", ".m3u8", ".pls", ".xspf"]

  const PlaylistTypeMarks: seq<string> := ["m3u", "mpegurl", "playlist", "audio/x-mpegurl",
    "application/vnd.apple.mpegurl", "audio/scpls", "application/xspf+xml"]

  const HtmlTags: seq<string> := ["<html", "<!doctype", "<body", "<head", "<title"]

  /** Whether any of `words` occurs in `s`. */
  predicate ContainsAny(s: string, words: seq<string>) {
    exists k :: 0 <= k < |words| && Contains(s, words[k])
  }

  predicate IsPlaylist(url: string, contentType: string) {
    ContainsAny(url, PlaylistExtensions) || ContainsAny(Lower(contentType), PlaylistTypeMarks)
  }

  /** `content[:100]`. */
  function Head(content: string): (r: string)
    ensures |r| == if |content| < 100 then |content| else 100
    ensures StartsWith(content, r)
  {
    if |content| <= 100 then content else content[..100]
  }

  predicate IsHtmlResponse(content: string, contentType: string) {
    Contains(Lower(contentType), "text/html") || ContainsAny(Lower(Head(content)), HtmlTags)
  }

  /** A URL naming a playlist file is a playlist whatever its Content-Type says. */
  lemma PlaylistByExtension(url: string, ext: string, contentType: string)
    requires ext in PlaylistExtensions && Contains(url, ext)
    ensures IsPlaylist(url, contentType)
  {
  }

  lemma ContainsItself(s: string)
    ensures Contains(s, s)
  {
    ContainsAt(s, s, 0);
  }

  lemma LowerOfLower(s: string)
    requires forall i :: 0 <= i < |s| ==> s[i] as int < 128 && !('A' <= s[i] <= 'Z')
    ensures Lower(s) == s
  {
  }

  /** A Content-Type that is one of the marks is a playlist type. */
  lemma MarkIsPlaylist(url: string, k: nat)
    requires k < |PlaylistTypeMarks|
    ensures IsPlaylist(url, PlaylistTypeMarks[k])
  {
    var m := PlaylistTypeMarks[k];
    LowerOfLower(m);
    ContainsItself(m);
  }

  /** The playlist types of the format table (M3U, M3U8, XSPF and `audio/scpls`) are
      recognised as playlists. */
  lemma PlaylistTypes(url: string)
    ensures IsPlaylist(url, "audio/x-mpegurl") && IsPlaylist(url, "application/vnd.apple.mpegurl")
    ensures IsPlaylist(url, "audio/scpls") && IsPlaylist(url, "application/xspf+xml")
  {
    MarkIsPlaylist(url, 3);
    MarkIsPlaylist(url, 4);
    MarkIsPlaylist(url, 5);
    MarkIsPlaylist(url, 6);
  }

  /** Only the first 100 characters of the sample are looked at. */
  lemma HtmlLooksAtHead(content: string, more: string, contentType: string)
    requires |content| >= 100
    ensures IsHtmlResponse(content + more, contentType) == IsHtmlResponse(content, contentType)
  {
    assert Head(content + more) == Head(content);
  }

  /** An HTML Content-Type decides, whatever the body. */
  lemma HtmlByType(content: string, contentType: string)
    requires Contains(Lower(contentType), "text/html")
    ensures IsHtmlResponse(content, contentType)
  {
  }

  // ---------------------------------------------------------------------------
  // check_station (lines 1549-1647)

  /** The exceptions `check_station` tells apart. */
  datatype Failure = Timeout | ConnectionError | OtherError

  /** The reply to the probe, as far as the classification looks at it: the status, the
      headers it reads, the first bytes of the body (read until more than 100 are in or
      the body ends), the final URL, and what `PlaylistParser.fetch_and_parse` of that URL
      gave (the number of entries, or `None` when it raised). */
  datatype Response = Response(
    status: int,
    contentType: Option<string>,
    sample: seq<byte>,
    url: string,
    icyName: Option<string>,
    icyGenre: Option<string>,
    icyBitrate: Option<string>,
    listed: Option<nat>)

  datatype Outcome = Raised(failure: Failure) | Answered(response: Response)

  /** The text of the info cell and whether the station counts as active. */
  datatype Verdict = Verdict(info: string, active: bool)

  function FailureInfo(f: Failure): string {
    match f
    case Timeout => "[Timeout]"
    case ConnectionError => "[ConnError]"
    case OtherError => "[Error]"
  }

  /** A header value as shown: a missing or empty one becomes the placeholder. */
  function Shown(v: Option<string>): (r: string)
    ensures r != []
  {
    if v.None? || v.value == [] then Encoding.Unknown else v.value
  }

  /** `[f1][f2]...`: the fields of an info cell, each in brackets. */
  function Bracketed(fs: seq<string>): string {
    if fs == [] then [] else "[" + fs[0] + "]" + Bracketed(fs[1..])
  }

  /** The name, format, bitrate and genre fields that follow the `[OK][...]` kind. */
  function Metadata(r: Response, detect: seq<byte> -> Encoding.Detection, decode: Encoding.Decoder): (fs: seq<string>)
    ensures |fs| == 4 && fs[0] != [] && fs[3] != []
  {
    var name := Shown(Encoding.FixedText(r.icyName, detect, decode));
    var genre := Shown(Encoding.FixedText(r.icyGenre, detect, decode));
    var bitrate := r.icyBitrate.GetOr(Encoding.Unknown);
    var format := NormalizeFormat(Some(r.contentType.GetOr(Encoding.Unknown)));
    [name, format, bitrate, genre]
  }

  /** The kind field of a live station: its playlist size, or `STREAM`. */
  function Kind(r: Response): string
    requires r.listed.Some?
  {
    "PL: " + NatToString(r.listed.value)
  }

  /** The lowered Content-Type the two detectors see. */
  function SeenType(r: Response): string {
    Lower(r.contentType.GetOr(Encoding.Unknown))
  }

  /** A 200 reply that is an HTML page. */
  predicate IsPage(r: Response) {
    IsHtmlResponse(Encoding.Latin1Decode(r.sample), SeenType(r))
  }

  /** A reply that counts as a live station: 200, not a page, and not an empty or failed playlist. */
  predicate IsLive(r: Response) {
    r.status == 200 && !IsPage(r) && (IsPlaylist(r.url, SeenType(r)) ==> r.listed.Some? && r.listed.value > 0)
  }

  function Classify(o: Outcome, detect: seq<byte> -> Encoding.Detection, decode: Encoding.Decoder): (v: Verdict)
    ensures v.active <==> StartsWith(v.info, "[OK]")
    ensures v.active <==> o.Answered? && IsLive(o.response)
  {
    match o
    case Raised(f) =>
      assert FailureInfo(f)[1] in "TCE";
      Verdict(FailureInfo(f), false)
    case Answered(r) =>
      if r.status != 200 then
        var code := IntToString(r.status);
        assert ("[" + code + "]")[1] == code[0];
        Verdict("[" + code + "]", false)
      else if IsPage(r) then
        assert "[404]"[1] == '4';
        Verdict("[404]", false)
      else if IsPlaylist(r.url, SeenType(r)) then
        if r.listed.Some? && r.listed.value > 0 then
          Verdict("[OK]" + Bracketed([Kind(r)] + Metadata(r, detect, decode)), true)
        else
          assert "[Error]"[1] == 'E';
          Verdict("[Error]", false)
      else Verdict("[OK]" + Bracketed(["STREAM"] + Metadata(r, detect, decode)), true)
  }

  /** The dead verdicts, case by case. */
  lemma DeadInfo(o: Outcome, detect: seq<byte> -> Encoding.Detection, decode: Encoding.Decoder)
    ensures o.Raised? ==> Classify(o, detect, decode).info == FailureInfo(o.failure)
    ensures o.Answered? && o.response.status != 200 ==>
      Classify(o, detect, decode).info == "[" + IntToString(o.response.status) + "]"
    ensures o.Answered? && o.response.status == 200 && IsPage(o.response) ==>
      Classify(o, detect, decode).info == "[404]"
    ensures o.Answered? && o.response.status == 200 && !IsPage(o.response) && !IsLive(o.response) ==>
      Classify(o, detect, decode).info == "[Error]"
  {
  }

  /** A live reply's info cell: the playlist kind with its entry count, or the stream kind. */
  lemma LiveInfo(r: Response, detect: seq<byte> -> Encoding.Detection, decode: Encoding.Decoder)
    requires IsLive(r)
    ensures IsPlaylist(r.url, SeenType(r)) ==>
      Classify(Answered(r), detect, decode).info == "[OK]" + Bracketed([Kind(r)] + Metadata(r, detect, decode))
    ensures !IsPlaylist(r.url, SeenType(r)) ==>
      Classify(Answered(r), detect, decode).info == "[OK]" + Bracketed(["STREAM"] + Metadata(r, detect, decode))
  {
  }

  // ---------------------------------------------------------------------------
  // check_stations (lines 1529-1680), run one station after another

  /** What `check_stations` signals at the end: `check_finished(checked, active, dead)`
      or `check_cancelled()`. */
  datatype Signal = Finished(checked: nat, active: nat, dead: nat) | Cancelled

  /** The (row, info) pairs announced through `station_checked`, one per probed station. */
  function Reports(stations: seq<(int, string)>, probe: string -> Outcome,
                   detect: seq<byte> -> Encoding.Detection, decode: Encoding.Decoder): (r: seq<(int, string)>)
    ensures |r| == |stations|
    ensures forall k :: 0 <= k < |r| ==> r[k].0 == stations[k].0
  {
    seq(|stations|, k requires 0 <= k < |stations| => (stations[k].0, Classify(probe(stations[k].1), detect, decode).info))
  }

  /** The number of stations whose probe counts as active. */
  function ActiveCount(stations: seq<(int, string)>, probe: string -> Outcome,
                       detect: seq<byte> -> Encoding.Detection, decode: Encoding.Decoder): (n: nat)
    ensures n <= |stations|
  {
    if stations == [] then 0
    else
      var last := stations[|stations| - 1];
      ActiveCount(stations[..|stations| - 1], probe, detect, decode)
        + (if Classify(probe(last.1), detect, decode).active then 1 else 0)
  }

  /** The number of reports whose info cell starts with "[OK]". */
  function OkCount(reports: seq<(int, string)>): (n: nat)
    ensures n <= |reports|
  {
    if reports == [] then 0
    else OkCount(reports[..|reports| - 1]) + (if StartsWith(reports[|reports| - 1].1, "[OK]") then 1 else 0)
  }

  /** The active counter equals the number of "[OK]" rows the table ends up showing. */
  lemma {:induction false} ActiveCountIsOkRows(stations: seq<(int, string)>, probe: string -> Outcome,
                                               detect: seq<byte> -> Encoding.Detection, decode: Encoding.Decoder)
    ensures ActiveCount(stations, probe, detect, decode) == OkCount(Reports(stations, probe, detect, decode))
    decreases |stations|
  {
    if stations != [] {
      var front := stations[..|stations| - 1];
      ActiveCountIsOkRows(front, probe, detect, decode);
      assert Reports(stations, probe, detect, decode)[..|stations| - 1] == Reports(front, probe, detect, decode);
    }
  }

  lemma FoldStep(stations: seq<(int, string)>, i: nat, probe: string -> Outcome,
                  detect: seq<byte> -> Encoding.Detection, decode: Encoding.Decoder)
    requires i < |stations|
    ensures var v := Classify(probe(stations[i].1), detect, decode);
      Reports(stations[..i + 1], probe, detect, decode) == Reports(stations[..i], probe, detect, decode) + [(stations[i].0, v.info)]
      && ActiveCount(stations[..i + 1], probe, detect, decode)
         == ActiveCount(stations[..i], probe, detect, decode) + (if v.active then 1 else 0)
  {
    assert stations[..i + 1][..i] == stations[..i];
  }

  /** How many stations are probed when `cancel_check()` arrives after `cancelAt` probes
      (or never, for `None`). */
  function Probed(count: nat, cancelAt: Option<nat>): (n: nat)
    ensures n <= count
    ensures cancelAt.Some? && cancelAt.value <= count ==> n == cancelAt.value
    ensures cancelAt.None? || cancelAt.value > count ==> n == count
  {
    if cancelAt.Some? && cancelAt.value <= count then cancelAt.value else count
  }

  class StationChecker {
    var cancelFlag: bool

    constructor()
      ensures !cancelFlag
    {
      cancelFlag := false;
    }

    /** One probe: skipped when a cancel has arrived, otherwise classified, with the
        checked counter and exactly one of the active and dead counters moved on. */
    method CheckStation(o: Outcome, checked: nat, active: nat, dead: nat,
                        detect: seq<byte> -> Encoding.Detection, decode: Encoding.Decoder)
      returns (info: Option<string>, checked': nat, active': nat, dead': nat)
      ensures cancelFlag ==> info.None? && checked' == checked && active' == active && dead' == dead
      ensures !cancelFlag ==> info == Some(Classify(o, detect, decode).info) && checked' == checked + 1
      ensures !cancelFlag && StartsWith(info.value, "[OK]") ==> active' == active + 1 && dead' == dead
      ensures !cancelFlag && !StartsWith(info.value, "[OK]") ==> active' == active && dead' == dead + 1
    {
      if cancelFlag {
        return None, checked, active, dead;
      }
      var v := Classify(o, detect, decode);
      active', dead' := active, dead;
      if v.active {
        active' := active + 1;
      } else {
        dead' := dead + 1;
      }
      info, checked' := Some(v.info), checked + 1;
    }

    /** The probe of station `i`, with its report appended and the counters moved on. */
    method ProbeNext(stations: seq<(int, string)>, i: nat, probe: string -> Outcome,
                     detect: seq<byte> -> Encoding.Detection, decode: Encoding.Decoder,
                     reports: seq<(int, string)>, checked: nat, active: nat, dead: nat)
      returns (reports': seq<(int, string)>, checked': nat, active': nat, dead': nat)
      requires !cancelFlag && i < |stations|
      requires reports == Reports(stations[..i], probe, detect, decode)
      requires checked == i && active == ActiveCount(stations[..i], probe, detect, decode) && dead == i - active
      ensures reports' == Reports(stations[..i + 1], probe, detect, decode)
      ensures checked' == i + 1 && active' == ActiveCount(stations[..i + 1], probe, detect, decode)
      ensures dead' == i + 1 - active'
    {
      var info;
      info, checked', active', dead' := CheckStation(probe(stations[i].1), checked, active, dead, detect, decode);
      FoldStep(stations, i, probe, detect, decode);
      reports' := reports + [(stations[i].0, info.value)];
    }

    /** All stations in order, until a cancel arrives; `cancelAt` says after how many
        completed probes `cancel_check()` is called, if at all. */
    method CheckStations(stations: seq<(int, string)>, probe: string -> Outcome, cancelAt: Option<nat>,
                         detect: seq<byte> -> Encoding.Detection, decode: Encoding.Decoder)
      returns (signal: Signal, reports: seq<(int, string)>)
      modifies this
      ensures reports == Reports(stations[..Probed(|stations|, cancelAt)], probe, detect, decode)
      ensures signal.Cancelled? <==> cancelAt.Some? && cancelAt.value <= |stations|
      ensures signal.Finished? ==> var a := ActiveCount(stations, probe, detect, decode);
        signal == Finished(|stations|, a, |stations| - a)
      ensures cancelFlag <==> signal.Cancelled?
    {
      cancelFlag := false;
      var checked, active, dead := 0, 0, 0;
      reports := [];
      var i := 0;
      if cancelAt == Some(0) {
        cancelFlag := true;
      }
      while i < |stations| && !cancelFlag
        invariant i <= |stations|
        invariant cancelFlag <==> cancelAt == Some(i)
        invariant cancelAt.Some? ==> i <= cancelAt.value
        invariant reports == Reports(stations[..i], probe, detect, decode)
        invariant checked == i && active == ActiveCount(stations[..i], probe, detect, decode) && dead == i - active
      {
        reports, checked, active, dead := ProbeNext(stations, i, probe, detect, decode, reports, checked, active, dead);
        i := i + 1;
        if cancelAt == Some(i) {
          cancelFlag := true;
        }
      }
      assert i == Probed(|stations|, cancelAt);
      if i == |stations| {
        assert stations[..i] == stations;
      }
      signal := if cancelFlag then Cancelled else Finished(checked, active, dead);
    }
  }
}
