/** `NameFixer`: reading the info cell written by the checker back into its fields, and
    renaming stations by a template of tags. */
module Rename {
  import opened PyStr
  import Encoding
  import Probe

  const NotAvailable: string := "N/A"

  /** The fields `parse_info_cell` recovers. */
  datatype Info = Info(realname: Option<string>, codec: string, bitrate: string, genre: string)

  // ---------------------------------------------------------------------------
  // parse_info_cell (lines 1694-1731)

  /** The bracketed fields `[f1][f2]...` that make up all of `s`, each non-empty and
      free of ']'; like the regular expression's `$`, a single final "\n" is allowed. */
  function Fields(s: string): (r: Option<seq<string>>)
    ensures r.Some? ==> forall k :: 0 <= k < |r.value| ==> r.value[k] != [] && ']' !in r.value[k]
    ensures r.Some? ==> s == Probe.Bracketed(r.value) || s == Probe.Bracketed(r.value) + "\n"
    decreases |s|
  {
    if s == [] || s == "\n" then Some([])
    else if s[0] != '[' then None
    else match IndexOf(s[1..], ']')
      case None => None
      case Some(k) =>
        if k == 0 then None
        else match Fields(s[k + 2..])
          case None => None
          case Some(fs) =>
            FieldsStep(s, k, fs);
            Some([s[1..k + 1]] + fs)
  }

  /** A text that opens with `[` and has its first `]` at `k + 1` is that field and the rest. */
  lemma FieldsStep(s: string, k: nat, fs: seq<string>)
    requires s != [] && s[0] == '[' && 0 < k < |s[1..]| && s[1..][k] == ']' && ']' !in s[1..][..k]
    requires forall j :: 0 <= j < |fs| ==> fs[j] != [] && ']' !in fs[j]
    requires s[k + 2..] == Probe.Bracketed(fs) || s[k + 2..] == Probe.Bracketed(fs) + "\n"
    ensures var r := [s[1..k + 1]] + fs;
      (forall j :: 0 <= j < |r| ==> r[j] != [] && ']' !in r[j])
      && (s == Probe.Bracketed(r) || s == Probe.Bracketed(r) + "\n")
  {
    assert s[1..k + 1] == s[1..][..k];
    assert s == "[" + s[1..k + 1] + "]" + s[k + 2..];
    BracketedCons(s[1..k + 1], fs);
  }

  lemma BracketedCons(f: string, fs: seq<string>)
    ensures Probe.Bracketed([f] + fs) == "[" + f + "]" + Probe.Bracketed(fs)
  {
    assert ([f] + fs)[1..] == fs;
  }

  /** The kind field of the newer layout: `STREAM` or `PL: ` and a decimal count. */
  predicate IsKind(f: string) {
    f == "STREAM" || (|f| > 4 && f[..4] == "PL: " && AllDigits(f[4..]))
  }

  /** The clean-up of the four fields: the placeholder becomes "none" (realname) or N/A,
      and a codec holding a '/' is cut to its upper-cased last part. */
  function Clean(realname: string, codec: string, bitrate: string, genre: string): (i: Info)
    ensures i.realname.None? <==> realname == Encoding.Unknown
    ensures i.realname.Some? ==> i.realname.value == realname
    ensures '/' !in i.codec
    ensures '/' in codec ==> i.codec == Upper(AfterLast(codec, '/'))
    ensures codec != Encoding.Unknown && '/' !in codec ==> i.codec == codec
    ensures i.bitrate == (if bitrate == Encoding.Unknown then NotAvailable else bitrate)
    ensures i.genre == (if genre == Encoding.Unknown then NotAvailable else genre)
  {
    var codec' := if codec == Encoding.Unknown then NotAvailable else codec;
    var codec'' := if '/' in codec' then Upper(AfterLast(codec', '/')) else codec';
    Probe.UpperKeepsSlash(AfterLast(codec', '/'));
    Info(if realname == Encoding.Unknown then None else Some(realname), codec'',
         if bitrate == Encoding.Unknown then NotAvailable else bitrate,
         if genre == Encoding.Unknown then NotAvailable else genre)
  }

  /** The placeholder codec becomes N/A and then, by the '/' rule, "A". */
  lemma UnknownCodec(realname: string, bitrate: string, genre: string)
    ensures Clean(realname, Encoding.Unknown, bitrate, genre).codec == "A"
  {
    AfterLastAt(NotAvailable, '/', 1);
    assert NotAvailable[2..] == "A";
  }

  /** A MIME type as codec is cut to its upper-cased subtype. */
  lemma MimeCodec(realname: string, bitrate: string, genre: string)
    ensures Clean(realname, "audio/mpeg", bitrate, genre).codec == "MPEG"
  {
    var c := "audio/mpeg";
    assert c[5] == '/';
    AfterLastAt(c, '/', 5);
    assert c[6..] == "mpeg";
  }

  /** `parse_info_cell`: the cleaned fields of a live cell of either layout, and nothing
      for any other text. */
  function ParseInfoCell(text: string): (r: Option<Info>)
    ensures r.Some? ==> StartsWith(text, "[OK]")
    ensures r.Some? ==> exists fs :: LiveCell(text, fs) && r.value == CleanLast(fs)
    ensures r.Some? ==> r.value.realname != Some(Encoding.Unknown) && '/' !in r.value.codec
    ensures r.Some? ==> r.value.bitrate != Encoding.Unknown && r.value.genre != Encoding.Unknown
  {
    if !StartsWith(text, "[OK]") then None
    else match Fields(text[4..])
      case None => None
      case Some(fs) =>
        if |fs| == 5 && IsKind(fs[0]) then
          LiveText(text, fs);
          Some(Clean(fs[1], fs[2], fs[3], fs[4]))
        else if |fs| == 4 then
          LiveText(text, fs);
          Some(Clean(fs[0], fs[1], fs[2], fs[3]))
        else None
  }

  lemma LiveText(text: string, fs: seq<string>)
    requires StartsWith(text, "[OK]") && LiveShape(fs) && CleanFields(fs)
    requires text[4..] == Probe.Bracketed(fs) || text[4..] == Probe.Bracketed(fs) + "\n"
    ensures LiveCell(text, fs)
  {
    assert text == "[OK]" + text[4..];
  }

  /** The fields after `[OK]` of the two layouts: four, or a kind and four. */
  predicate LiveShape(fs: seq<string>) {
    |fs| == 4 || (|fs| == 5 && IsKind(fs[0]))
  }

  /** Fields the pattern's `[^\]]+` can match: non-empty and free of ']'. */
  predicate CleanFields(fs: seq<string>) {
    forall k :: 0 <= k < |fs| ==> fs[k] != [] && ']' !in fs[k]
  }

  /** `text` is `[OK]` followed by the fields of one of the two layouts, and at most one "\n". */
  predicate LiveCell(text: string, fs: seq<string>) {
    LiveShape(fs) && CleanFields(fs)
    && (text == "[OK]" + Probe.Bracketed(fs) || text == "[OK]" + Probe.Bracketed(fs) + "\n")
  }

  /** The cleaned metadata: the last four fields. */
  function CleanLast(fs: seq<string>): Info
    requires |fs| >= 4
  {
    var n := |fs|;
    Clean(fs[n - 4], fs[n - 3], fs[n - 2], fs[n - 1])
  }

  lemma FieldsCons(f: string, rest: string)
    requires f != [] && ']' !in f
    ensures Fields("[" + f + "]" + rest) == match Fields(rest) case None => None case Some(fs) => Some([f] + fs)
  {
    var s := "[" + f + "]" + rest;
    BracketedShape(f, rest);
    assert (f + "]" + rest)[..|f|] == f;
    IndexOfAt(f + "]" + rest, ']', |f|);
  }

  lemma BracketedShape(f: string, rest: string)
    ensures var s := "[" + f + "]" + rest;
      s[0] == '[' && s[1..] == f + "]" + rest && s[|f| + 2..] == rest && s[1..|f| + 1] == f
  {
  }

  /** Bracketed fields are read back as they were written. */
  lemma {:induction false} FieldsOfBracketed(fs: seq<string>)
    requires forall k :: 0 <= k < |fs| ==> fs[k] != [] && ']' !in fs[k]
    ensures Fields(Probe.Bracketed(fs)) == Some(fs)
  {
    if fs != [] {
      FieldsOfBracketed(fs[1..]);
      FieldsCons(fs[0], Probe.Bracketed(fs[1..]));
      assert [fs[0]] + fs[1..] == fs;
    }
  }

  /** The same with the one final "\n" that `$` lets through. */
  lemma {:induction false} FieldsOfBracketedLine(fs: seq<string>)
    requires CleanFields(fs)
    ensures Fields(Probe.Bracketed(fs) + "\n") == Some(fs)
  {
    if fs != [] {
      FieldsOfBracketedLine(fs[1..]);
      var rest := Probe.Bracketed(fs[1..]);
      assert Probe.Bracketed(fs) + "\n" == "[" + fs[0] + "]" + (rest + "\n");
      FieldsCons(fs[0], rest + "\n");
      assert [fs[0]] + fs[1..] == fs;
    }
  }

  /** The other half of the exact shape: every cell of either layout, with or without
      the final "\n", is read as its cleaned last four fields. */
  lemma ParseInfoCellExactly(text: string, fs: seq<string>)
    requires LiveCell(text, fs)
    ensures ParseInfoCell(text) == Some(CleanLast(fs))
  {
    var b := Probe.Bracketed(fs);
    var tail := if text == "[OK]" + b then b else b + "\n";
    assert text == "[OK]" + tail;
    ConcatPrefix("[OK]", tail);
    FieldsOfTail(fs, tail);
    ParseInfoCellFields(text, fs);
  }

  lemma FieldsOfTail(fs: seq<string>, tail: string)
    requires CleanFields(fs)
    requires tail == Probe.Bracketed(fs) || tail == Probe.Bracketed(fs) + "\n"
    ensures Fields(tail) == Some(fs)
  {
    if tail == Probe.Bracketed(fs) {
      FieldsOfBracketed(fs);
    } else {
      FieldsOfBracketedLine(fs);
    }
  }

  /** The info cell the checker writes for a live station is read back field for field,
      in the layout with a kind field and in the one without. */
  lemma InfoCellRoundTrip(fs: seq<string>)
    requires |fs| == 4 || (|fs| == 5 && IsKind(fs[0]))
    requires forall k :: 0 <= k < |fs| ==> fs[k] != [] && ']' !in fs[k]
    ensures var n := |fs|;
      ParseInfoCell("[OK]" + Probe.Bracketed(fs)) == Some(Clean(fs[n - 4], fs[n - 3], fs[n - 2], fs[n - 1]))
  {
    var b := Probe.Bracketed(fs);
    FieldsOfBracketed(fs);
    ConcatPrefix("[OK]", b);
    ParseInfoCellFields("[OK]" + b, fs);
  }

  lemma ParseInfoCellFields(text: string, fs: seq<string>)
    requires StartsWith(text, "[OK]") && Fields(text[4..]) == Some(fs)
    requires |fs| == 4 || (|fs| == 5 && IsKind(fs[0]))
    ensures var n := |fs|; ParseInfoCell(text) == Some(Clean(fs[n - 4], fs[n - 3], fs[n - 2], fs[n - 1]))
  {
    if |fs| == 5 && IsKind(fs[0]) {
      assert ParseInfoCell(text) == Some(Clean(fs[1], fs[2], fs[3], fs[4]));
    } else {
      assert ParseInfoCell(text) == Some(Clean(fs[0], fs[1], fs[2], fs[3]));
    }
  }

  lemma PlaylistKind(n: nat)
    ensures IsKind("PL: " + NatToString(n)) && ']' !in "PL: " + NatToString(n)
  {
    var kind := "PL: " + NatToString(n);
    assert kind[..4] == "PL: " && kind[4..] == NatToString(n);
  }

  /** What `parse_info_cell` makes of the cell `check_station` writes for a live station:
      the four metadata fields, cleaned up, provided each is non-empty and free of ']'. */
  lemma CheckedCellRoundTrip(r: Probe.Response, detect: seq<byte> -> Encoding.Detection, decode: Encoding.Decoder)
    requires Probe.IsLive(r)
    requires var m := Probe.Metadata(r, detect, decode);
      forall k :: 0 <= k < 4 ==> m[k] != [] && ']' !in m[k]
    ensures var m := Probe.Metadata(r, detect, decode);
      ParseInfoCell(Probe.Classify(Probe.Answered(r), detect, decode).info) == Some(Clean(m[0], m[1], m[2], m[3]))
  {
    var m := Probe.Metadata(r, detect, decode);
    var info := Probe.Classify(Probe.Answered(r), detect, decode).info;
    Probe.LiveInfo(r, detect, decode);
    var kind := if Probe.IsPlaylist(r.url, Probe.SeenType(r)) then Probe.Kind(r) else "STREAM";
    assert info == "[OK]" + Probe.Bracketed([kind] + m);
    if kind != "STREAM" {
      PlaylistKind(r.listed.value);
    }
    KindCellRoundTrip(kind, m);
  }

  lemma KindCellRoundTrip(kind: string, m: seq<string>)
    requires IsKind(kind) && kind != [] && ']' !in kind
    requires |m| == 4 && forall k :: 0 <= k < 4 ==> m[k] != [] && ']' !in m[k]
    ensures ParseInfoCell("[OK]" + Probe.Bracketed([kind] + m)) == Some(Clean(m[0], m[1], m[2], m[3]))
  {
    var fs := [kind] + m;
    assert forall k :: 1 <= k < 5 ==> fs[k] == m[k - 1];
    InfoCellRoundTrip(fs);
  }

  /** A dead station's cell is never read as station data. */
  lemma DeadCellSkipped(o: Probe.Outcome, detect: seq<byte> -> Encoding.Detection, decode: Encoding.Decoder)
    requires !Probe.Classify(o, detect, decode).active
    ensures ParseInfoCell(Probe.Classify(o, detect, decode).info).None?
  {
  }

  // ---------------------------------------------------------------------------
  // build_new_name (lines 1733-1751)

  /** `[REALNAME] [[CODEC] - [BITRATE]] ([GENRE])`, written in its pieces. */
  const DefaultTemplate: string :=
    "[REALNAME]" + (" [" + ("[CODEC]" + (" - " + ("[BITRATE]" + ("] (" + ("[GENRE]" + ")"))))))

  /** A tag of a template: `[` a name without brackets or spaces `]`. */
  predicate IsTag(t: string) {
    |t| >= 3 && t[0] == '[' && t[|t| - 1] == ']'
    && forall i :: 0 < i < |t| - 1 ==> t[i] != '[' && t[i] != ']' && t[i] != ' '
  }

  /** The realname used: the parsed one, or the old name when there is none. */
  function RealnameOr(oldname: string, info: Info): string {
    if info.realname.None? || info.realname.value == [] then oldname else info.realname.value
  }

  /** The (tag, value) pairs in the order the copied dictionary yields them; `OLDNAME` is
      added last and `REALNAME` keeps its first place when it is overwritten. */
  function Tags(oldname: string, info: Info): (tags: seq<(string, string)>)
    ensures forall k :: 0 <= k < |tags| ==> IsTag(tags[k].0)
  {
    [("[REALNAME]", RealnameOr(oldname, info)), ("[CODEC]", info.codec), ("[BITRATE]", info.bitrate),
     ("[GENRE]", info.genre), ("[OLDNAME]", oldname)]
  }

  /** An empty value is rendered as N/A. */
  function Render(v: string): (r: string)
    ensures r != []
    ensures '[' !in v && ']' !in v ==> '[' !in r && ']' !in r
  {
    if v == [] then NotAvailable else v
  }

  /** The template with each tag replaced in turn, all of one tag before the next. */
  function Substituted(template: string, tags: seq<(string, string)>): string
    requires forall k :: 0 <= k < |tags| ==> tags[k].0 != []
  {
    if tags == [] then template
    else
      var last := tags[|tags| - 1];
      Replace(Substituted(template, tags[..|tags| - 1]), last.0, Render(last.1))
  }

  /** What `build_new_name` returns. */
  function NewName(template: string, oldname: string, info: Option<Info>): string {
    if info.None? then oldname else Substituted(template, Tags(oldname, info.value))
  }

  method BuildNewName(template: string, oldname: string, info: Option<Info>) returns (name: string)
    ensures name == NewName(template, oldname, info)
    ensures info.None? ==> name == oldname
  {
    if info.None? {
      return oldname;
    }
    var tags := Tags(oldname, info.value);
    name := template;
    for i := 0 to |tags|
      invariant name == Substituted(template, tags[..i])
    {
      assert tags[..i + 1][..i] == tags[..i];
      var (tag, value) := tags[i];
      name := Replace(name, tag, if value == [] then NotAvailable else value);
    }
    assert tags[..|tags|] == tags;
  }

  // The default template, piece by piece

  /** Pieces of a text laid end to end. */
  function Concat(ps: seq<string>): string {
    if ps == [] then [] else ps[0] + Concat(ps[1..])
  }

  predicate Plain(s: string) {
    '[' !in s && ']' !in s
  }

  /** Piece `i` is plain text, a tag, or " [" before a tag or before plain text and a space. */
  predicate SafeAt(ps: seq<string>, i: nat)
    requires i < |ps|
  {
    '[' !in ps[i] || IsTag(ps[i])
    || (ps[i] == " [" && i + 1 < |ps|
        && (IsTag(ps[i + 1]) || (Plain(ps[i + 1]) && i + 2 < |ps| && ps[i + 2] != [] && ps[i + 2][0] == ' ')))
  }

  /** Piece `t` is replaced by `q` when it is the tag `p`, and kept otherwise. */
  predicate Replaceable(t: string, p: string) {
    '[' !in t || t == " [" || (IsTag(t) && (t == p || (|p| >= 2 && t[1] != p[1])))
  }

  lemma PlainNoStraddle(s: string, rest: string, p: string)
    requires IsTag(p) && '[' !in s
    ensures NoStraddle(s, rest, p)
  {
    forall k | 0 < k < |p| && k <= |s|
      ensures s[|s| - k..] != p[..k]
    {
      assert s[|s| - k] in s;
    }
  }

  lemma TagNoStraddle(t: string, rest: string, p: string)
    requires IsTag(t) && IsTag(p)
    ensures NoStraddle(t, rest, p)
  {
  }

  lemma OpenNoStraddle(rest: string, p: string)
    requires IsTag(p) && !StartsWith(rest, p[1..])
    ensures NoStraddle(" [", rest, p)
  {
    forall k | 0 < k < |p| && k <= 2
      ensures !(" ["[2 - k..] == p[..k] && StartsWith(rest, p[k..]))
    {
      if k == 2 {
        assert " ["[0] != p[0];
      }
    }
  }

  lemma TagNotTail(t: string, rest: string, p: string)
    requires IsTag(t) && IsTag(p)
    ensures !StartsWith(t + rest, p[1..])
  {
    assert (t + rest)[0] == '[';
  }

  lemma PlainNotTail(v: string, tail: string, p: string)
    requires Plain(v) && tail != [] && tail[0] == ' ' && IsTag(p)
    ensures !StartsWith(v + tail, p[1..])
  {
    if |v| >= |p| - 1 {
      assert (v + tail)[|p| - 2] == v[|p| - 2];
      assert v[|p| - 2] in v;
    } else {
      assert (v + tail)[|v|] == ' ';
    }
  }

  lemma ConcatAt(ps: seq<string>, i: nat)
    requires i < |ps|
    ensures Concat(ps[i..]) == ps[i] + Concat(ps[i + 1..])
  {
    assert ps[i..][1..] == ps[i + 1..];
  }

  lemma SafeNoStraddle(ps: seq<string>, i: nat, p: string)
    requires IsTag(p) && i < |ps| && SafeAt(ps, i)
    ensures NoStraddle(ps[i], Concat(ps[i + 1..]), p)
  {
    if '[' in ps[i] && !IsTag(ps[i]) {
      ConcatAt(ps, i + 1);
      if IsTag(ps[i + 1]) {
        TagNotTail(ps[i + 1], Concat(ps[i + 2..]), p);
      } else {
        ConcatAt(ps, i + 2);
        PlainNotTail(ps[i + 1], Concat(ps[i + 2..]), p);
      }
      OpenNoStraddle(Concat(ps[i + 1..]), p);
    } else if IsTag(ps[i]) {
      TagNoStraddle(ps[i], Concat(ps[i + 1..]), p);
    } else {
      PlainNoStraddle(ps[i], Concat(ps[i + 1..]), p);
    }
  }

  lemma PieceReplace(t: string, p: string, q: string)
    requires IsTag(p) && Replaceable(t, p)
    ensures Replace(t, p, q) == if t == p then q else t
  {
    if '[' !in t {
      ReplaceWithoutFirst(t, p, q);
    } else if t == p {
      ReplaceWhole(p, q);
    } else if IsTag(t) && |t| >= |p| {
      assert t[..|p|][1] != p[1];
      assert '[' !in t[1..] by {
        forall j | 0 <= j < |t| - 1 ensures t[1..][j] != '[' {
          assert t[1..][j] == t[j + 1];
        }
      }
      ReplaceWithoutFirst(t[1..], p, q);
    }
  }

  /** `q` in place of the piece `p`; any other piece as it is. */
  function Fill(x: string, p: string, q: string): string {
    if x == p then q else x
  }

  /** The pieces with every piece equal to `p` swapped for `q`. */
  function Swap(ps: seq<string>, p: string, q: string): (r: seq<string>)
    ensures |r| == |ps| && forall i :: 0 <= i < |ps| ==> r[i] == Fill(ps[i], p, q)
  {
    seq(|ps|, i requires 0 <= i < |ps| => Fill(ps[i], p, q))
  }

  /** One tag replaced in a text made of safe pieces: each piece that is the tag becomes `q`. */
  lemma {:induction false} ReplacePieces(ps: seq<string>, p: string, q: string)
    requires IsTag(p)
    requires forall i :: 0 <= i < |ps| ==> NoStraddle(ps[i], Concat(ps[i + 1..]), p) && Replaceable(ps[i], p)
    ensures Replace(Concat(ps), p, q) == Concat(Swap(ps, p, q))
  {
    if ps != [] {
      var tail := ps[1..];
      forall i | 0 <= i < |tail|
        ensures NoStraddle(tail[i], Concat(tail[i + 1..]), p) && Replaceable(tail[i], p)
      {
        assert tail[i + 1..] == ps[i + 2..];
      }
      ReplacePieces(tail, p, q);
      ReplaceSplit(ps[0], Concat(tail), p, q);
      PieceReplace(ps[0], p, q);
      assert Swap(ps, p, q)[1..] == Swap(tail, p, q);
    }
  }

  lemma SubstituteStep(ps: seq<string>, p: string, q: string)
    requires IsTag(p)
    requires forall i :: 0 <= i < |ps| ==> SafeAt(ps, i) && Replaceable(ps[i], p)
    ensures Replace(Concat(ps), p, q) == Concat(Swap(ps, p, q))
  {
    forall i | 0 <= i < |ps|
      ensures NoStraddle(ps[i], Concat(ps[i + 1..]), p)
    {
      SafeNoStraddle(ps, i, p);
    }
    ReplacePieces(ps, p, q);
  }

  lemma Concat8(x0: string, x1: string, x2: string, x3: string, x4: string, x5: string, x6: string, x7: string)
    ensures Concat([x0, x1, x2, x3, x4, x5, x6, x7]) == x0 + (x1 + (x2 + (x3 + (x4 + (x5 + (x6 + x7))))))
  {
    var ps := [x0, x1, x2, x3, x4, x5, x6, x7];
    assert ps[1..] == [x1, x2, x3, x4, x5, x6, x7];
    assert ps[1..][1..] == [x2, x3, x4, x5, x6, x7];
    assert ps[1..][1..][1..] == [x3, x4, x5, x6, x7];
    assert ps[1..][1..][1..][1..] == [x4, x5, x6, x7];
    assert ps[1..][1..][1..][1..][1..] == [x5, x6, x7];
    assert ps[1..][1..][1..][1..][1..][1..] == [x6, x7];
    assert ps[1..][1..][1..][1..][1..][1..][1..] == [x7];
    assert Concat([x7]) == x7;
    assert Concat([x6, x7]) == x6 + x7;
    assert Concat([x5, x6, x7]) == x5 + (x6 + x7);
    assert Concat([x4, x5, x6, x7]) == x4 + (x5 + (x6 + x7));
    assert Concat([x3, x4, x5, x6, x7]) == x3 + (x4 + (x5 + (x6 + x7)));
    assert Concat([x2, x3, x4, x5, x6, x7]) == x2 + (x3 + (x4 + (x5 + (x6 + x7))));
    assert Concat([x1, x2, x3, x4, x5, x6, x7]) == x1 + (x2 + (x3 + (x4 + (x5 + (x6 + x7)))));
  }

  /** The default template as pieces: four tags and the text between them. */
  function DefaultPieces(): (ps: seq<string>)
    ensures Concat(ps) == DefaultTemplate
  {
    Concat8("[REALNAME]", " [", "[CODEC]", " - ", "[BITRATE]", "] (", "[GENRE]", ")");
    ["[REALNAME]", " [", "[CODEC]", " - ", "[BITRATE]", "] (", "[GENRE]", ")"]
  }

  lemma DefaultTags()
    ensures IsTag("[REALNAME]") && IsTag("[CODEC]") && IsTag("[BITRATE]") && IsTag("[GENRE]") && IsTag("[OLDNAME]")
  {
  }

  /** The pieces of the default template once some of its tags are filled in. */
  function Layout(a: string, b: string, c: string, d: string): seq<string> {
    [a, " [", b, " - ", c, "] (", d, ")"]
  }

  /** A slot of the layout: plain text, or a tag other than `p` by its first letter, or `p` itself. */
  predicate Slot(x: string, p: string)
    requires |p| >= 2
  {
    Plain(x) || (IsTag(x) && (x == p || x[1] != p[1]))
  }

  lemma LayoutSafe(a: string, b: string, c: string, d: string, p: string)
    requires IsTag(p) && Slot(a, p) && Slot(b, p) && Slot(c, p) && Slot(d, p)
    ensures forall i :: 0 <= i < 8 ==> SafeAt(Layout(a, b, c, d), i) && Replaceable(Layout(a, b, c, d)[i], p)
  {
    assert " - "[0] == ' ';
    assert '[' !in " - " && '[' !in "] (" && '[' !in ")";
  }

  lemma LayoutSwap(a: string, b: string, c: string, d: string, p: string, q: string)
    requires IsTag(p)
    ensures Swap(Layout(a, b, c, d), p, q) == Layout(Fill(a, p, q), Fill(b, p, q), Fill(c, p, q), Fill(d, p, q))
  {
    assert p != " [" && p != " - " && p != "] (" && p != ")";
    assert Fill(" [", p, q) == " [" && Fill(" - ", p, q) == " - " && Fill("] (", p, q) == "] (" && Fill(")", p, q) == ")";
  }

  lemma LayoutStep(a: string, b: string, c: string, d: string, p: string, q: string)
    requires IsTag(p) && Slot(a, p) && Slot(b, p) && Slot(c, p) && Slot(d, p)
    ensures Replace(Concat(Layout(a, b, c, d)), p, q)
      == Concat(Layout(Fill(a, p, q), Fill(b, p, q), Fill(c, p, q), Fill(d, p, q)))
  {
    LayoutSafe(a, b, c, d, p);
    SubstituteStep(Layout(a, b, c, d), p, q);
    LayoutSwap(a, b, c, d, p, q);
  }

  /** One more tag substituted after the first `k`. */
  lemma SubstitutedNext(template: string, tags: seq<(string, string)>, k: nat)
    requires k < |tags| && forall i :: 0 <= i < |tags| ==> tags[i].0 != []
    ensures Substituted(template, tags[..k + 1]) == Replace(Substituted(template, tags[..k]), tags[k].0, Render(tags[k].1))
  {
    assert tags[..k + 1][..k] == tags[..k];
  }

  lemma SubstitutedFive(template: string, tags: seq<(string, string)>)
    requires |tags| == 5 && forall k :: 0 <= k < 5 ==> tags[k].0 != []
    ensures Substituted(template, tags)
      == Replace(Replace(Replace(Replace(Replace(template, tags[0].0, Render(tags[0].1)),
           tags[1].0, Render(tags[1].1)), tags[2].0, Render(tags[2].1)), tags[3].0, Render(tags[3].1)),
           tags[4].0, Render(tags[4].1))
  {
    assert tags[..0] == [];
    SubstitutedNext(template, tags, 0);
    SubstitutedNext(template, tags, 1);
    SubstitutedNext(template, tags, 2);
    SubstitutedNext(template, tags, 3);
    SubstitutedNext(template, tags, 4);
    assert tags[..5] == tags;
  }

  /** The tags of the default template differ in their first letter. */
  lemma DefaultSlots()
    ensures Slot("[REALNAME]", "[REALNAME]") && Slot("[CODEC]", "[REALNAME]") && Slot("[BITRATE]", "[REALNAME]")
      && Slot("[GENRE]", "[REALNAME]")
    ensures Slot("[CODEC]", "[CODEC]") && Slot("[BITRATE]", "[CODEC]") && Slot("[GENRE]", "[CODEC]")
    ensures Slot("[BITRATE]", "[BITRATE]") && Slot("[GENRE]", "[BITRATE]") && Slot("[GENRE]", "[GENRE]")
  {
    DefaultTags();
  }

  /** With bracket-free values, the default template yields
      `realname [codec - bitrate] (genre)`, each empty value shown as N/A. */
  lemma DefaultLayout(oldname: string, info: Info)
    requires Plain(RealnameOr(oldname, info)) && Plain(info.codec) && Plain(info.bitrate) && Plain(info.genre)
    ensures NewName(DefaultTemplate, oldname, Some(info))
      == Concat(Layout(Render(RealnameOr(oldname, info)), Render(info.codec), Render(info.bitrate), Render(info.genre)))
  {
    var a, b, c, d := Render(RealnameOr(oldname, info)), Render(info.codec), Render(info.bitrate), Render(info.genre);
    DefaultTags();
    DefaultSlots();
    SubstitutedFive(DefaultTemplate, Tags(oldname, info));
    var R, C, B, G := "[REALNAME]", "[CODEC]", "[BITRATE]", "[GENRE]";
    assert DefaultPieces() == Layout(R, C, B, G);
    LayoutStep(R, C, B, G, R, a);
    LayoutStep(a, C, B, G, C, b);
    LayoutStep(a, b, B, G, B, c);
    LayoutStep(a, b, c, G, G, d);
    LayoutStep(a, b, c, d, "[OLDNAME]", Render(oldname));
  }

  /** The default template filled with New, MP3, 128 and Pop. */
  lemma DefaultExample(oldname: string)
    ensures NewName(DefaultTemplate, oldname, Some(Info(Some("New"), "MP3", "128", "Pop"))) == "New [MP3 - 128] (Pop)"
  {
    var info := Info(Some("New"), "MP3", "128", "Pop");
    ExamplePlain();
    DefaultLayout(oldname, info);
    ExampleLayout();
  }

  lemma ExamplePlain()
    ensures Plain("New") && Plain("MP3") && Plain("128") && Plain("Pop")
    ensures Render("New") == "New" && Render("MP3") == "MP3" && Render("128") == "128" && Render("Pop") == "Pop"
  {
  }

  lemma ExampleLayout()
    ensures Concat(Layout("New", "MP3", "128", "Pop")) == "New [MP3 - 128] (Pop)"
  {
    Concat8("New", " [", "MP3", " - ", "128", "] (", "Pop", ")");
    ExampleText();
  }

  lemma ExampleText()
    ensures "New" + (" [" + ("MP3" + (" - " + ("128" + ("] (" + ("Pop" + ")")))))) == "New [MP3 - 128] (Pop)"
  {
  }

  // ---------------------------------------------------------------------------
  // fix_names (lines 1753-1780)

  /** The name column, the `station_renamed` signals sent as (row, name), and the
      number of names that actually changed. */
  datatype Run = Run(names: seq<string>, events: seq<(nat, string)>, processed: nat)

  /** The info cell of `row` reads as an active station. */
  predicate Parsed(infos: seq<string>, row: nat) {
    row < |infos| && ParseInfoCell(infos[row]).Some?
  }

  /** One row of `fix_names`: an active row gets its new name (counted when it differs)
      and a signal; any other row is passed over. */
  function RenameRow(run: Run, infos: seq<string>, row: nat, template: string): (r: Run)
    ensures |r.names| == |run.names| && |r.events| <= |run.events| + 1
    ensures r.processed == run.processed || r.processed == run.processed + 1
  {
    if row < |run.names| && Parsed(infos, row) then
      var name := NewName(template, run.names[row], ParseInfoCell(infos[row]));
      if name != run.names[row] then
        assert run.names[row := name][row] != run.names[row];
        Run(run.names[row := name], run.events + [(row, name)], run.processed + 1)
      else Run(run.names, run.events + [(row, run.names[row])], run.processed)
    else run
  }

  /** One row changes at most its own name, counts exactly when it changes, and signals
      exactly when its station is active; a row passed over leaves everything as it was. */
  lemma RenameRowEffect(run: Run, infos: seq<string>, row: nat, template: string)
    ensures var r := RenameRow(run, infos, row, template);
      forall j :: 0 <= j < |run.names| && j != row ==> r.names[j] == run.names[j]
    ensures var r := RenameRow(run, infos, row, template);
      r.processed == run.processed + 1 <==> r.names != run.names
    ensures var r := RenameRow(run, infos, row, template);
      (row < |run.names| && Parsed(infos, row)) <==> |r.events| == |run.events| + 1
    ensures var r := RenameRow(run, infos, row, template);
      |r.events| == |run.events| + 1 ==> r.events == run.events + [(row, r.names[row])]
    ensures var r := RenameRow(run, infos, row, template);
      |r.events| != |run.events| + 1 ==> r == run
    ensures var r := RenameRow(run, infos, row, template);
      row < |run.names| && Parsed(infos, row)
      ==> r.names[row] == NewName(template, run.names[row], ParseInfoCell(infos[row]))
  {
  }

  /** All of `rows` renamed in order. */
  function Renaming(names: seq<string>, infos: seq<string>, rows: seq<nat>, template: string): (r: Run)
    ensures |r.names| == |names|
    ensures r.processed <= |r.events| <= |rows|
    decreases |rows|
  {
    if rows == [] then Run(names, [], 0)
    else RenameRow(Renaming(names, infos, rows[..|rows| - 1], template), infos, rows[|rows| - 1], template)
  }

  /** Whether the station of each entry is active. */
  function Actives(infos: seq<string>, rows: seq<nat>): (act: seq<bool>)
    ensures |act| == |rows| && forall k :: 0 <= k < |rows| ==> act[k] == Parsed(infos, rows[k])
  {
    seq(|rows|, k requires 0 <= k < |rows| => Parsed(infos, rows[k]))
  }

  /** How many entries are visited, given which are active: all of them, or, for the
      selected row only, up to the first active one. */
  function Visited(act: seq<bool>, applyToAll: bool): (n: nat)
    ensures n <= |act|
    ensures applyToAll ==> n == |act|
    decreases |act|
  {
    if applyToAll || act == [] then |act|
    else if act[0] then 1
    else Visited(act[1..], applyToAll) + 1
  }

  /** For the selected row only, every entry before the last visited one is inactive, and a
      visit that stops early stops at an active entry. */
  lemma {:induction false} VisitedStops(act: seq<bool>)
    ensures forall k :: 0 <= k < Visited(act, false) - 1 ==> !act[k]
    ensures Visited(act, false) < |act| ==> Visited(act, false) > 0 && act[Visited(act, false) - 1]
    decreases |act|
  {
    if act != [] && !act[0] {
      var tail := act[1..];
      VisitedStops(tail);
      var m := Visited(tail, false);
      forall k | 0 <= k < m
        ensures !act[k]
      {
        if k > 0 {
          assert act[k] == tail[k - 1];
        }
      }
      if m < |tail| {
        assert act[m] == tail[m - 1];
      }
    }
  }

  /** The single-row visit runs past every inactive entry and stops at the first active one. */
  lemma {:induction false} VisitedFirst(act: seq<bool>, i: nat)
    requires i < |act| && forall k :: 0 <= k < i ==> !act[k]
    ensures i + 1 <= Visited(act, false)
    ensures act[i] ==> Visited(act, false) == i + 1
    decreases i
  {
    if i > 0 {
      assert !act[0];
      forall k | 0 <= k < i - 1
        ensures !act[1..][k]
      {
        assert act[1..][k] == act[k + 1];
      }
      VisitedFirst(act[1..], i - 1);
      assert act[1..][i - 1] == act[i];
    }
  }

  lemma VisitedNext(act: seq<bool>, i: nat)
    requires i < |act|
    ensures Visited(act[i..], false) == if act[i] then 1 else 1 + Visited(act[i + 1..], false)
  {
    assert act[i..][0] == act[i];
    assert act[i..][1..] == act[i + 1..];
  }

  lemma RenamingNext(names: seq<string>, infos: seq<string>, rows: seq<nat>, i: nat, template: string)
    requires i < |rows|
    ensures Renaming(names, infos, rows[..i + 1], template)
      == RenameRow(Renaming(names, infos, rows[..i], template), infos, rows[i], template)
  {
    assert rows[..i + 1][..i] == rows[..i];
  }

  /** What `fix_names` leaves behind. */
  function FixedNames(names: seq<string>, infos: seq<string>, rows: seq<nat>, template: string, applyToAll: bool): Run
  {
    Renaming(names, infos, rows[..Visited(Actives(infos, rows), applyToAll)], template)
  }

  /** The body of the loop of `fix_names` for one entry. */
  method RenameEntry(names: array<string>, infos: seq<string>, row: nat, template: string,
                     events: seq<(nat, string)>, processed: nat)
    returns (events': seq<(nat, string)>, processed': nat, active: bool)
    requires |infos| == names.Length && row < names.Length
    modifies names
    ensures active == Parsed(infos, row)
    ensures Run(names[..], events', processed') == RenameRow(Run(old(names[..]), events, processed), infos, row, template)
  {
    var oldname := names[row];
    var info := ParseInfoCell(infos[row]);
    active := info.Some?;
    events', processed' := events, processed;
    if info.Some? {
      var newName := BuildNewName(template, oldname, info);
      if newName != oldname {
        names[row] := newName;
        events' := events + [(row, newName)];
        processed' := processed + 1;
      } else {
        events' := events + [(row, oldname)];
      }
    }
  }

  /** `fix_names` over the name cells `names` and the info cells `infos` of the table, for
      the entries `rows`; returns the count announced by `renaming_started`, the signals
      and the count reported by `renaming_finished`. */
  method FixNames(names: array<string>, infos: seq<string>, rows: seq<nat>, template: string, applyToAll: bool)
    returns (announced: nat, events: seq<(nat, string)>, processed: nat)
    requires |infos| == names.Length
    requires forall k :: 0 <= k < |rows| ==> rows[k] < names.Length
    modifies names
    ensures announced == if applyToAll then |rows| else 1
    ensures Run(names[..], events, processed) == FixedNames(old(names[..]), infos, rows, template, applyToAll)
  {
    announced := if applyToAll then |rows| else 1;
    ghost var before := names[..];
    events, processed := [], 0;
    ghost var act := Actives(infos, rows);
    var i, stop := 0, false;
    assert act[0..] == act;
    while i < |rows| && !stop
      invariant i <= |rows|
      invariant Run(names[..], events, processed) == Renaming(before, infos, rows[..i], template)
      invariant !applyToAll && !stop ==> Visited(act, false) == i + Visited(act[i..], false)
      invariant stop ==> !applyToAll && Visited(act, false) == i
      invariant applyToAll ==> !stop
    {
      RenamingNext(before, infos, rows, i, template);
      VisitedNext(act, i);
      var active;
      events, processed, active := RenameEntry(names, infos, rows[i], template, events, processed);
      i := i + 1;
      // the source leaves the loop with `break` here
      stop := active && !applyToAll;
    }
    assert !stop ==> i == |rows| && act[i..] == [];
  }

  /** A name whose row is not among the entries, or whose station is inactive, is left alone. */
  lemma {:induction false} UntouchedRow(names: seq<string>, infos: seq<string>, rows: seq<nat>, template: string, j: nat)
    requires j < |names|
    requires !Parsed(infos, j) || forall k :: 0 <= k < |rows| ==> rows[k] != j
    ensures Renaming(names, infos, rows, template).names[j] == names[j]
    decreases |rows|
  {
    if rows != [] {
      UntouchedRow(names, infos, rows[..|rows| - 1], template, j);
    }
  }

  /** Entries with no active station change nothing and send no signal. */
  lemma {:induction false} InactiveRowsNoop(names: seq<string>, infos: seq<string>, rows: seq<nat>, template: string)
    requires forall k :: 0 <= k < |rows| ==> !Parsed(infos, rows[k])
    ensures Renaming(names, infos, rows, template) == Run(names, [], 0)
    decreases |rows|
  {
    if rows != [] {
      InactiveRowsNoop(names, infos, rows[..|rows| - 1], template);
    }
  }

  /** For the selected row only, at most one signal is sent and at most one name changes. */
  lemma SingleRowAtMostOne(names: seq<string>, infos: seq<string>, rows: seq<nat>, template: string)
    ensures var r := FixedNames(names, infos, rows, template, false); |r.events| <= 1 && r.processed <= 1
  {
    var n := Visited(Actives(infos, rows), false);
    if n > 0 {
      InactiveBeforeVisited(infos, rows);
      OneActiveAtMost(names, infos, rows, n - 1, template);
    }
  }

  /** When not applying to all, the entries before the last one visited are inactive. */
  lemma InactiveBeforeVisited(infos: seq<string>, rows: seq<nat>)
    ensures forall k :: 0 <= k < Visited(Actives(infos, rows), false) - 1 ==> !Parsed(infos, rows[k])
  {
    VisitedStops(Actives(infos, rows));
  }

  /** Inactive entries followed by one more give at most one signal and one rename. */
  lemma OneActiveAtMost(names: seq<string>, infos: seq<string>, rows: seq<nat>, i: nat, template: string)
    requires i < |rows| && forall k :: 0 <= k < i ==> !Parsed(infos, rows[k])
    ensures var r := Renaming(names, infos, rows[..i + 1], template); |r.events| <= 1 && r.processed <= 1
  {
    assert forall k :: 0 <= k < i ==> rows[..i][k] == rows[k];
    InactiveRowsNoop(names, infos, rows[..i], template);
    RenamingNext(names, infos, rows, i, template);
  }

  /** Over distinct entries, every active station gets the name its info cell and old name give. */
  lemma {:induction false} EveryActiveRenamed(names: seq<string>, infos: seq<string>, rows: seq<nat>, template: string, k: nat)
    requires k < |rows| && rows[k] < |names| && Parsed(infos, rows[k])
    requires forall a, b :: 0 <= a < b < |rows| ==> rows[a] != rows[b]
    ensures Renaming(names, infos, rows, template).names[rows[k]]
      == NewName(template, names[rows[k]], ParseInfoCell(infos[rows[k]]))
    decreases |rows|
  {
    var front := rows[..|rows| - 1];
    if k == |rows| - 1 {
      UntouchedRow(names, infos, front, template, rows[k]);
    } else {
      EveryActiveRenamed(names, infos, front, template, k);
    }
  }

  /** With "all" chosen, every active entry is renamed. */
  lemma ApplyToAllRenames(names: seq<string>, infos: seq<string>, rows: seq<nat>, template: string, k: nat)
    requires k < |rows| && rows[k] < |names| && Parsed(infos, rows[k])
    requires forall a, b :: 0 <= a < b < |rows| ==> rows[a] != rows[b]
    ensures FixedNames(names, infos, rows, template, true).names[rows[k]]
      == NewName(template, names[rows[k]], ParseInfoCell(infos[rows[k]]))
  {
    assert rows[..|rows|] == rows;
    EveryActiveRenamed(names, infos, rows, template, k);
  }
}
