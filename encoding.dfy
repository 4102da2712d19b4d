/** The ICY-metadata repair of `StationChecker`: spotting mojibake, judging a
    decoding plausible, and re-decoding the latin-1 bytes of a header value. */
module Encoding {
  import opened PyStr

  /** The placeholder the checker stores for a value it does not know. */
  const Unknown: string := "Неизвестно"

  // ---------------------------------------------------------------------------
  // _has_encoding_issues (lines 1477-1485)

  /** The characters UTF-8 bytes turn into when read as a single-byte code page:
      U+00D0, U+00D1, U+00C2 and the C1 controls U+0090..U+009F. */
  predicate IsMojibakeMark(c: char) {
    c == 'Ð' || c == 'Ñ' || c == 'Â' || (144 <= c as int <= 159)
  }

  /** Every mark lies in U+0080..U+00FF, so text of ASCII and Cyrillic letters never
      has one. */
  predicate HasEncodingIssues(text: string)
    ensures HasEncodingIssues(text) ==> exists i :: 0 <= i < |text| && 128 <= text[i] as int < 256
  {
    exists c :: c in text && IsMojibakeMark(c)
  }

  // ---------------------------------------------------------------------------
  // _is_text_valid (lines 1487-1506)

  /** The punctuation and letters outside the two ranges that still count as ordinary. */
  predicate IsListed(c: char) {
    c in " «»—–№ёЁ†‡‰Љ‹ЊЋЏ"
  }

  /** A character above U+007F that is neither Cyrillic (U+0400..U+04FF), nor
      in the Latin-1 letters and Latin Extended-A (U+00C0..U+017F), nor listed. */
  predicate IsStrange(c: char) {
    c as int > 127 && !(('Ѐ' <= c <= 'ӿ') || ('À' <= c <= 'ſ') || IsListed(c))
  }

  function StrangeCount(s: string): (n: nat)
    ensures n <= |s|
    ensures n == 0 <==> forall i :: 0 <= i < |s| ==> !IsStrange(s[i])
    decreases |s|
  {
    if s == [] then 0 else StrangeCount(s[..|s| - 1]) + (if IsStrange(s[|s| - 1]) then 1 else 0)
  }

  /** Non-empty, with fewer than 30% strange characters
      (`strange / total < 0.3`, in integers). */
  predicate TextValid(s: string) {
    s != [] && 10 * StrangeCount(s) < 3 * |s|
  }

  method IsTextValid(text: string) returns (ok: bool)
    ensures ok == TextValid(text)
  {
    if text == [] {
      return false;
    }
    var strange, total := 0, 0;
    for i := 0 to |text|
      invariant total == i
      invariant strange == StrangeCount(text[..i])
    {
      assert text[..i + 1][..i] == text[..i];
      total := total + 1;
      if IsStrange(text[i]) {
        strange := strange + 1;
      }
    }
    assert text[..|text|] == text;
    ok := 10 * strange < 3 * total;
  }

  /** Text made of ASCII and Cyrillic only is always plausible. */
  lemma CyrillicTextValid(s: string)
    requires s != []
    requires forall i :: 0 <= i < |s| ==> s[i] as int <= 127 || 'Ѐ' <= s[i] <= 'ӿ'
    ensures TextValid(s)
  {
    assert StrangeCount(s) == 0;
  }

  /** Text with a strange character in every position is never plausible. */
  lemma {:induction false} AllStrangeCount(s: string)
    requires forall i :: 0 <= i < |s| ==> IsStrange(s[i])
    ensures StrangeCount(s) == |s|
    decreases |s|
  {
    if s != [] {
      AllStrangeCount(s[..|s| - 1]);
    }
  }

  lemma AllStrangeInvalid(s: string)
    requires forall i :: 0 <= i < |s| ==> IsStrange(s[i])
    ensures !TextValid(s)
  {
    AllStrangeCount(s);
  }

  // ---------------------------------------------------------------------------
  // latin-1

  /** `text.encode('latin-1')`: `None` where Python raises (a character above U+00FF). */
  function Latin1Encode(text: string): (r: Option<seq<byte>>)
    ensures r.Some? <==> forall i :: 0 <= i < |text| ==> text[i] as int < 256
    ensures r.Some? ==> |r.value| == |text| && forall i :: 0 <= i < |text| ==> r.value[i] == text[i] as int
    decreases |text|
  {
    if text == [] then Some([])
    else
      var c := text[|text| - 1];
      match Latin1Encode(text[..|text| - 1])
      case None => None
      case Some(front) => if c as int < 256 then Some(front + [c as int]) else None
  }

  /** `bytes.decode('latin-1')`. */
  function Latin1Decode(b: seq<byte>): (r: string)
    ensures |r| == |b| && forall i :: 0 <= i < |b| ==> r[i] as int == b[i]
  {
    seq(|b|, i requires 0 <= i < |b| => b[i] as char)
  }

  /** latin-1 is a bijection between the first 256 code points and bytes. */
  lemma Latin1RoundTrip(text: string, b: seq<byte>)
    ensures Latin1Encode(Latin1Decode(b)) == Some(b)
    ensures Latin1Encode(text).Some? ==> Latin1Decode(Latin1Encode(text).value) == text
  {
    var d := Latin1Decode(b);
    assert Latin1Encode(d).value == b;
    if Latin1Encode(text).Some? {
      var t := Latin1Decode(Latin1Encode(text).value);
      assert forall i :: 0 <= i < |text| ==> t[i] == text[i];
    }
  }

  // ---------------------------------------------------------------------------
  // fix_icy_encoding (lines 1433-1475)

  /** The code pages tried by hand, in order. */
  datatype Codec = Cp1251 | Koi8R | Iso8859_5 | Cp866 | Utf8

  const Fallbacks: seq<Codec> := [Cp1251, Koi8R, Iso8859_5, Cp866, Utf8]

  /** What `charset_normalizer.from_bytes(...)` and `best()` give: an exception,
      no usable result, or the text of the best guess. */
  datatype Detection = DetectorRaised | NoGuess | Best(text: string)

  /** `bytes.decode(codec)`, `None` where Python raises. */
  type Decoder = (Codec, seq<byte>) -> Option<string>

  /** A decoding that succeeded and reads as plausible text. */
  predicate Plausible(d: Option<string>) {
    d.Some? && TextValid(d.value)
  }

  /** `codecs[k]` is the first of `codecs` whose decoding of `b` is plausible. */
  predicate FirstAt(codecs: seq<Codec>, b: seq<byte>, decode: Decoder, k: int) {
    0 <= k < |codecs| && Plausible(decode(codecs[k], b))
    && forall j :: 0 <= j < k ==> !Plausible(decode(codecs[j], b))
  }

  /** The first of `codecs` whose decoding of `b` is plausible. */
  function FirstPlausible(codecs: seq<Codec>, b: seq<byte>, decode: Decoder): (r: Option<string>)
    ensures r.Some? ==> TextValid(r.value)
    ensures r.Some? ==> exists k :: FirstAt(codecs, b, decode, k) && decode(codecs[k], b) == r
    ensures r.None? <==> forall k :: 0 <= k < |codecs| ==> !Plausible(decode(codecs[k], b))
    decreases |codecs|
  {
    if codecs == [] then None
    else
      var d := decode(codecs[0], b);
      if Plausible(d) then
        assert FirstAt(codecs, b, decode, 0);
        d
      else
        var r := FirstPlausible(codecs[1..], b, decode);
        FirstShift(codecs, b, decode, r);
        r
  }

  /** A first plausible codec of the tail is the first of the whole list when the head
      is not plausible. */
  lemma FirstShift(codecs: seq<Codec>, b: seq<byte>, decode: Decoder, r: Option<string>)
    requires codecs != [] && !Plausible(decode(codecs[0], b))
    requires r.Some? ==> exists k :: FirstAt(codecs[1..], b, decode, k) && decode(codecs[1..][k], b) == r
    requires r.None? <==> forall k :: 0 <= k < |codecs[1..]| ==> !Plausible(decode(codecs[1..][k], b))
    ensures r.Some? ==> exists k :: FirstAt(codecs, b, decode, k) && decode(codecs[k], b) == r
    ensures r.None? <==> forall k :: 0 <= k < |codecs| ==> !Plausible(decode(codecs[k], b))
  {
    assert forall k :: 1 <= k < |codecs| ==> codecs[k] == codecs[1..][k - 1];
    if r.Some? {
      var k :| FirstAt(codecs[1..], b, decode, k) && decode(codecs[1..][k], b) == r;
      assert FirstAt(codecs, b, decode, k + 1);
    }
  }

  /** What `fix_icy_encoding` returns. The repair never makes things worse: it returns
      its input, or a plausible text one of the decoders produced for a value with a
      mojibake mark that latin-1 can encode. When the detector has no plausible answer,
      the first fallback code page that decodes plausibly wins, and without one the
      input comes back. */
  function FixedText(text: Option<string>, detect: seq<byte> -> Detection, decode: Decoder): (r: Option<string>)
    ensures r == text || (r.Some? && TextValid(r.value) && text.Some? && HasEncodingIssues(text.value)
      && Latin1Encode(text.value).Some?)
    ensures text.Some? && text.value != Unknown && HasEncodingIssues(text.value) && Latin1Encode(text.value).Some?
        && (var d := detect(Latin1Encode(text.value).value); d.NoGuess? || (d.Best? && !TextValid(d.text)))
      ==> var f := FirstPlausible(Fallbacks, Latin1Encode(text.value).value, decode);
        r == (if f.Some? then f else text)
    ensures text.Some? && Latin1Encode(text.value).Some? && detect(Latin1Encode(text.value).value).DetectorRaised?
      ==> r == text
  {
    if text.None? || text.value == Unknown || !HasEncodingIssues(text.value) then text
    else match Latin1Encode(text.value)
      case None => text
      case Some(b) =>
        var fallback := match FirstPlausible(Fallbacks, b, decode)
          case Some(t) => Some(t)
          case None => text;
        match detect(b)
        case DetectorRaised => text
        case NoGuess => fallback
        case Best(g) => if TextValid(g) then Some(g) else fallback
  }

  /** The loop over the fallback code pages: the first whose decoding is plausible. */
  method TryFallbacks(b: seq<byte>, decode: Decoder) returns (r: Option<string>)
    ensures r == FirstPlausible(Fallbacks, b, decode)
  {
    for k := 0 to |Fallbacks|
      invariant FirstPlausible(Fallbacks[k..], b, decode) == FirstPlausible(Fallbacks, b, decode)
    {
      assert Fallbacks[k..][1..] == Fallbacks[k + 1..];
      var decoded := decode(Fallbacks[k], b);
      if decoded.Some? {
        var ok := IsTextValid(decoded.value);
        if ok {
          return decoded;
        }
      }
    }
    return None;
  }

  method FixIcyEncoding(text: Option<string>, detect: seq<byte> -> Detection, decode: Decoder)
    returns (r: Option<string>)
    ensures r == FixedText(text, detect, decode)
  {
    if text.None? || text.value == Unknown {
      return text;
    }
    if !HasEncodingIssues(text.value) {
      return text;
    }
    var encoded := Latin1Encode(text.value);
    if encoded.None? {
      return text;
    }
    var b := encoded.value;
    var results := detect(b);
    if results.DetectorRaised? {
      return text;
    }
    if results.Best? {
      var ok := IsTextValid(results.text);
      if ok {
        return Some(results.text);
      }
    }
    r := TryFallbacks(b, decode);
    if r.Some? {
      return r;
    }
    return text;
  }

  /** Text without a mojibake mark, the placeholder and a missing value pass through. */
  lemma CleanTextUnchanged(text: Option<string>, detect: seq<byte> -> Detection, decode: Decoder)
    requires text.None? || text.value == Unknown || !HasEncodingIssues(text.value)
    ensures FixedText(text, detect, decode) == text
  {
  }

  /** A value with a character above U+00FF cannot be latin-1 encoded and comes back as it was,
      even when it also carries a mojibake mark. */
  lemma WideTextUnchanged(t: string, detect: seq<byte> -> Detection, decode: Decoder)
    requires exists i :: 0 <= i < |t| && t[i] as int >= 256
    ensures FixedText(Some(t), detect, decode) == Some(t)
  {
  }

  /** A plausible guess of the detector wins over the fallback code pages. */
  lemma DetectorFirst(t: string, g: string, detect: seq<byte> -> Detection, decode: Decoder)
    requires HasEncodingIssues(t) && Latin1Encode(t).Some?
    requires detect(Latin1Encode(t).value) == Best(g) && TextValid(g)
    ensures FixedText(Some(t), detect, decode) == Some(g)
  {
    assert t != Unknown by {
      assert !HasEncodingIssues(Unknown);
    }
  }
}
