/**
 * `processBinaryUpload`: the first file part of a multipart/form-data body
 * (RFC 7578). The boundary comes from the request's Content-Type header; the
 * part is found by byte searches, its headers are decoded as UTF-8 and read
 * for a file name and a MIME type, and the payload runs to the next CRLF and
 * boundary or, failing that, is cut by a heuristic trim.
 *
 * Swift counts and searches `String`s by Character. A CR LF pair is one
 * Character, so a lone `"\r"` or `"\n"` search does not stop at a CR LF;
 * the model keeps that rule and treats every other scalar as a Character
 * of its own.
 */
module Multipart {
  import opened Wrappers
  import opened Bytes
  import opened Seqs
  import opened Text
  import opened Paths
  import Utf8

  const Crlf: string := "\r\n"
  const BoundaryKey: string := "boundary="
  const PartHeaderEnd: seq<byte> := [13, 10, 13, 10]
  const DispositionMarker: string := "Content-Disposition: form-data"
  const FileNameKey: string := "filename=\""
  /** Matched against the lower-cased part headers: the search ignores case. */
  const ContentTypeKey: string := "content-type: "
  /** The fallback trim looks at the last `boundary.count + 10` bytes. */
  const TrimSlack: nat := 10

  // ---------------------------------------------------------------- boundary

  /** A request header line that declares a boundary. */
  predicate IsBoundaryLine(line: string) {
    HasPrefix(Lower(line), "content-type:") && Contains(line, BoundaryKey)
  }

  /** The text after the last `boundary=` of the line, without surrounding spaces. */
  function BoundaryValue(line: string): string {
    var pieces := Split(line, BoundaryKey);
    Trim(pieces[|pieces| - 1])
  }

  /** The boundary of the request's first declaring header line. */
  function Boundary(headerString: string): Option<string> {
    BoundaryIn(Split(headerString, Crlf))
  }

  /** The boundary of the first declaring line; none when no line declares one. */
  function BoundaryIn(lines: seq<string>): (r: Option<string>)
    ensures r.None? <==> forall k :: 0 <= k < |lines| ==> !IsBoundaryLine(lines[k])
    ensures r.Some? ==> exists k :: 0 <= k < |lines| && IsBoundaryLine(lines[k]) && r.value == BoundaryValue(lines[k])
  {
    if |lines| == 0 then None
    else if IsBoundaryLine(lines[0]) then Some(BoundaryValue(lines[0]))
    else
      var r := BoundaryIn(lines[1..]);
      assert r.Some? ==> exists k :: 1 <= k < |lines| && IsBoundaryLine(lines[k]) && r.value == BoundaryValue(lines[k]) by {
        if r.Some? {
          var k :| 0 <= k < |lines| - 1 && IsBoundaryLine(lines[1..][k]) && r.value == BoundaryValue(lines[1..][k]);
          assert lines[1..][k] == lines[k + 1];
        }
      }
      r
  }

  /** Lines that declare nothing are passed over. */
  lemma {:induction false} BoundaryInSkips(before: seq<string>, line: string, after: seq<string>)
    requires forall k :: 0 <= k < |before| ==> !IsBoundaryLine(before[k])
    requires IsBoundaryLine(line)
    ensures BoundaryIn(before + [line] + after) == Some(BoundaryValue(line))
  {
    var lines := before + [line] + after;
    if |before| > 0 {
      assert lines[0] == before[0];
      assert lines[1..] == before[1..] + [line] + after;
      BoundaryInSkips(before[1..], line, after);
    } else {
      assert lines[0] == line;
    }
  }

  /** A header block whose first declaring line is `line` yields that line's boundary. */
  lemma BoundaryOfHeaders(before: seq<string>, line: string, after: seq<string>)
    requires forall k :: 0 <= k < |before| ==> !IsBoundaryLine(before[k])
    requires forall k :: 0 <= k < |before| ==> '\r' !in before[k]
    requires forall k :: 0 <= k < |after| ==> '\r' !in after[k]
    requires IsBoundaryLine(line) && '\r' !in line
    ensures Boundary(Join(before + [line] + after, Crlf)) == Some(BoundaryValue(line))
  {
    var lines := before + [line] + after;
    forall k | 0 <= k < |lines|
      ensures Crlf[0] !in lines[k]
    {
      if k < |before| {
        assert lines[k] == before[k];
      } else if k > |before| {
        assert lines[k] == after[k - |before| - 1];
      }
    }
    SplitJoin(lines, Crlf);
    BoundaryInSkips(before, line, after);
  }

  /** A declaration `prefix` + `boundary=` + `b` gives `b` trimmed. */
  lemma BoundaryValueOf(prefix: string, b: string)
    requires BoundaryKey[0] !in prefix && IndexOf(b, BoundaryKey).None?
    ensures BoundaryValue(prefix + BoundaryKey + b) == Trim(b)
  {
    SplitCons(prefix, BoundaryKey, b);
    assert Split(b, BoundaryKey) == [b];
  }

  // ------------------------------------------------------ the part's layout

  /** An occurrence in a suffix is an occurrence in the whole, shifted. */
  lemma OccursInSuffix<T>(s: seq<T>, p: seq<T>, from: nat, j: int)
    requires from <= |s|
    ensures OccursAt(s[from..], p, j) <==> (0 <= j && OccursAt(s, p, from + j))
  {
    if 0 <= j && j + |p| <= |s| - from {
      assert s[from..][j..j + |p|] == s[from + j..from + j + |p|];
    }
  }

  /** Why an upload is refused; `Message` is the text of the error response. */
  datatype UploadError = MissingBoundary | InvalidFormat | InvalidHeaders | InvalidEncoding | MissingFileData

  function Message(e: UploadError): string {
    match e
    case MissingBoundary => "Missing boundary"
    case InvalidFormat => "Invalid multipart format"
    case InvalidHeaders => "Invalid multipart headers"
    case InvalidEncoding => "Invalid header encoding"
    case MissingFileData => "Missing required file data"
  }

  /** Each refusal has a message of its own. */
  lemma MessagesDistinct(e: UploadError, f: UploadError)
    ensures Message(e) == Message(f) <==> e == f
  {
    if e != f {
      assert |Message(e)| != |Message(f)|;
    }
  }

  /** A step of the extractor: its value, or the refusal that ends it. */
  datatype UploadResult<T> = Accepted(value: T) | Refused(reason: UploadError)

  /**
   * The part's headers: from just after the first occurrence of the boundary
   * bytes to the first CRLFCRLF after it.
   */
  function PartHeadersSpan(body: seq<byte>, boundaryBytes: seq<byte>): (r: UploadResult<(nat, nat)>)
    ensures r.Accepted? ==> |boundaryBytes| <= r.value.0 <= r.value.1 && r.value.1 + |PartHeaderEnd| <= |body|
    ensures r.Refused? ==> r.reason == InvalidFormat || r.reason == InvalidHeaders
  {
    match IndexOf(body, boundaryBytes)
    case None => Refused(InvalidFormat)
    case Some(i) =>
      var start := i + |boundaryBytes|;
      match IndexOf(body[start..], PartHeaderEnd)
      case None => Refused(InvalidHeaders)
      case Some(h) => Accepted((start, start + h))
  }

  /** The body is malformed exactly when the boundary bytes are empty or absent. */
  lemma PartHeadersFormat(body: seq<byte>, boundaryBytes: seq<byte>)
    ensures PartHeadersSpan(body, boundaryBytes) == Refused(InvalidFormat) <==>
              (|boundaryBytes| == 0 || forall j :: 0 <= j ==> !OccursAt(body, boundaryBytes, j))
  {
    IndexOfFirst(body, boundaryBytes);
  }

  /** With the boundary found, the headers are malformed exactly when no CRLFCRLF follows it. */
  lemma PartHeadersMissing(body: seq<byte>, boundaryBytes: seq<byte>)
    requires IndexOf(body, boundaryBytes).Some?
    ensures var start := IndexOf(body, boundaryBytes).value + |boundaryBytes|;
            PartHeadersSpan(body, boundaryBytes) == Refused(InvalidHeaders) <==>
              forall j :: start <= j ==> !OccursAt(body, PartHeaderEnd, j)
  {
    var start := IndexOf(body, boundaryBytes).value + |boundaryBytes|;
    var after := body[start..];
    IndexOfFirst(after, PartHeaderEnd);
    if IndexOf(after, PartHeaderEnd).Some? {
      OccursInSuffix(body, PartHeaderEnd, start, IndexOf(after, PartHeaderEnd).value);
    } else {
      forall j | start <= j
        ensures !OccursAt(body, PartHeaderEnd, j)
      {
        OccursInSuffix(body, PartHeaderEnd, start, j - start);
      }
    }
  }

  /** The span starts right after the first boundary and ends at the first CRLFCRLF after that. */
  lemma PartHeadersFirst(body: seq<byte>, boundaryBytes: seq<byte>)
    requires PartHeadersSpan(body, boundaryBytes).Accepted?
    ensures var (start, end) := PartHeadersSpan(body, boundaryBytes).value;
            var i := start - |boundaryBytes|;
            && OccursAt(body, boundaryBytes, i)
            && (forall j :: 0 <= j < i ==> !OccursAt(body, boundaryBytes, j))
            && OccursAt(body, PartHeaderEnd, end)
            && (forall j :: start <= j < end ==> !OccursAt(body, PartHeaderEnd, j))
  {
    IndexOfFirst(body, boundaryBytes);
    var i := IndexOf(body, boundaryBytes).value;
    var start := i + |boundaryBytes|;
    var after := body[start..];
    IndexOfFirst(after, PartHeaderEnd);
    var h := IndexOf(after, PartHeaderEnd).value;
    OccursInSuffix(body, PartHeaderEnd, start, h);
    forall j | start <= j < start + h
      ensures !OccursAt(body, PartHeaderEnd, j)
    {
      OccursInSuffix(body, PartHeaderEnd, start, j - start);
    }
  }

  // ------------------------------------------------------------ the payload

  /** `String.count` when a CR LF pair is one Character. */
  function CharCount(s: string): (r: nat)
    ensures r <= |s|
    ensures |s| > 0 ==> r > 0
  {
    if |s| == 0 then 0
    else if |s| >= 2 && s[0] == '\r' && s[1] == '\n' then 1 + CharCount(s[2..])
    else 1 + CharCount(s[1..])
  }

  /** Without a CR every scalar is one Character. */
  lemma {:induction false} CharCountNoCr(s: string)
    requires '\r' !in s
    ensures CharCount(s) == |s|
  {
    if |s| > 0 {
      assert '\r' !in s[1..] by {
        assert forall k :: 0 <= k < |s| - 1 ==> s[1..][k] == s[k + 1];
      }
      CharCountNoCr(s[1..]);
    }
  }

  /** A `"\n"` Character: an LF that does not end a CR LF pair. */
  predicate IsLoneLf(s: string, i: nat)
    requires i < |s|
  {
    s[i] == '\n' && !(i > 0 && s[i - 1] == '\r')
  }

  /** A `"\r"` Character: a CR that does not start a CR LF pair. */
  predicate IsLoneCr(s: string, i: nat)
    requires i < |s|
  {
    s[i] == '\r' && !(i + 1 < |s| && s[i + 1] == '\n')
  }

  /** `lastIndex(of: "\n")` on the first `end` scalars. */
  function LastLoneLf(s: string, end: nat): (r: Option<nat>)
    requires end <= |s|
    ensures r.Some? ==> r.value < end && IsLoneLf(s, r.value)
    ensures r.Some? ==> forall j :: r.value < j < end ==> !IsLoneLf(s, j)
    ensures r.None? ==> forall j :: 0 <= j < end ==> !IsLoneLf(s, j)
  {
    if end == 0 then None
    else if IsLoneLf(s, end - 1) then Some(end - 1)
    else LastLoneLf(s, end - 1)
  }

  /** `firstIndex(of: "\r")`, scanning from `from`. */
  function FirstLoneCr(s: string, from: nat): (r: Option<nat>)
    requires from <= |s|
    ensures r.Some? ==> from <= r.value < |s| && IsLoneCr(s, r.value)
    ensures r.Some? ==> forall j :: from <= j < r.value ==> !IsLoneCr(s, j)
    ensures r.None? ==> forall j :: from <= j < |s| ==> !IsLoneCr(s, j)
    decreases |s| - from
  {
    if from == |s| then None
    else if IsLoneCr(s, from) then Some(from)
    else FirstLoneCr(s, from + 1)
  }

  /** `firstIndex(of: "\n")`, scanning from `from`. */
  function FirstLoneLf(s: string, from: nat): (r: Option<nat>)
    requires from <= |s|
    ensures r.Some? ==> from <= r.value < |s| && IsLoneLf(s, r.value)
    ensures r.Some? ==> forall j :: from <= j < r.value ==> !IsLoneLf(s, j)
    ensures r.None? ==> forall j :: from <= j < |s| ==> !IsLoneLf(s, j)
    decreases |s| - from
  {
    if from == |s| then None
    else if IsLoneLf(s, from) then Some(from)
    else FirstLoneLf(s, from + 1)
  }

  /**
   * The number of Characters the fallback drops: when the last `count + 10`
   * bytes decode and hold a `-`, everything from the last `"\n"` Character
   * before that dash (or from their start) to the end.
   */
  function TrimLength(data: seq<byte>, count: nat): (r: nat)
    ensures |data| > count + TrimSlack ==> r <= count + TrimSlack
    ensures |data| <= count + TrimSlack ==> r == 0
  {
    if |data| <= count + TrimSlack then 0
    else
      var endPortion := data[|data| - (count + TrimSlack)..];
      match Utf8.Decode(endPortion)
      case None => 0
      case Some(endString) =>
        match LastIndexOf(endString, '-')
        case None => 0
        case Some(dash) =>
          var start := match LastLoneLf(endString, dash) case None => 0 case Some(j) => j;
          CharCount(endString[start..])
  }

  /** The fallback only ever removes a suffix, shorter than the data, of at most `count + 10` bytes. */
  function FallbackTrim(data: seq<byte>, count: nat): (r: seq<byte>)
    ensures HasPrefix(data, r)
    ensures |data| - |r| <= count + TrimSlack
    ensures |r| > 0 <==> |data| > 0
  {
    data[..|data| - TrimLength(data, count)]
  }

  /** The bytes a part's payload would end at, as the source spells it: CR LF and the boundary. */
  function EndPattern(boundary: string): seq<byte> {
    Utf8.Encode(Crlf + boundary)
  }

  /** The payload: up to the first CR LF + boundary, or else what the fallback keeps. */
  function Payload(remaining: seq<byte>, boundary: string): (r: seq<byte>)
    ensures HasPrefix(remaining, r)
  {
    match IndexOf(remaining, EndPattern(boundary))
    case Some(e) => remaining[..e]
    case None => FallbackTrim(remaining, CharCount(boundary))
  }

  /** When the terminator occurs, the payload is everything before its first occurrence. */
  lemma PayloadEndsAtTerminator(data: seq<byte>, boundary: string, tail: seq<byte>)
    requires var s := data + EndPattern(boundary) + tail;
             forall j :: 0 <= j < |data| ==> !OccursAt(s, EndPattern(boundary), j)
    ensures Payload(data + EndPattern(boundary) + tail, boundary) == data
  {
    var p := EndPattern(boundary);
    var s := data + p + tail;
    Utf8.EncodeAppend(Crlf, boundary);
    assert |p| > 0;
    assert s[|data|..|data| + |p|] == p;
    IndexOfIs(s, p, |data|);
    assert s[..|data|] == data;
  }

  /** Without the terminator, the payload is what remains less at most `boundary.count + 10` bytes. */
  lemma PayloadWithoutTerminator(remaining: seq<byte>, boundary: string)
    requires forall j :: 0 <= j ==> !OccursAt(remaining, EndPattern(boundary), j)
    ensures var r := Payload(remaining, boundary);
            && HasPrefix(remaining, r) && |remaining| - |r| <= CharCount(boundary) + TrimSlack
            && (|r| > 0 <==> |remaining| > 0)
  {
    assert IndexOf(remaining, EndPattern(boundary)).None?;
  }

  /**
   * The closing delimiter RFC 2046 section 5.1.1 prescribes, CR LF `--`
   * boundary, is not the source's terminator at its own position unless the
   * boundary is made of dashes only; so a body that ends with it takes the
   * fallback unless the pattern turns up elsewhere.
   */
  lemma DelimiterIsNotTerminator(data: seq<byte>, boundary: string, tail: seq<byte>)
    requires exists k :: 0 <= k < |boundary| && boundary[k] != '-'
    ensures var s := data + Utf8.Encode(Crlf + "--" + boundary) + tail;
            !OccursAt(s, EndPattern(boundary), |data|)
  {
    TerminatorAtDelimiter(data, boundary, tail);
  }

  /** The terminator found where the closing delimiter starts means a boundary of dashes alone. */
  lemma TerminatorAtDelimiter(data: seq<byte>, boundary: string, tail: seq<byte>)
    ensures var s := data + Utf8.Encode(Crlf + "--" + boundary) + tail;
            OccursAt(s, EndPattern(boundary), |data|) ==> forall k :: 0 <= k < |boundary| ==> boundary[k] == '-'
  {
    var bd := Utf8.Encode(boundary);
    var crlf := Utf8.Encode(Crlf);
    DelimiterBytes(boundary);
    var s := data + Utf8.Encode(Crlf + "--" + boundary) + tail;
    assert s == data + (crlf + [45, 45] + bd) + tail;
    if OccursAt(s, crlf + bd, |data|) {
      ShiftedWindow(data, crlf, [45, 45], bd, tail);
      DashPeriodic(bd);
      AllDashesEncode(boundary, bd);
    }
  }

  /** The bytes of the terminator and of the closing delimiter. */
  lemma DelimiterBytes(boundary: string)
    ensures EndPattern(boundary) == Utf8.Encode(Crlf) + Utf8.Encode(boundary)
    ensures Utf8.Encode(Crlf + "--" + boundary) == Utf8.Encode(Crlf) + [45, 45] + Utf8.Encode(boundary)
  {
    Utf8.EncodeAppend(Crlf, boundary);
    Utf8.EncodeAppend(Crlf + "--", boundary);
    Utf8.EncodeAppend(Crlf, "--");
    assert Utf8.Encode("--") == [45, 45] by {
      assert "--"[1..] == "-";
    }
  }

  /** Where `c + d + b` holds `c + b` at its start, `b` agrees with `d + b` position by position. */
  lemma ShiftedWindow<T>(pre: seq<T>, c: seq<T>, d: seq<T>, b: seq<T>, post: seq<T>)
    requires OccursAt(pre + (c + d + b) + post, c + b, |pre|)
    ensures forall m :: 0 <= m < |b| ==> b[m] == (d + b)[m]
  {
    var s := pre + (c + d + b) + post;
    forall m | 0 <= m < |b|
      ensures b[m] == (d + b)[m]
    {
      assert s[|pre| + |c| + m] == (c + b)[|c| + m];
      assert s[|pre| + |c| + m] == (c + d + b)[|c| + m];
    }
  }

  /** A byte string equal, position by position, to itself shifted by two dashes is all dashes. */
  lemma DashPeriodic(bd: seq<byte>)
    requires forall m :: 0 <= m < |bd| ==> bd[m] == ([45, 45] + bd)[m]
    ensures forall m :: 0 <= m < |bd| ==> bd[m] == 45
  {
    forall m | 0 <= m < |bd|
      ensures bd[m] == 45
    {
      DashAt(bd, m);
    }
  }

  lemma {:induction false} DashAt(bd: seq<byte>, m: nat)
    requires forall k :: 0 <= k < |bd| ==> bd[k] == ([45, 45] + bd)[k]
    requires m < |bd|
    ensures bd[m] == 45
    decreases m
  {
    if m >= 2 {
      DashAt(bd, m - 2);
      assert bd[m] == ([45, 45] + bd)[m];
    } else {
      assert bd[m] == ([45, 45] + bd)[m];
    }
  }

  /** A text whose UTF-8 bytes are all dashes is all dashes. */
  lemma {:induction false} AllDashesEncode(boundary: string, bd: seq<byte>)
    requires bd == Utf8.Encode(boundary)
    requires forall m :: 0 <= m < |bd| ==> bd[m] == 45
    ensures forall k :: 0 <= k < |boundary| ==> boundary[k] == '-'
  {
    if |boundary| > 0 {
      var head := Utf8.EncodeChar(boundary[0]);
      assert bd == head + Utf8.Encode(boundary[1..]);
      assert bd[0] == head[0];
      LeadByte(boundary[0]);
      assert boundary[0] as int == 45;
      var rest := Utf8.Encode(boundary[1..]);
      assert forall m :: 0 <= m < |rest| ==> rest[m] == bd[|head| + m];
      AllDashesEncode(boundary[1..], rest);
      assert forall k :: 1 <= k < |boundary| ==> boundary[k] == boundary[1..][k - 1];
    }
  }

  /** A character of one or more bytes starts with a byte that says so: below 0x80 only for ASCII. */
  lemma LeadByte(c: char)
    ensures c as int < 0x80 ==> Utf8.EncodeChar(c) == [c as int as byte]
    ensures c as int >= 0x80 ==> Utf8.EncodeChar(c)[0] as int >= 0xC0
  {
  }

  // --------------------------------------------------------- the part headers

  /** The text between `filename="` and the next `"`. */
  function FileNameIn(partHeaders: string): (r: Option<string>)
    ensures r.Some? ==> '"' !in r.value
  {
    match IndexOf(partHeaders, FileNameKey)
    case None => None
    case Some(k) =>
      var from := partHeaders[k + |FileNameKey|..];
      match FirstIndexOf(from, '"')
      case None => None
      case Some(q) => Some(from[..q])
  }

  /** A name written as `filename="name"` after the first `filename="` is read back. */
  lemma FileNameOf(prefix: string, name: string, suffix: string)
    requires IndexOf(prefix + FileNameKey, FileNameKey) == Some(|prefix|)
    requires '"' !in name
    ensures FileNameIn(prefix + FileNameKey + name + "\"" + suffix) == Some(name)
  {
    var s := prefix + FileNameKey + name + "\"" + suffix;
    IndexOfExtend(prefix + FileNameKey, name + "\"" + suffix, FileNameKey);
    assert s == (prefix + FileNameKey) + (name + "\"" + suffix);
    var from := s[|prefix| + |FileNameKey|..];
    assert from == name + "\"" + suffix;
    assert from[|name|] == '"';
    assert from[..|name|] == name;
  }

  /** A first occurrence stays the first occurrence when more follows. */
  lemma IndexOfExtend<T>(a: seq<T>, b: seq<T>, p: seq<T>)
    requires IndexOf(a, p).Some?
    ensures IndexOf(a + b, p) == IndexOf(a, p)
  {
    var i := IndexOf(a, p).value;
    IndexOfFirst(a, p);
    assert (a + b)[i..i + |p|] == a[i..i + |p|];
    forall j | 0 <= j < i
      ensures !OccursAt(a + b, p, j)
    {
      assert !OccursAt(a, p, j);
      assert (a + b)[j..j + |p|] == a[j..j + |p|];
    }
    IndexOfIs(a + b, p, i);
  }

  /**
   * The declared MIME type: after the first `Content-Type: ` in any case, up
   * to a `"\r"` Character, else a `"\n"` Character, else the trimmed rest.
   */
  function MimeTypeIn(partHeaders: string): (r: Option<string>)
    ensures r.Some? ==> IndexOf(Lower(partHeaders), ContentTypeKey).Some?
  {
    match IndexOf(Lower(partHeaders), ContentTypeKey)
    case None => None
    case Some(k) => Some(MimeValue(partHeaders[k + |ContentTypeKey|..]))
  }

  /** The value after the key: cut at the first lone CR, else the first lone LF, else trimmed. */
  function MimeValue(rest: string): string {
    match FirstLoneCr(rest, 0)
    case Some(e) => rest[..e]
    case None =>
      match FirstLoneLf(rest, 0)
      case Some(e) => rest[..e]
      case None => TrimNewlines(rest)
  }

  /** What follows the first key is what the value is read from. */
  lemma MimeTypeAfter(prefix: string, tail: string)
    requires IndexOf(Lower(prefix + ContentTypeKey), ContentTypeKey) == Some(|prefix|)
    ensures MimeTypeIn(prefix + ContentTypeKey + tail) == Some(MimeValue(tail))
  {
    var s := prefix + ContentTypeKey + tail;
    assert s == (prefix + ContentTypeKey) + tail;
    LowerAppend(prefix + ContentTypeKey, tail);
    IndexOfExtend(Lower(prefix + ContentTypeKey), Lower(tail), ContentTypeKey);
    assert s[|prefix| + |ContentTypeKey|..] == tail;
  }

  /** A value holding neither a `"\r"` nor a `"\n"` Character is only trimmed. */
  lemma MimeValueUnbroken(rest: string)
    requires forall j :: 0 <= j < |rest| ==> !IsLoneCr(rest, j) && !IsLoneLf(rest, j)
    ensures MimeValue(rest) == TrimNewlines(rest)
  {
  }

  /** A Content-Type written last in the part headers is read back whole. */
  lemma MimeTypeLast(prefix: string, mime: string)
    requires IndexOf(Lower(prefix + ContentTypeKey), ContentTypeKey) == Some(|prefix|)
    requires '\r' !in mime && '\n' !in mime
    requires |mime| > 0 && !IsWhitespaceOrNewline(mime[0]) && !IsWhitespaceOrNewline(mime[|mime| - 1])
    ensures MimeTypeIn(prefix + ContentTypeKey + mime) == Some(mime)
  {
    MimeTypeAfter(prefix, mime);
    forall j | 0 <= j < |mime|
      ensures !IsLoneCr(mime, j) && !IsLoneLf(mime, j)
    {
    }
    MimeValueUnbroken(mime);
    TrimWithFixed(mime, IsWhitespaceOrNewline);
  }

  /**
   * A Content-Type followed by CR LF and a further header line is not cut at
   * the CR LF: its value runs on to the end of the part headers.
   */
  lemma MimeTypeRunsOn(prefix: string, mime: string, more: string)
    requires IndexOf(Lower(prefix + ContentTypeKey), ContentTypeKey) == Some(|prefix|)
    requires '\r' !in mime && '\n' !in mime && '\r' !in more && '\n' !in more
    ensures MimeTypeIn(prefix + ContentTypeKey + mime + Crlf + more)
            == Some(TrimNewlines(mime + Crlf + more))
  {
    var tail := mime + Crlf + more;
    assert prefix + ContentTypeKey + mime + Crlf + more == prefix + ContentTypeKey + tail;
    MimeTypeAfter(prefix, tail);
    CrlfUnbroken(mime, more);
    MimeValueUnbroken(tail);
  }

  /** Two lines joined by CR LF hold no `"\r"` and no `"\n"` Character. */
  lemma CrlfUnbroken(a: string, b: string)
    requires '\r' !in a && '\n' !in a && '\r' !in b && '\n' !in b
    ensures var s := a + Crlf + b;
            forall j :: 0 <= j < |s| ==> !IsLoneCr(s, j) && !IsLoneLf(s, j)
  {
    var s := a + Crlf + b;
    forall j | 0 <= j < |s|
      ensures !IsLoneCr(s, j) && !IsLoneLf(s, j)
    {
      if j < |a| {
        assert s[j] == a[j];
      } else if j > |a| + 1 {
        assert s[j] == b[j - |a| - 2];
      }
    }
  }

  lemma LowerAppend(a: string, b: string)
    ensures Lower(a + b) == Lower(a) + Lower(b)
  {
  }

  // ------------------------------------------------------ MIME inference

  /** The inference switch, applied to the lower-cased extension, in its order. */
  const UploadExtensions: seq<string> := ["png", "jpg", "jpeg", "gif", "pdf", "txt", "zip"]
  const UploadTypes: seq<string> :=
    ["image/png", "image/jpeg", "image/jpeg", "image/gif", "application/pdf", "text/plain", "application/zip"]

  /** The inferred type of an extension; anything the switch does not list is a byte stream. */
  function UploadMimeFor(ext: string): (r: string)
    ensures r != ""
  {
    assert forall i :: 0 <= i < |UploadTypes| ==> |UploadTypes[i]| > 0;
    Lookup(UploadExtensions, UploadTypes, ext, "application/octet-stream")
  }

  /** Exactly the seven listed extensions get a specific type; every other one is a byte stream. */
  lemma UploadMimeKnown(ext: string)
    ensures UploadMimeFor(ext) != "application/octet-stream" <==> ext in UploadExtensions
  {
    assert forall k :: 0 <= k < |UploadTypes| ==> |UploadTypes[k]| < 24;
  }

  /** A missing or empty declared type is inferred from the file name, when there is one. */
  function InferredMime(declared: Option<string>, fileName: Option<string>): (r: Option<string>)
    ensures fileName.Some? ==> r.Some? && r.value != ""
    ensures fileName.None? ==> r == declared
    ensures declared.Some? && declared.value != "" ==> r == declared
  {
    if (declared.None? || declared.value == "") && fileName.Some? then
      Some(UploadMimeFor(Lower(PathExtension(fileName.value))))
    else declared
  }

  /** A name `base.ext` with no declared type gets the table's type for the lower-cased `ext`. */
  lemma InferredFromExtension(base: string, ext: string)
    requires |base| > 0 && base[|base| - 1] != '/'
    requires '.' !in ext && '/' !in ext
    ensures InferredMime(None, Some(base + "." + ext)) == Some(UploadMimeFor(Lower(ext)))
    ensures InferredMime(Some(""), Some(base + "." + ext)) == Some(UploadMimeFor(Lower(ext)))
  {
    PathExtensionOf(base, ext);
  }

  // ------------------------------------------------------------- the upload

  /** What the extractor hands to the file store. */
  datatype Upload = Upload(originalName: string, mimeType: string, data: seq<byte>)

  /** `processBinaryUpload` up to the call that stores the file. */
  function ProcessBinaryUpload(body: seq<byte>, headerString: string): (r: UploadResult<Upload>)
    ensures Boundary(headerString).None? <==> r == Refused(MissingBoundary)
    ensures r.Accepted? ==> r.value.mimeType != "" && |r.value.data| > 0
  {
    match Boundary(headerString)
    case None => Refused(MissingBoundary)
    case Some(boundary) => UploadWith(body, boundary)
  }

  /** The steps after the boundary is known. */
  function UploadWith(body: seq<byte>, boundary: string): (r: UploadResult<Upload>)
    ensures r.Refused? ==> r.reason != MissingBoundary
    ensures PartHeadersSpan(body, Utf8.Encode(boundary)).Refused? ==> r == Refused(PartHeadersSpan(body, Utf8.Encode(boundary)).reason)
    ensures PartHeadersSpan(body, Utf8.Encode(boundary)).Accepted? ==> r == UploadAt(body, PartHeadersSpan(body, Utf8.Encode(boundary)).value, boundary)
  {
    match PartHeadersSpan(body, Utf8.Encode(boundary))
    case Refused(e) => Refused(e)
    case Accepted(span) => UploadAt(body, span, boundary)
  }

  /** The steps after the part's headers are found between `span.0` and `span.1`. */
  function UploadAt(body: seq<byte>, span: (nat, nat), boundary: string): (r: UploadResult<Upload>)
    requires span.0 <= span.1 && span.1 + |PartHeaderEnd| <= |body|
    ensures r.Refused? ==> r.reason == InvalidEncoding || r.reason == MissingFileData
    ensures r.Accepted? ==> r.value.mimeType != "" && |r.value.data| > 0
    ensures r.Accepted? ==> r.value.data == Payload(body[span.1 + |PartHeaderEnd|..], boundary)
    ensures Utf8.Decode(body[span.0..span.1]).None? <==> r == Refused(InvalidEncoding)
    ensures Utf8.Decode(body[span.0..span.1]).Some? ==>
              (r == Refused(MissingFileData) <==>
                 !HasFileName(Utf8.Decode(body[span.0..span.1]).value) || |Payload(body[span.1 + |PartHeaderEnd|..], boundary)| == 0)
  {
    match Utf8.Decode(body[span.0..span.1])
    case None => Refused(InvalidEncoding)
    case Some(partHeaders) => PartUpload(partHeaders, body[span.1 + |PartHeaderEnd|..], boundary)
  }

  /**
   * The file part, once its headers are decoded: a file name and a payload
   * are required, and a file name always brings a MIME type.
   */
  function PartUpload(partHeaders: string, remaining: seq<byte>, boundary: string): (r: UploadResult<Upload>)
    ensures r.Refused? <==> !HasFileName(partHeaders) || |Payload(remaining, boundary)| == 0
    ensures r.Refused? ==> r == Refused(MissingFileData)
    ensures r.Accepted? ==>
              && r.value.mimeType != "" && r.value.data == Payload(remaining, boundary)
              && Some(r.value.originalName) == FileNameIn(partHeaders)
  {
    var described := Contains(partHeaders, DispositionMarker);
    var fileName := if described then FileNameIn(partHeaders) else None;
    var declared := if described then MimeTypeIn(partHeaders) else None;
    var mime := InferredMime(declared, fileName);
    var data := Payload(remaining, boundary);
    if fileName.Some? && mime.Some? && |data| > 0 then Accepted(Upload(fileName.value, mime.value, data))
    else Refused(MissingFileData)
  }

  lemma PartUploadData(partHeaders: string, remaining: seq<byte>, boundary: string)
    requires PartUpload(partHeaders, remaining, boundary).Accepted?
    ensures PartUpload(partHeaders, remaining, boundary).value.data == Payload(remaining, boundary)
  {
  }

  /** The part declares form data and a file name. */
  predicate HasFileName(partHeaders: string) {
    Contains(partHeaders, DispositionMarker) && FileNameIn(partHeaders).Some?
  }

  /** With the boundary `b`, a body without its bytes, or an empty boundary, is refused as malformed. */
  lemma UploadFormatRejection(body: seq<byte>, headerString: string, b: string)
    requires Boundary(headerString) == Some(b)
    ensures ProcessBinaryUpload(body, headerString) == Refused(InvalidFormat) <==>
              (|Utf8.Encode(b)| == 0 || forall j :: 0 <= j ==> !OccursAt(body, Utf8.Encode(b), j))
  {
    UploadSpan(body, headerString);
    PartHeadersFormat(body, Utf8.Encode(b));
    SpanRefusal(body, b);
  }

  /** With the boundary found at `i`, no CRLFCRLF after it refuses the headers. */
  lemma UploadHeadersRejection(body: seq<byte>, headerString: string, b: string, i: nat)
    requires Boundary(headerString) == Some(b)
    requires IndexOf(body, Utf8.Encode(b)) == Some(i)
    ensures ProcessBinaryUpload(body, headerString) == Refused(InvalidHeaders) <==>
              forall j :: i + |Utf8.Encode(b)| <= j ==> !OccursAt(body, PartHeaderEnd, j)
  {
    UploadSpan(body, headerString);
    PartHeadersMissing(body, Utf8.Encode(b));
    SpanRefusal(body, b);
  }

  /** The span's refusals pass through unchanged, and only the span produces them. */
  lemma SpanRefusal(body: seq<byte>, b: string)
    ensures var r := UploadWith(body, b);
            var span := PartHeadersSpan(body, Utf8.Encode(b));
            (r == Refused(InvalidFormat) <==> span == Refused(InvalidFormat))
            && (r == Refused(InvalidHeaders) <==> span == Refused(InvalidHeaders))
  {
    var span := PartHeadersSpan(body, Utf8.Encode(b));
    if span.Accepted? {
      var r := UploadAt(body, span.value, b);
      assert r.Refused? ==> r.reason == InvalidEncoding || r.reason == MissingFileData;
    }
  }

  /** Once the span is found, headers that are not UTF-8 are refused, and only they. */
  lemma UploadEncodingRejection(body: seq<byte>, headerString: string, b: string, span: (nat, nat))
    requires Boundary(headerString) == Some(b)
    requires PartHeadersSpan(body, Utf8.Encode(b)) == Accepted(span)
    ensures ProcessBinaryUpload(body, headerString) == Refused(InvalidEncoding) <==>
              Utf8.Decode(body[span.0..span.1]).None?
  {
    UploadSpan(body, headerString);
  }

  /**
   * With the boundary `b`, the span and the decoded part headers in hand,
   * headers without a file name, or an empty payload, are refused, and only they.
   */
  lemma UploadFileDataRejection(body: seq<byte>, headerString: string, b: string, span: (nat, nat), partHeaders: string)
    requires Boundary(headerString) == Some(b)
    requires PartHeadersSpan(body, Utf8.Encode(b)) == Accepted(span)
    requires Utf8.Decode(body[span.0..span.1]) == Some(partHeaders)
    ensures ProcessBinaryUpload(body, headerString) == Refused(MissingFileData) <==>
              !HasFileName(partHeaders) || |Payload(body[span.1 + |PartHeaderEnd|..], b)| == 0
  {
    UploadSpan(body, headerString);
  }

  /**
   * An accepted upload's bytes start right after the first CRLFCRLF that
   * follows the first boundary, and are a prefix of the rest of the body:
   * all of it up to the first CR LF + boundary when that occurs, and all but
   * at most `boundary.count + 10` bytes otherwise.
   */
  lemma UploadLayout(body: seq<byte>, headerString: string)
    requires ProcessBinaryUpload(body, headerString).Accepted?
    ensures exists i: nat, h: nat ::
              LayoutAt(body, Boundary(headerString).value, ProcessBinaryUpload(body, headerString).value.data, i, h)
  {
    UploadSpan(body, headerString);
    UploadWithLayout(body, Boundary(headerString).value);
  }

  lemma UploadWithLayout(body: seq<byte>, b: string)
    requires UploadWith(body, b).Accepted?
    ensures exists i: nat, h: nat :: LayoutAt(body, b, UploadWith(body, b).value.data, i, h)
  {
    var bd := Utf8.Encode(b);
    var span := PartHeadersSpan(body, bd).value;
    var data := UploadWith(body, b).value.data;
    var remaining := body[span.1 + |PartHeaderEnd|..];
    PartHeadersFirst(body, bd);
    PayloadBounds(remaining, b);
    var i: nat := span.0 - |bd|;
    var h: nat := span.1;
    assert LayoutAt(body, b, data, i, h);
  }

  /**
   * The first occurrence of the boundary bytes is at `i`, the first CRLFCRLF
   * after it at `h`, and `data` is the payload of what follows.
   */
  ghost predicate LayoutAt(body: seq<byte>, b: string, data: seq<byte>, i: nat, h: nat) {
    var bd := Utf8.Encode(b);
    && OccursAt(body, bd, i) && (forall j :: 0 <= j < i ==> !OccursAt(body, bd, j))
    && i + |bd| <= h && OccursAt(body, PartHeaderEnd, h)
    && (forall j :: i + |bd| <= j < h ==> !OccursAt(body, PartHeaderEnd, j))
    && PayloadOf(body[h + |PartHeaderEnd|..], b, data)
  }

  /** An accepted upload had a boundary, and what followed decided it. */
  lemma UploadSpan(body: seq<byte>, headerString: string)
    requires ProcessBinaryUpload(body, headerString).Accepted? || Boundary(headerString).Some?
    ensures Boundary(headerString).Some?
    ensures UploadWith(body, Boundary(headerString).value) == ProcessBinaryUpload(body, headerString)
  {
  }

  /** What the payload is, in terms of the terminator's first occurrence. */
  predicate PayloadOf(remaining: seq<byte>, boundary: string, data: seq<byte>) {
    && HasPrefix(remaining, data)
    && (IndexOf(remaining, EndPattern(boundary)).Some? ==> |data| == IndexOf(remaining, EndPattern(boundary)).value)
    && (IndexOf(remaining, EndPattern(boundary)).None? ==> |remaining| - |data| <= CharCount(boundary) + TrimSlack)
  }

  lemma PayloadBounds(remaining: seq<byte>, boundary: string)
    ensures PayloadOf(remaining, boundary, Payload(remaining, boundary))
  {
  }
}
