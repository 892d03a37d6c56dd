/** What the reader makes of any bytes. */
module WarcReader {
  import opened Wrappers
  import opened Bytes
  import Utf8
  import Decimal
  import opened Text
  import opened WarcFormat

  datatype WarcError =
    | InvalidUtf8
    | UnknownVersion
    | HeaderWithoutColon
    | NoContentLength
    | BadContentLength
    | MetadataTooLarge
    | UnexpectedEnd
    | InvalidRecordEnding
    | NoTargetUrl
    | InvalidHttpBody
    | MalformedExtension
    | ExtensionTooLarge
    | InvalidExtension
    | DuplicateFetchTime
    | BadFetchTime
    | NoFetchTime
    | Duplicate

  /** The length of the first line, with its line feed. */
  function LineLength(bs: seq<byte>): (n: nat)
    ensures n <= |bs| && (bs != [] ==> n > 0)
  {
    if bs == [] then 0 else if bs[0] == 10 then 1 else 1 + LineLength(bs[1..])
  }

  /** The first line as text, if it is UTF-8. */
  function FirstLine(bs: seq<byte>): Option<string> {
    Utf8.DecodeString(bs[..LineLength(bs)])
  }

  function AfterLine(bs: seq<byte>): seq<byte> {
    bs[LineLength(bs)..]
  }

  // ----- raw records -----

  type Header = map<string, string>

  /** One header line; none without a colon. */
  function ParseField(line: string): Option<(string, string)> {
    var split := SplitChar(line, ':');
    if split.None? then None
    else
      var v0 := split.value.1;
      var v1 := if StripSuffix(v0, "\r\n").Some? then StripSuffix(v0, "\r\n").value
                else if StripSuffix(v0, "\n").Some? then StripSuffix(v0, "\n").value
                else v0;
      var v2 := if StripPrefix(v1, " ").Some? then StripPrefix(v1, " ").value else v1;
      Some((Upper(split.value.0), v2))
  }

  type Parsed<T> = (Result<T, WarcError>, seq<byte>)

  /** Header lines up to a blank one or the end, added to `header`. */
  function ParseHeader(bs: seq<byte>, header: Header): Parsed<Header>
    decreases |bs|
  {
    var line := FirstLine(bs);
    var rest := AfterLine(bs);
    if line.None? then (Err(InvalidUtf8), rest)
    else if line.value == "\r\n" || bs == [] then (Ok(header), rest)
    else
      var field := ParseField(line.value);
      if field.None? then (Err(HeaderWithoutColon), rest)
      else ParseHeader(rest, header[field.value.0 := field.value.1])
  }

  datatype RawWarc = RawWarc(header: Header, content: seq<byte>)

  predicate IsMetadata(header: Header) {
    "WARC-TYPE" in header && header["WARC-TYPE"] == "metadata"
  }

  /** What follows an oversized metadata record of `n` bytes. */
  function Drained(bs: seq<byte>, n: nat): seq<byte> {
    if |bs| < n || |bs| < n + 4 then [] else bs[n + 4..]
  }

  /** The content announced by `header` and the two line ends after it. */
  function ParseContent(header: Header, bs: seq<byte>): Parsed<RawWarc> {
    if "CONTENT-LENGTH" !in header then (Err(NoContentLength), bs)
    else
      var length := Decimal.Parse(header["CONTENT-LENGTH"], U64_SIZE);
      if length.None? then (Err(BadContentLength), bs)
      else
        var n := length.value;
        if IsMetadata(header) && n > MAX_METADATA_RECORD_BYTES then (Err(MetadataTooLarge), Drained(bs, n))
        else if |bs| < n + 4 then (Err(UnexpectedEnd), [])
        else if bs[n..n + 4] != [13, 10, 13, 10] then (Err(InvalidRecordEnding), bs[n + 4..])
        else (Ok(RawWarc(header, bs[..n])), bs[n + 4..])
  }

  /** The next raw record; none at the end of the stream or if the first line is not UTF-8. */
  function NextRaw(bs: seq<byte>): (Option<Result<RawWarc, WarcError>>, seq<byte>) {
    var version := FirstLine(bs);
    var rest := AfterLine(bs);
    if version.None? || bs == [] then (None, rest)
    else if !("WARC/1." <= Upper(TrimEnd(version.value))) then (Some(Err(UnknownVersion)), rest)
    else
      var header := ParseHeader(rest, map[]);
      if header.0.Err? then (Some(Err(header.0.error)), header.1)
      else
        var raw := ParseContent(header.0.value, header.1);
        (Some(raw.0), raw.1)
  }

  // ----- the three parts of a record -----

  function Field(raw: RawWarc, key: string): Option<string> {
    if key in raw.header then Some(raw.header[key]) else None
  }

  function RequestOf<Date, Doc>(f: Formats<Date, Doc>, raw: RawWarc): Result<Request<Date>, WarcError> {
    var url := Field(raw, "WARC-TARGET-URI");
    var date := Field(raw, "WARC-DATE");
    if url.None? then Err(NoTargetUrl)
    else Ok(Request(url.value, if date.None? then None else f.parseDate(date.value)))
  }

  function ResponseOf<Date, Doc>(f: Formats<Date, Doc>, raw: RawWarc): Result<Response, WarcError> {
    var utf8 := Utf8.DecodeString(raw.content);
    var text := if utf8.Some? then utf8.value else f.detect(raw.content);
    var split := SplitOnce(text, "\r\n\r\n");
    var payload := Field(raw, "WARC-IDENTIFIED-PAYLOAD-TYPE");
    if split.None? then Err(InvalidHttpBody)
    else Ok(Response(split.value.1, if payload.None? then None else PayloadOf(payload.value)))
  }

  /** A line without its line end. */
  function Chomp(line: string): string {
    if line != "" && line[|line| - 1] == '\n' then
      if |line| >= 2 && line[|line| - 2] == '\r' then line[..|line| - 2] else line[..|line| - 1]
    else line
  }

  const MARKER := "avaDocumentV1"

  function DocumentOf<Date, Doc>(f: Formats<Date, Doc>, value: string): Result<Doc, WarcError> {
    if |Raw(value)| > MAX_AVA_DOCUMENT_BYTES then Err(ExtensionTooLarge)
    else
      var doc := f.parseDoc(value);
      if doc.None? then Err(MalformedExtension)
      else if !f.validDoc(doc.value) then Err(InvalidExtension)
      else Ok(doc.value)
  }

  /** What has been found in the metadata so far. */
  datatype Found<Doc> = Found(fetchTimeMs: Option<nat>, document: Option<Doc>)

  function MetadataLine<Date, Doc>(f: Formats<Date, Doc>, line: string, found: Found<Doc>): Result<Found<Doc>, WarcError> {
    if MARKER <= TrimStart(line) then
      var value := StripPrefix(TrimStart(line), "avaDocumentV1:");
      if value.None? || found.document.Some? then Err(MalformedExtension)
      else
        var doc := DocumentOf(f, TrimSpaces(value.value));
        if doc.Err? then Err(doc.error) else Ok(found.(document := Some(doc.value)))
    else
      var split := SplitChar(line, ':');
      if split.None? || split.value.0 != "fetchTimeMs" then Ok(found)
      else if found.fetchTimeMs.Some? then Err(DuplicateFetchTime)
      else
        var n := Decimal.Parse(TrimEnd(TrimStart(split.value.1)), U64_SIZE);
        if n.None? then Err(BadFetchTime) else Ok(found.(fetchTimeMs := n))
  }

  function MetadataLines<Date, Doc>(f: Formats<Date, Doc>, bs: seq<byte>, found: Found<Doc>): Result<Found<Doc>, WarcError>
    decreases |bs|
  {
    if bs == [] then Ok(found)
    else
      var line := FirstLine(bs);
      if line.None? then Err(InvalidUtf8)
      else
        var next := MetadataLine(f, Chomp(line.value), found);
        if next.Err? then next else MetadataLines(f, AfterLine(bs), next.value)
  }

  function MetadataOf<Date, Doc>(f: Formats<Date, Doc>, raw: RawWarc): Result<Metadata<Doc>, WarcError> {
    if |raw.content| > MAX_METADATA_RECORD_BYTES then Err(MetadataTooLarge)
    else
      var found := MetadataLines(f, raw.content, Found(None, None));
      if found.Err? then Err(found.error)
      else if found.value.fetchTimeMs.None? then Err(NoFetchTime)
      else Ok(Metadata(found.value.fetchTimeMs.value, found.value.document))
  }

  // ----- whole records -----

  /** The parts of a record seen so far. */
  datatype Parts<Date, Doc> =
    Parts(request: Option<Request<Date>>, response: Option<Response>, metadata: Option<Metadata<Doc>>)

  predicate Complete<Date, Doc>(p: Parts<Date, Doc>) {
    p.request.Some? && p.response.Some? && p.metadata.Some?
  }

  /** A content type that says the content is something else. */
  predicate Foreign(raw: RawWarc, expected: string) {
    "CONTENT-TYPE" in raw.header && !(expected <= raw.header["CONTENT-TYPE"])
  }

  function AddPart<Date, Doc>(f: Formats<Date, Doc>, raw: RawWarc, p: Parts<Date, Doc>): Result<Parts<Date, Doc>, WarcError> {
    var kind := Field(raw, "WARC-TYPE");
    if kind == Some("request") then
      if p.request.Some? then Err(Duplicate)
      else
        var r := RequestOf(f, raw);
        if r.Err? then Err(r.error) else Ok(p.(request := Some(r.value)))
    else if kind == Some("response") || kind == Some("revisit") then
      if Foreign(raw, "application/http") then Ok(p)
      else if p.response.Some? then Err(Duplicate)
      else
        var r := ResponseOf(f, raw);
        if r.Err? then Err(r.error) else Ok(p.(response := Some(r.value)))
    else if kind == Some("metadata") then
      if Foreign(raw, "application/warc-fields") then Ok(p)
      else if p.metadata.Some? then Err(Duplicate)
      else
        var r := MetadataOf(f, raw);
        if r.Err? then Err(r.error) else Ok(p.(metadata := Some(r.value)))
    else Ok(p)
  }

  type Item<Date, Doc> = Option<Result<Record<Date, Doc>, WarcError>>

  /** What the parts make once no more are read: an incomplete record ends the iteration. */
  function Finish<Date, Doc>(p: Parts<Date, Doc>): Item<Date, Doc> {
    if Complete(p) then Some(Ok(Record(p.request.value, p.response.value, p.metadata.value))) else None
  }

  lemma NextRawShrinks(bs: seq<byte>)
    ensures NextRaw(bs).0.Some? ==> |NextRaw(bs).1| < |bs|
  {
    hide Utf8.DecodeString, Upper, TrimEnd, ParseHeader, Decimal.Parse, IsMetadata;
    if bs != [] {
      HeaderShrinks(AfterLine(bs), map[]);
    }
  }

  lemma {:induction false} HeaderShrinks(bs: seq<byte>, header: Header)
    ensures |ParseHeader(bs, header).1| <= |bs|
    decreases |bs|
  {
    hide Utf8.DecodeString, ParseField;
    if bs != [] && FirstLine(bs).Some? && FirstLine(bs).value != "\r\n" && ParseField(FirstLine(bs).value).Some? {
      var field := ParseField(FirstLine(bs).value).value;
      HeaderShrinks(AfterLine(bs), header[field.0 := field.1]);
    }
  }

  /** Reads raw records until the parts `p` are complete. */
  function Collect<Date, Doc>(f: Formats<Date, Doc>, bs: seq<byte>, p: Parts<Date, Doc>): (Item<Date, Doc>, seq<byte>)
    decreases |bs|
  {
    var (raw, rest) := NextRaw(bs);
    NextRawShrinks(bs);
    if raw.None? then (Finish(p), rest)
    else if raw.value.Err? then (Some(Err(raw.value.error)), rest)
    else
      var next := AddPart(f, raw.value.value, p);
      if next.Err? then (Some(Err(next.error)), rest)
      else if Complete(next.value) then (Finish(next.value), rest)
      else Collect(f, rest, next.value)
  }

  function NoParts<Date, Doc>(): Parts<Date, Doc> {
    Parts(None, None, None)
  }

  /** All items from a stream whose first record has been skipped. */
  function Items<Date, Doc>(f: Formats<Date, Doc>, bs: seq<byte>): seq<Result<Record<Date, Doc>, WarcError>>
    decreases |bs|
  {
    var (item, rest) := Collect(f, bs, NoParts());
    CollectShrinks(f, bs, NoParts());
    if item.None? then [] else [item.value] + Items(f, rest)
  }

  lemma {:induction false} CollectShrinks<Date, Doc>(f: Formats<Date, Doc>, bs: seq<byte>, p: Parts<Date, Doc>)
    ensures |Collect(f, bs, p).1| <= |bs|
    ensures !Complete(p) && Collect(f, bs, p).0.Some? ==> |Collect(f, bs, p).1| < |bs|
    decreases |bs|
  {
    var (raw, rest) := NextRaw(bs);
    NextRawShrinks(bs);
    if raw.Some? && raw.value.Ok? {
      var next := AddPart(f, raw.value.value, p);
      if next.Ok? && !Complete(next.value) {
        CollectShrinks(f, rest, next.value);
      }
    }
  }

  /** All items of a file. Nothing is yielded if the first record is missing or broken. */
  function ReadAll<Date, Doc>(f: Formats<Date, Doc>, bs: seq<byte>): seq<Result<Record<Date, Doc>, WarcError>> {
    var (info, rest) := NextRaw(bs);
    if info.None? || info.value.Err? then [] else Items(f, rest)
  }
}
