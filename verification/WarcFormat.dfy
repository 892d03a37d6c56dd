/**
  Records of web captures and the bytes that the writer makes of them.

  Compression is left out: the stream is the plain bytes. Dates and ingestion documents have their
  own text formats, which enter as functions.
 */
module WarcFormat {
  import opened Wrappers
  import opened Bytes
  import Utf8
  import Decimal

  datatype PayloadType = Html | Pdf | Rss | Atom

  function PayloadName(p: PayloadType): string {
    match p
    case Html => "text/html"
    case Pdf => "application/pdf"
    case Rss => "application/rss"
    case Atom => "application/atom"
  }

  function PayloadOf(s: string): Option<PayloadType> {
    if s == "application/html" || s == "text/html" then Some(Html)
    else if s == "application/pdf" then Some(Pdf)
    else if s == "application/rss" || s == "application/rss+xml" then Some(Rss)
    else if s == "application/atom" || s == "application/atom+xml" then Some(Atom)
    else None
  }

  datatype Request<Date> = Request(url: string, date: Option<Date>)
  datatype Response = Response(body: string, payloadType: Option<PayloadType>)
  datatype Metadata<Doc> = Metadata(fetchTimeMs: nat, document: Option<Doc>)
  datatype Record<Date, Doc> = Record(request: Request<Date>, response: Response, metadata: Metadata<Doc>)

  /** The text formats of dates and documents, and the fallback for bodies that are not UTF-8. */
  datatype Formats<!Date, !Doc> = Formats(
    printDate: Date -> string,
    parseDate: string -> Option<Date>,
    printDoc: Doc -> string,
    parseDoc: string -> Option<Doc>,
    validDoc: Doc -> bool,
    detect: seq<byte> -> string)

  /** Dates print on one line and parse back; a valid document prints as one line of JSON and parses back. */
  ghost predicate Faithful<Date(!new), Doc(!new)>(f: Formats<Date, Doc>) {
    && (forall d :: f.parseDate(f.printDate(d)) == Some(d) && '\n' !in f.printDate(d))
    && (forall x :: f.validDoc(x) ==>
          var s := f.printDoc(x);
          f.parseDoc(s) == Some(x) && '\n' !in s && |s| >= 2 && s[0] == '{' && s[|s| - 1] == '}')
  }

  const MAX_METADATA_RECORD_BYTES := 1_048_576
  const MAX_AVA_DOCUMENT_BYTES := 262_144

  function Raw(s: string): seq<byte> {
    Utf8.EncodeString(s)
  }

  /** The lines of a header. */
  function HeaderLines(fields: seq<(string, string)>): string {
    if fields == [] then "" else fields[0].0 + ": " + fields[0].1 + "\r\n" + HeaderLines(fields[1..])
  }

  /** A raw record: version, header, blank line, content, two line ends. */
  function RawRecord(fields: seq<(string, string)>, content: seq<byte>): seq<byte> {
    Raw("WARC/1.0\r\n") + Raw(HeaderLines(fields)) + Raw("\r\n") + content + Raw("\r\n\r\n")
  }

  function Length(content: seq<byte>): (string, string) {
    ("Content-Length", Decimal.Print(|content|))
  }

  function RequestFields<Date, Doc>(f: Formats<Date, Doc>, r: Request<Date>): seq<(string, string)> {
    [("WARC-Type", "request")]
    + (if r.date.Some? then [("WARC-Date", f.printDate(r.date.value))] else [])
    + [("WARC-Target-URI", r.url), Length([])]
  }

  /** No HTTP header is written, only the blank line that ends it. */
  function ResponseContent(r: Response): seq<byte> {
    Raw("\r\n\r\n" + r.body)
  }

  function ResponseFields(r: Response): seq<(string, string)> {
    [("WARC-Type", "response")]
    + (if r.payloadType.Some? then [("WARC-Identified-Payload-Type", PayloadName(r.payloadType.value))] else [])
    + [Length(ResponseContent(r))]
  }

  function MetadataText<Date, Doc>(f: Formats<Date, Doc>, m: Metadata<Doc>): string {
    "fetchTimeMs: " + Decimal.Print(m.fetchTimeMs)
    + if m.document.Some? then "\navaDocumentV1: " + f.printDoc(m.document.value) else ""
  }

  function MetadataFields<Date, Doc>(f: Formats<Date, Doc>, m: Metadata<Doc>): seq<(string, string)> {
    [("WARC-Type", "metadata"), Length(Raw(MetadataText(f, m)))]
  }

  function WriteRequest<Date, Doc>(f: Formats<Date, Doc>, r: Request<Date>): seq<byte> {
    RawRecord(RequestFields(f, r), [])
  }

  function WriteResponse(r: Response): seq<byte> {
    RawRecord(ResponseFields(r), ResponseContent(r))
  }

  function WriteMetadata<Date, Doc>(f: Formats<Date, Doc>, m: Metadata<Doc>): seq<byte> {
    RawRecord(MetadataFields(f, m), Raw(MetadataText(f, m)))
  }

  function WriteRecord<Date, Doc>(f: Formats<Date, Doc>, r: Record<Date, Doc>): seq<byte> {
    WriteRequest(f, r.request) + WriteResponse(r.response) + WriteMetadata(f, r.metadata)
  }

  /** The record that opens every file, with the time of its creation. */
  function WriteInfo(created: string): seq<byte> {
    var content := Raw("ISPARTOF: crawl[" + created + "]");
    RawRecord([("WARC-Type", "warcinfo"), Length(content)], content)
  }

  function WriteAll<Date, Doc>(f: Formats<Date, Doc>, rs: seq<Record<Date, Doc>>): seq<byte> {
    if rs == [] then [] else WriteRecord(f, rs[0]) + WriteAll(f, rs[1..])
  }

  /** A document is checked only once its record has been begun. */
  predicate DocValid<Date, Doc>(f: Formats<Date, Doc>, m: Metadata<Doc>) {
    m.document.Some? ==> f.validDoc(m.document.value)
  }

  /** The start of a metadata record that is given up because its document is invalid. */
  function Cut(): seq<byte> {
    Raw("WARC/1.0\r\n") + Raw(HeaderLines([("WARC-Type", "metadata")]))
  }

  /** What one call of the writer adds to the file, whether it accepts the record or refuses it. */
  function Written<Date, Doc>(f: Formats<Date, Doc>, r: Record<Date, Doc>): seq<byte> {
    WriteRequest(f, r.request) + WriteResponse(r.response) + if DocValid(f, r.metadata) then WriteMetadata(f, r.metadata) else Cut()
  }

  function WriteEach<Date, Doc>(f: Formats<Date, Doc>, rs: seq<Record<Date, Doc>>): seq<byte> {
    if rs == [] then [] else Written(f, rs[0]) + WriteEach(f, rs[1..])
  }
}
