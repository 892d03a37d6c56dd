/** Reading back what was written. */
module WarcRoundTrip {
  import opened Wrappers
  import opened Bytes
  import Utf8
  import Decimal
  import opened Text
  import opened WarcFormat
  import opened WarcReader

  // ----- lines -----

  lemma {:induction false} LineLengthAt(line: seq<byte>, rest: seq<byte>)
    requires 10 !in line
    ensures LineLength(line + [10] + rest) == |line| + 1
  {
    var bs := line + [10] + rest;
    if line == [] {
      assert bs == [10] + rest;
    } else {
      LineLengthAt(line[1..], rest);
      assert bs[1..] == line[1..] + [10] + rest;
    }
  }

  /** A written line is read as it was. */
  lemma LineRoundTrip(text: string, rest: seq<byte>)
    requires '\n' !in text
    ensures FirstLine(Raw(text + "\n") + rest) == Some(text + "\n")
    ensures AfterLine(Raw(text + "\n") + rest) == rest
    ensures Raw(text + "\n") != []
  {
    Utf8.EncodeConcat(text, "\n");
    Utf8.EncodeLineFeed(text);
    assert Utf8.EncodeString("\n") == [10] by { assert "\n"[1..] == ""; }
    LineLengthAt(Raw(text), rest);
    var bs := Raw(text + "\n") + rest;
    assert bs == Raw(text) + [10] + rest;
    assert bs[..|Raw(text)| + 1] == Raw(text + "\n");
    Utf8.StringRoundTrip(text + "\n");
  }

  // ----- headers -----

  ghost predicate FieldOk(field: (string, string)) {
    '\n' !in field.0 && ':' !in field.0 && '\n' !in field.1
  }

  lemma FieldRoundTrip(field: (string, string))
    requires FieldOk(field)
    ensures ParseField(field.0 + ": " + field.1 + "\r\n") == Some((Upper(field.0), field.1))
  {
    var value := " " + field.1 + "\r\n";
    assert field.0 + ": " + field.1 + "\r\n" == field.0 + [':'] + value;
    SplitCharAt(field.0, ':', value);
    assert StripSuffix(value, "\r\n") == Some(" " + field.1);
    assert StripPrefix(" " + field.1, " ") == Some(field.1);
  }

  /** The header with `fields` added in order. */
  ghost function Extend(header: Header, fields: seq<(string, string)>): Header
    decreases |fields|
  {
    if fields == [] then header else Extend(header[Upper(fields[0].0) := fields[0].1], fields[1..])
  }

  lemma {:induction false} HeaderRoundTrip(fields: seq<(string, string)>, header: Header, rest: seq<byte>)
    requires forall i :: 0 <= i < |fields| ==> FieldOk(fields[i])
    ensures ParseHeader(Raw(HeaderLines(fields)) + Raw("\r\n") + rest, header) == (Ok(Extend(header, fields)), rest)
    decreases |fields|
  {
    hide ParseField, Raw, ParseHeader;
    if fields == [] {
      BlankLine(header, rest);
      RawEmpty();
      assert Raw(HeaderLines(fields)) + Raw("\r\n") + rest == Raw("\r\n") + rest;
    } else {
      var text := fields[0].0 + ": " + fields[0].1 + "\r";
      var tail := Raw(HeaderLines(fields[1..])) + Raw("\r\n") + rest;
      FieldRoundTrip(fields[0]);
      assert text + "\n" == fields[0].0 + ": " + fields[0].1 + "\r\n";
      FieldLine(text, header, tail);
      RawConcat(text + "\n", HeaderLines(fields[1..]));
      HeaderRoundTrip(fields[1..], header[Upper(fields[0].0) := fields[0].1], rest);
      assert Raw(HeaderLines(fields)) + Raw("\r\n") + rest == Raw(text + "\n") + tail;
    }
  }

  lemma BlankLine(header: Header, rest: seq<byte>)
    ensures ParseHeader(Raw("\r\n") + rest, header) == (Ok(header), rest)
  {
    hide FirstLine, AfterLine, Raw;
    LineRoundTrip("\r", rest);
    assert "\r" + "\n" == "\r\n";
  }

  lemma FieldLine(text: string, header: Header, rest: seq<byte>)
    requires '\n' !in text && |text| > 1 && ParseField(text + "\n").Some?
    ensures var field := ParseField(text + "\n").value;
            ParseHeader(Raw(text + "\n") + rest, header) == ParseHeader(rest, header[field.0 := field.1])
  {
    hide FirstLine, AfterLine, Raw, ParseField;
    LineRoundTrip(text, rest);
    assert |text + "\n"| > |"\r\n"|;
  }

  lemma RawEmpty()
    ensures Raw("") == []
  {
  }

  lemma RawConcat(a: string, b: string)
    ensures Raw(a + b) == Raw(a) + Raw(b)
  {
    Utf8.EncodeConcat(a, b);
  }

  // ----- raw records -----

  lemma VersionText()
    ensures "WARC/1." <= Upper(TrimEnd("WARC/1.0\r\n"))
  {
    assert "WARC/1.0\r\n"[..9] == "WARC/1.0\r";
    assert "WARC/1.0\r"[..8] == "WARC/1.0";
    assert TrimEnd("WARC/1.0\r\n") == "WARC/1.0";
    assert Upper("WARC/1.0") == "WARC/1.0";
  }

  lemma VersionLine(rest: seq<byte>)
    ensures FirstLine(Raw("WARC/1.0\r\n") + rest) == Some("WARC/1.0\r\n")
    ensures AfterLine(Raw("WARC/1.0\r\n") + rest) == rest
    ensures Raw("WARC/1.0\r\n") != []
  {
    hide FirstLine, AfterLine, Raw;
    LineRoundTrip("WARC/1.0\r", rest);
    assert "WARC/1.0\r" + "\n" == "WARC/1.0\r\n";
  }

  lemma LineEnds()
    ensures Raw("\r\n\r\n") == [13, 10, 13, 10]
  {
    assert "\r\n\r\n"[1..] == "\n\r\n" && "\n\r\n"[1..] == "\r\n" && "\r\n"[1..] == "\n" && "\n"[1..] == "";
  }

  /** The header announces the content, which is not an oversized metadata record. */
  ghost predicate Fits(header: Header, content: seq<byte>) {
    && "CONTENT-LENGTH" in header && header["CONTENT-LENGTH"] == Decimal.Print(|content|)
    && |content| < U64_SIZE
    && (IsMetadata(header) ==> |content| <= MAX_METADATA_RECORD_BYTES)
  }

  lemma ContentRoundTrip(header: Header, content: seq<byte>, rest: seq<byte>)
    requires Fits(header, content)
    ensures ParseContent(header, content + Raw("\r\n\r\n") + rest) == (Ok(RawWarc(header, content)), rest)
  {
    Decimal.ParsePrint(|content|, U64_SIZE);
    LineEnds();
    var bs := content + Raw("\r\n\r\n") + rest;
    var n := |content|;
    assert bs[..n] == content && bs[n..n + 4] == [13, 10, 13, 10] && bs[n + 4..] == rest;
  }

  lemma Regroup(a: seq<byte>, b: seq<byte>, c: seq<byte>, d: seq<byte>, e: seq<byte>, rest: seq<byte>)
    ensures a + b + c + d + e + rest == a + (b + c + (d + e + rest))
  {
  }

  /** Any content at all is read back, whatever it contains. */
  lemma RawRoundTrip(fields: seq<(string, string)>, content: seq<byte>, rest: seq<byte>)
    requires forall i :: 0 <= i < |fields| ==> FieldOk(fields[i])
    requires Fits(Extend(map[], fields), content)
    ensures NextRaw(RawRecord(fields, content) + rest) == (Some(Ok(RawWarc(Extend(map[], fields), content))), rest)
  {
    hide Raw, LineLength, FirstLine, AfterLine, ParseHeader, ParseContent, Fits, Extend, Upper, TrimEnd;
    var ending := content + Raw("\r\n\r\n") + rest;
    var body := Raw(HeaderLines(fields)) + Raw("\r\n") + ending;
    VersionLine(body);
    VersionText();
    HeaderRoundTrip(fields, map[], ending);
    ContentRoundTrip(Extend(map[], fields), content, rest);
    Regroup(Raw("WARC/1.0\r\n"), Raw(HeaderLines(fields)), Raw("\r\n"), content, Raw("\r\n\r\n"), rest);
  }

  // ----- the three parts -----

  lemma Keys()
    ensures Upper("WARC-Type") == "WARC-TYPE"
    ensures Upper("WARC-Date") == "WARC-DATE"
    ensures Upper("WARC-Target-URI") == "WARC-TARGET-URI"
    ensures Upper("Content-Length") == "CONTENT-LENGTH"
    ensures Upper("WARC-Identified-Payload-Type") == "WARC-IDENTIFIED-PAYLOAD-TYPE"
  {
    hide Upper;
    ShortKeys();
    LongKeys();
  }

  lemma ShortKeys()
    ensures Upper("WARC-Type") == "WARC-TYPE"
    ensures Upper("WARC-Date") == "WARC-DATE"
    ensures Upper("Content-Length") == "CONTENT-LENGTH"
  {
  }

  lemma LongKeys()
    ensures Upper("WARC-Target-URI") == "WARC-TARGET-URI"
    ensures Upper("WARC-Identified-Payload-Type") == "WARC-IDENTIFIED-PAYLOAD-TYPE"
  {
  }

  lemma ExtendFirst(header: Header, field: (string, string), fields: seq<(string, string)>)
    ensures Extend(header, [field] + fields) == Extend(header[Upper(field.0) := field.1], fields)
    ensures Extend(header, []) == header
  {
    assert ([field] + fields)[1..] == fields;
  }

  /** The header of a written request. */
  ghost function RequestHeader<Date, Doc>(f: Formats<Date, Doc>, r: Request<Date>): Header {
    var h := map["WARC-TYPE" := "request"];
    var h1 := if r.date.Some? then h["WARC-DATE" := f.printDate(r.date.value)] else h;
    h1["WARC-TARGET-URI" := r.url]["CONTENT-LENGTH" := Decimal.Print(0)]
  }

  lemma RequestHeaderIs<Date, Doc>(f: Formats<Date, Doc>, r: Request<Date>)
    ensures Extend(map[], RequestFields(f, r)) == RequestHeader(f, r)
  {
    hide Upper, Extend;
    Keys();
    var kind, url, length := ("WARC-Type", "request"), ("WARC-Target-URI", r.url), ("Content-Length", Decimal.Print(0));
    var last := [length] + [];
    var tail := [url] + last;
    var dated := if r.date.Some? then [("WARC-Date", f.printDate(r.date.value))] + tail else tail;
    assert RequestFields(f, r) == [kind] + dated;
    var h := map["WARC-TYPE" := "request"];
    var h1 := if r.date.Some? then h["WARC-DATE" := f.printDate(r.date.value)] else h;
    ExtendFirst(map[], kind, dated);
    if r.date.Some? { ExtendFirst(h, ("WARC-Date", f.printDate(r.date.value)), tail); }
    ExtendFirst(h1, url, last);
    ExtendFirst(h1["WARC-TARGET-URI" := r.url], length, []);
    ExtendFirst(RequestHeader(f, r), length, []);
  }

  lemma RequestRoundTrip<Date(!new), Doc(!new)>(f: Formats<Date, Doc>, r: Request<Date>, rest: seq<byte>)
    requires Faithful(f) && '\n' !in r.url
    ensures var raw := RawWarc(RequestHeader(f, r), []);
            && NextRaw(WriteRequest(f, r) + rest) == (Some(Ok(raw)), rest)
            && RequestOf(f, raw) == Ok(r)
  {
    RequestHeaderIs(f, r);
    hide Extend, NextRaw, RawRecord;
    var fields := RequestFields(f, r);
    forall i | 0 <= i < |fields| ensures FieldOk(fields[i]) {
      DigitsOnly(0);
    }
    RawRoundTrip(fields, [], rest);
  }

  /** A printed number is free of line feeds, spaces and colons. */
  lemma DigitsOnly(n: nat)
    ensures forall c :: c in Decimal.Print(n) ==> Decimal.IsDigit(c)
  {
  }

  ghost function ResponseHeader(r: Response): Header {
    var h := map["WARC-TYPE" := "response"];
    var h1 := if r.payloadType.Some? then h["WARC-IDENTIFIED-PAYLOAD-TYPE" := PayloadName(r.payloadType.value)] else h;
    h1["CONTENT-LENGTH" := Decimal.Print(|ResponseContent(r)|)]
  }

  lemma ResponseHeaderIs(r: Response)
    ensures Extend(map[], ResponseFields(r)) == ResponseHeader(r)
  {
    hide Upper, Extend, ResponseContent, PayloadName;
    Keys();
    var kind, length := ("WARC-Type", "response"), Length(ResponseContent(r));
    var tail := [length] + [];
    var h := map["WARC-TYPE" := "response"];
    if r.payloadType.Some? {
      var payload := ("WARC-Identified-Payload-Type", PayloadName(r.payloadType.value));
      assert ResponseFields(r) == [kind] + ([payload] + tail);
      ExtendFirst(map[], kind, [payload] + tail);
      ExtendFirst(h, payload, tail);
      ExtendFirst(h["WARC-IDENTIFIED-PAYLOAD-TYPE" := payload.1], length, []);
    } else {
      assert ResponseFields(r) == [kind] + tail;
      ExtendFirst(map[], kind, tail);
      ExtendFirst(h, length, []);
    }
    ExtendFirst(ResponseHeader(r), length, []);
  }

  lemma PayloadRoundTrip(p: PayloadType)
    ensures PayloadOf(PayloadName(p)) == Some(p)
    ensures '\n' !in PayloadName(p)
  {
  }

  lemma BodyRoundTrip(body: string)
    ensures SplitOnce("\r\n\r\n" + body, "\r\n\r\n") == Some(("", body))
  {
    assert ("\r\n\r\n" + body)[4..] == body;
  }

  lemma ResponseFieldsOk(r: Response)
    ensures forall i :: 0 <= i < |ResponseFields(r)| ==> FieldOk(ResponseFields(r)[i])
  {
    hide ResponseContent, PayloadName, Decimal.Print, PayloadOf, FieldOk;
    var kind, length := ("WARC-Type", "response"), Length(ResponseContent(r));
    KindOk();
    LengthOk(ResponseContent(r));
    if r.payloadType.Some? {
      PayloadOk(r.payloadType.value);
      var payload := ("WARC-Identified-Payload-Type", PayloadName(r.payloadType.value));
      assert ResponseFields(r) == [kind, payload, length];
    } else {
      assert ResponseFields(r) == [kind, length];
    }
  }

  lemma KindOk()
    ensures FieldOk(("WARC-Type", "response"))
  {
  }

  lemma LengthOk(content: seq<byte>)
    ensures FieldOk(Length(content))
  {
    DigitsOnly(|content|);
  }

  lemma PayloadOk(p: PayloadType)
    ensures FieldOk(("WARC-Identified-Payload-Type", PayloadName(p)))
  {
    hide PayloadName, PayloadOf;
    PayloadRoundTrip(p);
  }

  lemma ResponseRoundTrip<Date(!new), Doc(!new)>(f: Formats<Date, Doc>, r: Response, rest: seq<byte>)
    requires |ResponseContent(r)| < U64_SIZE
    ensures var raw := RawWarc(ResponseHeader(r), ResponseContent(r));
            && NextRaw(WriteResponse(r) + rest) == (Some(Ok(raw)), rest)
            && ResponseOf(f, raw) == Ok(r)
  {
    hide Extend, NextRaw, RawRecord, SplitOnce, PayloadOf, PayloadName, ResponseFields, FieldOk, Decimal.Print;
    ResponseHeaderIs(r);
    ResponseFieldsOk(r);
    RawRoundTrip(ResponseFields(r), ResponseContent(r), rest);
    Utf8.StringRoundTrip("\r\n\r\n" + r.body);
    BodyRoundTrip(r.body);
    if r.payloadType.Some? { PayloadRoundTrip(r.payloadType.value); }
  }

  // ----- metadata -----

  lemma {:induction false} LineLengthWhole(bs: seq<byte>)
    requires 10 !in bs
    ensures LineLength(bs) == |bs|
  {
    if bs != [] { LineLengthWhole(bs[1..]); }
  }

  lemma LastLineRoundTrip(text: string)
    requires '\n' !in text
    ensures FirstLine(Raw(text)) == Some(text) && AfterLine(Raw(text)) == []
  {
    Utf8.EncodeLineFeed(text);
    LineLengthWhole(Raw(text));
    assert Raw(text)[..|Raw(text)|] == Raw(text);
    Utf8.StringRoundTrip(text);
  }

  ghost function FetchText(n: nat): string {
    "fetchTimeMs: " + Decimal.Print(n)
  }

  lemma NumberTrimmed(n: nat)
    ensures TrimEnd(TrimStart(" " + Decimal.Print(n))) == Decimal.Print(n)
  {
    var s := Decimal.Print(n);
    assert Decimal.IsDigit(s[0]) && Decimal.IsDigit(s[|s| - 1]);
    assert (" " + s)[1..] == s;
  }

  lemma FetchLine<Date, Doc>(f: Formats<Date, Doc>, n: nat)
    requires n < U64_SIZE
    ensures '\n' !in FetchText(n) && Chomp(FetchText(n)) == FetchText(n)
    ensures MetadataLine(f, FetchText(n), Found(None, None)) == Ok(Found(Some(n), None))
  {
    FetchTextIs(n);
    hide Decimal.Parse, Decimal.Print, TrimEnd, DocumentOf, SplitChar, Chomp, FetchText;
    var s, t := Decimal.Print(n), FetchText(n);
    SplitCharAt("fetchTimeMs", ':', " " + s);
    NumberTrimmed(n);
    Decimal.ParsePrint(n, U64_SIZE);
    assert TrimStart(t) == t;
  }

  lemma FetchTextIs(n: nat)
    ensures '\n' !in FetchText(n) && Chomp(FetchText(n)) == FetchText(n)
    ensures FetchText(n) == "fetchTimeMs" + [':'] + (" " + Decimal.Print(n)) && FetchText(n)[0] == 'f'
  {
    hide Decimal.Print;
    var s, t := Decimal.Print(n), FetchText(n);
    DigitsOnly(n);
    assert t == "fetchTimeMs" + [':'] + (" " + s);
    assert Decimal.IsDigit(s[|s| - 1]) && t[|t| - 1] == s[|s| - 1];
  }

  ghost function DocText(json: string): string {
    "avaDocumentV1: " + json
  }

  lemma DocLine<Date, Doc>(f: Formats<Date, Doc>, json: string, found: Found<Doc>)
    requires |json| >= 2 && json[0] == '{' && json[|json| - 1] == '}' && found.document.None?
    ensures Chomp(DocText(json)) == DocText(json)
    ensures MetadataLine(f, DocText(json), found) ==
            match DocumentOf(f, json) case Ok(doc) => Ok(found.(document := Some(doc))) case Err(e) => Err(e)
  {
    hide DocumentOf, SplitChar;
    var t := DocText(json);
    assert t[|t| - 1] == json[|json| - 1] && t[0] == 'a';
    assert TrimStart(t) == t;
    assert MARKER <= t && "avaDocumentV1:" <= t && t[14..] == " " + json;
    assert (" " + json)[1..] == json;
    assert TrimSpaces(json) == json;
    assert TrimSpaces(" " + json) == json;
  }

  /** The document, if any, is small enough to be read. */
  ghost predicate DocFits<Date, Doc>(f: Formats<Date, Doc>, m: Metadata<Doc>) {
    m.document.Some? ==> |Raw(f.printDoc(m.document.value))| <= MAX_AVA_DOCUMENT_BYTES
  }

  /** The lines of the metadata hold what was written, or the document is too large. */
  lemma MetadataLinesRoundTrip<Date(!new), Doc(!new)>(f: Formats<Date, Doc>, m: Metadata<Doc>)
    requires Faithful(f) && DocValid(f, m) && m.fetchTimeMs < U64_SIZE
    ensures MetadataLines(f, Raw(MetadataText(f, m)), Found(None, None)) ==
            if DocFits(f, m) then Ok(Found(Some(m.fetchTimeMs), m.document)) else Err(ExtensionTooLarge)
  {
    hide Raw, LineLength, FirstLine, AfterLine, MetadataLine, Chomp;
    var text := FetchText(m.fetchTimeMs);
    FetchLine(f, m.fetchTimeMs);
    if m.document.None? {
      assert MetadataText(f, m) == text;
      LastLineRoundTrip(text);
    } else {
      DocMetadataLines(f, m);
    }
    RawNonEmpty(MetadataText(f, m));
  }

  lemma RawNonEmpty(s: string)
    ensures Raw(s) == [] <==> s == ""
  {
  }

  lemma DocMetadataLines<Date(!new), Doc(!new)>(f: Formats<Date, Doc>, m: Metadata<Doc>)
    requires Faithful(f) && DocValid(f, m) && m.fetchTimeMs < U64_SIZE && m.document.Some?
    ensures MetadataLines(f, Raw(MetadataText(f, m)), Found(None, None)) ==
            if DocFits(f, m) then Ok(Found(Some(m.fetchTimeMs), m.document)) else Err(ExtensionTooLarge)
  {
    hide Raw, LineLength, FirstLine, AfterLine, MetadataLine;
    var text := FetchText(m.fetchTimeMs);
    var json := f.printDoc(m.document.value);
    var found := Found(Some(m.fetchTimeMs), None);
    FetchLine(f, m.fetchTimeMs);
    DocLine(f, json, found);
    assert MetadataText(f, m) == (text + "\n") + DocText(json);
    RawConcat(text + "\n", DocText(json));
    LineRoundTrip(text, Raw(DocText(json)));
    LastLineRoundTrip(DocText(json));
    RawNonEmpty(DocText(json));
    assert Chomp(text + "\n") == text by {
      assert (text + "\n")[..|text|] == text;
      assert Decimal.IsDigit(text[|text| - 1]);
    }
    assert MetadataLines(f, Raw(DocText(json)), found) ==
      if DocFits(f, m) then Ok(Found(Some(m.fetchTimeMs), m.document)) else Err(ExtensionTooLarge);
  }

  lemma {:induction false} RawLength(s: string)
    ensures |Raw(s)| <= 4 * |s|
  {
    if s != "" { RawLength(s[1..]); }
  }

  lemma MetadataSize<Date, Doc>(f: Formats<Date, Doc>, m: Metadata<Doc>)
    requires m.fetchTimeMs < U64_SIZE && DocFits(f, m)
    ensures |Raw(MetadataText(f, m))| <= MAX_METADATA_RECORD_BYTES
  {
    hide Raw;
    var text := FetchText(m.fetchTimeMs);
    assert m.fetchTimeMs < Decimal.Pow10(20) by {
      assert Decimal.Pow10(10) == 10_000_000_000;
      assert Decimal.Pow10(20) == 100_000_000_000_000_000_000;
    }
    Decimal.PrintLength(m.fetchTimeMs, 20);
    RawLength(text);
    if m.document.Some? {
      var json := f.printDoc(m.document.value);
      RawLength("\navaDocumentV1: ");
      RawConcat("\navaDocumentV1: ", json);
      RawConcat(text, "\navaDocumentV1: " + json);
    } else {
      assert MetadataText(f, m) == text;
    }
  }

  ghost function MetadataHeader<Date, Doc>(f: Formats<Date, Doc>, m: Metadata<Doc>): Header {
    map["WARC-TYPE" := "metadata"]["CONTENT-LENGTH" := Decimal.Print(|Raw(MetadataText(f, m))|)]
  }

  lemma MetadataHeaderIs<Date, Doc>(f: Formats<Date, Doc>, m: Metadata<Doc>)
    ensures Extend(map[], MetadataFields(f, m)) == MetadataHeader(f, m)
    ensures forall i :: 0 <= i < |MetadataFields(f, m)| ==> FieldOk(MetadataFields(f, m)[i])
  {
    hide Upper, Extend, Raw;
    Keys();
    var kind, length := ("WARC-Type", "metadata"), Length(Raw(MetadataText(f, m)));
    assert MetadataFields(f, m) == [kind] + ([length] + []);
    ExtendFirst(map[], kind, [length] + []);
    ExtendFirst(map["WARC-TYPE" := "metadata"], length, []);
    ExtendFirst(MetadataHeader(f, m), length, []);
    DigitsOnly(|Raw(MetadataText(f, m))|);
  }

  lemma MetadataRoundTrip<Date(!new), Doc(!new)>(f: Formats<Date, Doc>, m: Metadata<Doc>, rest: seq<byte>)
    requires Faithful(f) && DocValid(f, m) && m.fetchTimeMs < U64_SIZE && DocFits(f, m)
    ensures var raw := RawWarc(MetadataHeader(f, m), Raw(MetadataText(f, m)));
            && NextRaw(WriteMetadata(f, m) + rest) == (Some(Ok(raw)), rest)
            && MetadataOf(f, raw) == Ok(m)
  {
    hide Raw, Extend, NextRaw, RawRecord, MetadataLines, MetadataFields, MetadataText, FieldOk, Faithful;
    MetadataHeaderIs(f, m);
    MetadataSize(f, m);
    RawRoundTrip(MetadataFields(f, m), Raw(MetadataText(f, m)), rest);
    MetadataLinesRoundTrip(f, m);
  }

  // ----- records -----

  /** What every record in memory satisfies: times are 64-bit and bodies fit in memory. */
  ghost predicate InMemory<Date, Doc>(f: Formats<Date, Doc>, r: Record<Date, Doc>) {
    && r.metadata.fetchTimeMs < U64_SIZE
    && |ResponseContent(r.response)| < U64_SIZE
    && |Raw(MetadataText(f, r.metadata))| < U64_SIZE
  }

  /** The writer accepts the record. */
  ghost predicate Writable<Date, Doc>(f: Formats<Date, Doc>, r: Record<Date, Doc>) {
    InMemory(f, r) && DocValid(f, r.metadata)
  }

  /** The record survives being written and read. */
  ghost predicate Readable<Date, Doc>(f: Formats<Date, Doc>, r: Record<Date, Doc>) {
    '\n' !in r.request.url && DocFits(f, r.metadata)
  }

  lemma FirstTwoParts<Date(!new), Doc(!new)>(f: Formats<Date, Doc>, r: Record<Date, Doc>, rest: seq<byte>)
    requires Faithful(f) && |ResponseContent(r.response)| < U64_SIZE && '\n' !in r.request.url
    ensures Collect(f, WriteRequest(f, r.request) + (WriteResponse(r.response) + rest), NoParts())
            == Collect(f, rest, Parts(Some(r.request), Some(r.response), None))
  {
    hide NextRaw, WriteRequest, WriteResponse, RequestOf, ResponseOf, ResponseContent, MetadataOf;
    var tail := WriteResponse(r.response) + rest;
    RequestRoundTrip(f, r.request, tail);
    ResponseRoundTrip(f, r.response, rest);
    var p: Parts<Date, Doc> := Parts(Some(r.request), None, None);
    assert Collect(f, WriteRequest(f, r.request) + tail, NoParts()) == Collect(f, tail, p);
  }

  lemma RecordRoundTrip<Date(!new), Doc(!new)>(f: Formats<Date, Doc>, r: Record<Date, Doc>, rest: seq<byte>)
    requires Faithful(f) && Writable(f, r) && Readable(f, r)
    ensures Collect(f, WriteRecord(f, r) + rest, NoParts()) == (Some(Ok(r)), rest)
  {
    hide NextRaw, WriteRequest, WriteResponse, WriteMetadata, RequestOf, ResponseOf, ResponseContent, MetadataOf, Raw;
    var tail := WriteMetadata(f, r.metadata) + rest;
    FirstTwoParts(f, r, tail);
    MetadataRoundTrip(f, r.metadata, rest);
    assert WriteRecord(f, r) + rest == WriteRequest(f, r.request) + (WriteResponse(r.response) + tail);
  }

  ghost function AllOk<Date, Doc>(rs: seq<Record<Date, Doc>>): seq<Result<Record<Date, Doc>, WarcError>> {
    seq(|rs|, i requires 0 <= i < |rs| => Ok(rs[i]))
  }

  lemma {:induction false} RecordsRoundTrip<Date(!new), Doc(!new)>(f: Formats<Date, Doc>, rs: seq<Record<Date, Doc>>)
    requires Faithful(f) && forall i :: 0 <= i < |rs| ==> Writable(f, rs[i]) && Readable(f, rs[i])
    ensures Items(f, WriteAll(f, rs)) == AllOk(rs)
    decreases |rs|
  {
    hide WriteRecord, Faithful, Writable, Readable, Collect;
    if rs == [] {
      NothingLeft(f);
    } else {
      RecordRoundTrip(f, rs[0], WriteAll(f, rs[1..]));
      RecordsRoundTrip(f, rs[1..]);
    }
  }

  lemma NothingLeft<Date, Doc>(f: Formats<Date, Doc>)
    ensures Collect(f, [], NoParts()).0 == None
  {
  }

  lemma InfoRoundTrip(created: string, rest: seq<byte>)
    requires |Raw("ISPARTOF: crawl[" + created + "]")| < U64_SIZE
    ensures NextRaw(WriteInfo(created) + rest).0.Some? && NextRaw(WriteInfo(created) + rest).0.value.Ok?
    ensures NextRaw(WriteInfo(created) + rest).1 == rest
    ensures var raw := NextRaw(WriteInfo(created) + rest).0.value.value;
            && raw.content == Raw("ISPARTOF: crawl[" + created + "]")
            && raw.header == map["WARC-TYPE" := "warcinfo", "CONTENT-LENGTH" := Decimal.Print(|raw.content|)]
  {
    hide Raw, Extend, NextRaw, RawRecord, Upper;
    var content := Raw("ISPARTOF: crawl[" + created + "]");
    Keys();
    var kind, length := ("WARC-Type", "warcinfo"), Length(content);
    assert [kind, length] == [kind] + ([length] + []);
    ExtendFirst(map[], kind, [length] + []);
    ExtendFirst(map["WARC-TYPE" := "warcinfo"], length, []);
    ExtendFirst(map["WARC-TYPE" := "warcinfo"]["CONTENT-LENGTH" := length.1], length, []);
    DigitsOnly(|content|);
    RawRoundTrip([kind, length], content, rest);
  }

  /** Reading a file yields the records that were written to it, and then ends. */
  lemma FileRoundTrip<Date(!new), Doc(!new)>(f: Formats<Date, Doc>, created: string, rs: seq<Record<Date, Doc>>)
    requires Faithful(f) && forall i :: 0 <= i < |rs| ==> Writable(f, rs[i]) && Readable(f, rs[i])
    requires |Raw("ISPARTOF: crawl[" + created + "]")| < U64_SIZE
    ensures ReadAll(f, WriteInfo(created) + WriteAll(f, rs)) == AllOk(rs)
  {
    hide WriteInfo, WriteAll, Faithful, Writable, Readable, Items, NextRaw;
    InfoRoundTrip(created, WriteAll(f, rs));
    RecordsRoundTrip(f, rs);
  }

  // ----- when a record does not survive -----

  lemma {:induction false} LineFeedAtEnd(bs: seq<byte>)
    ensures LineLength(bs) > 0 ==> 10 !in bs[..LineLength(bs) - 1]
  {
    if bs != [] && bs[0] != 10 {
      LineFeedAtEnd(bs[1..]);
      var n := LineLength(bs);
      if n > 1 {
        assert bs[..n - 1] == [bs[0]] + bs[1..][..n - 2];
      }
    }
  }

  /** A line feed ends a line. */
  lemma LineHasOneLineFeed(bs: seq<byte>)
    requires FirstLine(bs).Some? && bs != []
    ensures var line := FirstLine(bs).value;
            line != "" && '\n' !in line[..|line| - 1]
  {
    hide LineLength, Utf8.DecodeString, Utf8.EncodeString;
    var bytes := bs[..LineLength(bs)];
    var line := FirstLine(bs).value;
    Utf8.StringSound(bytes);
    LineFeedAtEnd(bs);
    assert bytes[..|bytes| - 1] == bs[..LineLength(bs) - 1];
    if line == "" {
      RawEmpty();
    } else {
      EncodedInit(line, bytes);
      Utf8.EncodeLineFeed(line[..|line| - 1]);
    }
  }

  /** All characters but the last are encoded in all bytes but the last. */
  lemma EncodedInit(line: string, bytes: seq<byte>)
    requires line != "" && Utf8.EncodeString(line) == bytes && bytes != [] && 10 !in bytes[..|bytes| - 1]
    ensures 10 !in Utf8.EncodeString(line[..|line| - 1])
  {
    hide Utf8.EncodeString;
    var init, last := line[..|line| - 1], line[|line| - 1..];
    assert line == init + last;
    Utf8.EncodeConcat(init, last);
    RawNonEmpty(last);
    var e := Utf8.EncodeString(init);
    assert e == bytes[..|bytes| - 1][..|e|];
  }

  ghost predicate OneLine(header: Header) {
    forall k :: k in header ==> '\n' !in header[k]
  }

  lemma FieldOneLine(line: string)
    requires line != "" && '\n' !in line[..|line| - 1] && ParseField(line).Some?
    ensures '\n' !in ParseField(line).value.1
  {
    hide SplitChar, Upper, StripPrefix, StripSuffix;
    var (key, v0) := SplitChar(line, ':').value;
    AfterColon(line, key, v0);
    var v1 := if StripSuffix(v0, "\r\n").Some? then StripSuffix(v0, "\r\n").value
              else if StripSuffix(v0, "\n").Some? then StripSuffix(v0, "\n").value
              else v0;
    ValueOneLine(v0);
    PrefixOneLine(v1);
  }

  lemma AfterColon(line: string, key: string, v0: string)
    requires line == key + ":" + v0 && '\n' !in line[..|line| - 1]
    ensures v0 != "" ==> '\n' !in v0[..|v0| - 1]
  {
    if v0 != "" {
      assert line[..|line| - 1] == key + ":" + v0[..|v0| - 1];
    }
  }

  /** A suffix is what is stripped. */
  lemma Stripped(s: string, suffix: string)
    ensures StripSuffix(s, suffix).Some? ==> s == StripSuffix(s, suffix).value + suffix
  {
  }

  lemma ValueOneLine(v0: string)
    requires v0 != "" ==> '\n' !in v0[..|v0| - 1]
    ensures StripSuffix(v0, "\r\n").Some? ==> '\n' !in StripSuffix(v0, "\r\n").value
    ensures StripSuffix(v0, "\n").Some? ==> '\n' !in StripSuffix(v0, "\n").value
    ensures StripSuffix(v0, "\n").None? ==> '\n' !in v0
  {
    hide StripSuffix;
    Stripped(v0, "\r\n");
    Stripped(v0, "\n");
    if StripSuffix(v0, "\r\n").Some? {
      InitOneLine(v0, StripSuffix(v0, "\r\n").value);
    }
    if StripSuffix(v0, "\n").Some? {
      InitOneLine(v0, StripSuffix(v0, "\n").value);
    } else {
      NoLineFeed(v0);
    }
  }

  lemma InitOneLine(v0: string, init: string)
    requires v0 != "" && '\n' !in v0[..|v0| - 1] && |init| < |v0| && init <= v0
    ensures '\n' !in init
  {
    assert init == v0[..|v0| - 1][..|init|];
  }

  lemma NoLineFeed(v0: string)
    requires StripSuffix(v0, "\n").None? && (v0 != "" ==> '\n' !in v0[..|v0| - 1])
    ensures '\n' !in v0
  {
    if v0 != "" {
      var last := v0[|v0| - 1];
      assert v0[|v0| - 1..] == [last];
      assert v0 == v0[..|v0| - 1] + [last];
    }
  }

  lemma PrefixOneLine(v1: string)
    requires '\n' !in v1
    ensures StripPrefix(v1, " ").Some? ==> '\n' !in StripPrefix(v1, " ").value
  {
  }

  lemma {:induction false} HeaderOneLine(bs: seq<byte>, header: Header)
    requires OneLine(header) && ParseHeader(bs, header).0.Ok?
    ensures OneLine(ParseHeader(bs, header).0.value)
    decreases |bs|
  {
    hide FirstLine, AfterLine, ParseField;
    var line := FirstLine(bs);
    if bs != [] && line.value != "\r\n" {
      LineHasOneLineFeed(bs);
      FieldOneLine(line.value);
      var field := ParseField(line.value).value;
      Shorter(bs);
      HeaderOneLine(AfterLine(bs), header[field.0 := field.1]);
    }
  }

  lemma Shorter(bs: seq<byte>)
    requires bs != []
    ensures |AfterLine(bs)| < |bs|
  {
  }

  lemma RawOneLine(bs: seq<byte>)
    requires NextRaw(bs).0.Some? && NextRaw(bs).0.value.Ok?
    ensures OneLine(NextRaw(bs).0.value.value.header)
  {
    hide FirstLine, AfterLine, ParseHeader, Upper, TrimEnd;
    HeaderOneLine(AfterLine(bs), map[]);
  }

  /** No URL that is ever read contains a line feed. */
  lemma {:induction false} CollectedUrl<Date, Doc>(f: Formats<Date, Doc>, bs: seq<byte>, p: Parts<Date, Doc>)
    requires p.request.Some? ==> '\n' !in p.request.value.url
    ensures var item := Collect(f, bs, p).0;
            item.Some? && item.value.Ok? ==> '\n' !in item.value.value.request.url
    decreases |bs|
  {
    hide NextRaw, ResponseOf, MetadataOf;
    var (raw, rest) := NextRaw(bs);
    NextRawShrinks(bs);
    if raw.Some? && raw.value.Ok? {
      RawOneLine(bs);
      var next := AddPart(f, raw.value.value, p);
      if next.Ok? && !Complete(next.value) {
        CollectedUrl(f, rest, next.value);
      }
    }
  }

  lemma OversizedRaw<Date(!new), Doc(!new)>(f: Formats<Date, Doc>, m: Metadata<Doc>, rest: seq<byte>)
    requires MAX_METADATA_RECORD_BYTES < |Raw(MetadataText(f, m))| < U64_SIZE
    ensures NextRaw(WriteMetadata(f, m) + rest) == (Some(Err(MetadataTooLarge)), rest)
  {
    hide Raw, LineLength, FirstLine, AfterLine, ParseHeader, Extend, Upper, TrimEnd, MetadataText, HeaderLines, MetadataFields, FieldOk;
    var fields, content := MetadataFields(f, m), Raw(MetadataText(f, m));
    MetadataHeaderIs(f, m);
    var ending := content + Raw("\r\n\r\n") + rest;
    var body := Raw(HeaderLines(fields)) + Raw("\r\n") + ending;
    VersionLine(body);
    VersionText();
    HeaderRoundTrip(fields, map[], ending);
    Regroup(Raw("WARC/1.0\r\n"), Raw(HeaderLines(fields)), Raw("\r\n"), content, Raw("\r\n\r\n"), rest);
    Decimal.ParsePrint(|content|, U64_SIZE);
    LineEnds();
    assert Drained(ending, |content|) == rest;
  }

  /** The error for a document that does not fit. */
  function SizeError<Date, Doc>(f: Formats<Date, Doc>, m: Metadata<Doc>): WarcError {
    if |Raw(MetadataText(f, m))| > MAX_METADATA_RECORD_BYTES then MetadataTooLarge else ExtensionTooLarge
  }

  /** A document that does not fit costs its own record and no other: reading goes on right after it. */
  lemma OversizedDocument<Date(!new), Doc(!new)>(f: Formats<Date, Doc>, m: Metadata<Doc>, rest: seq<byte>, p: Parts<Date, Doc>)
    requires Faithful(f) && DocValid(f, m) && m.fetchTimeMs < U64_SIZE && |Raw(MetadataText(f, m))| < U64_SIZE
    requires !DocFits(f, m) && p.metadata.None?
    ensures Collect(f, WriteMetadata(f, m) + rest, p) == (Some(Err(SizeError(f, m))), rest)
  {
    hide Raw, Extend, NextRaw, RawRecord, MetadataLines, MetadataFields, MetadataText, FieldOk, Faithful, RequestOf, ResponseOf;
    if |Raw(MetadataText(f, m))| > MAX_METADATA_RECORD_BYTES {
      OversizedRaw(f, m, rest);
    } else {
      MetadataHeaderIs(f, m);
      RawRoundTrip(MetadataFields(f, m), Raw(MetadataText(f, m)), rest);
      MetadataLinesRoundTrip(f, m);
    }
  }

  lemma UnreadableRecord<Date(!new), Doc(!new)>(f: Formats<Date, Doc>, r: Record<Date, Doc>, rest: seq<byte>)
    requires Faithful(f) && Writable(f, r) && !Readable(f, r)
    ensures Collect(f, WriteRecord(f, r) + rest, NoParts()).0 != Some(Ok(r))
  {
    hide Collect, WriteRequest, WriteResponse, WriteMetadata, Faithful, Raw, ResponseContent, MetadataText;
    if '\n' in r.request.url {
      CollectedUrl(f, WriteRecord(f, r) + rest, NoParts());
    } else {
      var tail := WriteMetadata(f, r.metadata) + rest;
      FirstTwoParts(f, r, tail);
      assert WriteRecord(f, r) + rest == WriteRequest(f, r.request) + (WriteResponse(r.response) + tail);
      OversizedDocument(f, r.metadata, rest, Parts(Some(r.request), Some(r.response), None));
    }
  }

  lemma {:induction false} UnreadableRecords<Date(!new), Doc(!new)>(f: Formats<Date, Doc>, rs: seq<Record<Date, Doc>>, k: nat)
    requires Faithful(f) && forall i :: 0 <= i < |rs| ==> Writable(f, rs[i])
    requires k < |rs| && !Readable(f, rs[k])
    ensures Items(f, WriteAll(f, rs)) != AllOk(rs)
    decreases |rs|
  {
    hide WriteRecord, Faithful, Writable, Readable, Collect;
    var rest := WriteAll(f, rs[1..]);
    if Readable(f, rs[0]) {
      RecordRoundTrip(f, rs[0], rest);
      UnreadableRecords(f, rs[1..], k - 1);
      assert AllOk(rs)[1..] == AllOk(rs[1..]);
      assert Items(f, WriteAll(f, rs)) == [Ok(rs[0])] + Items(f, rest);
      assert Items(f, WriteAll(f, rs))[1..] == Items(f, rest);
    } else {
      UnreadableRecord(f, rs[0], rest);
      assert AllOk(rs)[0] == Ok(rs[0]);
    }
  }

  /** A file reads back exactly when no URL has a line feed and no document is larger than the reader allows. */
  lemma FileRoundTripIff<Date(!new), Doc(!new)>(f: Formats<Date, Doc>, created: string, rs: seq<Record<Date, Doc>>)
    requires Faithful(f) && forall i :: 0 <= i < |rs| ==> Writable(f, rs[i])
    requires |Raw("ISPARTOF: crawl[" + created + "]")| < U64_SIZE
    ensures ReadAll(f, WriteInfo(created) + WriteAll(f, rs)) == AllOk(rs)
            <==> forall i :: 0 <= i < |rs| ==> Readable(f, rs[i])
  {
    hide WriteInfo, WriteAll, Faithful, Writable, Readable, Items, NextRaw;
    InfoRoundTrip(created, WriteAll(f, rs));
    if forall i :: 0 <= i < |rs| ==> Readable(f, rs[i]) {
      RecordsRoundTrip(f, rs);
    } else {
      var k :| 0 <= k < |rs| && !Readable(f, rs[k]);
      UnreadableRecords(f, rs, k);
    }
  }
}
