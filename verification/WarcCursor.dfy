/** The writer and the record iterator as the program runs them. */
module WarcCursor {
  import opened Wrappers
  import opened Bytes
  import Utf8
  import Decimal
  import opened Text
  import opened WarcFormat
  import opened WarcReader
  import opened WarcRoundTrip
  import opened WarcFile

  // ----- writing -----

  lemma {:induction false} OneMoreField(fields: seq<(string, string)>, field: (string, string))
    ensures Raw(HeaderLines(fields + [field])) == Raw(HeaderLines(fields)) + Raw(field.0 + ": " + field.1 + "\r\n")
    decreases |fields|
  {
    hide Raw;
    RawEmpty();
    if fields == [] {
      assert fields + [field] == [field];
      assert [field][1..] == [];
      var line := field.0 + ": " + field.1 + "\r\n";
      assert HeaderLines([field]) == line + "";
      assert line + "" == line;
    } else {
      var line := fields[0].0 + ": " + fields[0].1 + "\r\n";
      assert (fields + [field])[1..] == fields[1..] + [field];
      OneMoreField(fields[1..], field);
      RawConcat(line, HeaderLines(fields[1..] + [field]));
      RawConcat(line, HeaderLines(fields[1..]));
    }
  }

  class WarcWriter<Date, Doc> {
    const formats: Formats<Date, Doc>
    var numWrites: nat
    var out: seq<byte>

    constructor (formats: Formats<Date, Doc>, created: string)
      ensures this.formats == formats && numWrites == 0 && out == WriteInfo(created)
    {
      hide Raw, RawRecord, HeaderLines;
      this.formats, numWrites, out := formats, 0, [];
      new;
      var content := Raw("ISPARTOF: crawl[" + created + "]");
      ghost var fields := Begin();
      fields := Put(fields, [], "WARC-Type", "warcinfo");
      fields := Put(fields, [], "Content-Length", Decimal.Print(|content|));
      End(fields, [], content);
      assert fields == [("WARC-Type", "warcinfo"), Length(content)];
    }

    /** The bytes of a record whose header is being written, after `before`. */
    ghost predicate Open(before: seq<byte>, fields: seq<(string, string)>)
      reads this
    {
      out == before + Raw("WARC/1.0\r\n") + Raw(HeaderLines(fields))
    }

    method Begin() returns (ghost fields: seq<(string, string)>)
      modifies this`out
      ensures Open(old(out), fields) && fields == []
    {
      hide Raw;
      RawEmpty();
      out := out + Raw("WARC/1.0\r\n");
      fields := [];
      assert HeaderLines(fields) == "";
    }

    method Put(ghost fields: seq<(string, string)>, ghost before: seq<byte>, key: string, value: string)
      returns (ghost more: seq<(string, string)>)
      requires Open(before, fields)
      modifies this`out
      ensures Open(before, more) && more == fields + [(key, value)]
    {
      hide Raw;
      OneMoreField(fields, (key, value));
      out := out + Raw(key + ": " + value + "\r\n");
      more := fields + [(key, value)];
    }

    method End(ghost fields: seq<(string, string)>, ghost before: seq<byte>, content: seq<byte>)
      requires Open(before, fields)
      modifies this`out
      ensures out == before + RawRecord(fields, content)
    {
      hide Raw;
      out := out + Raw("\r\n");
      out := out + content;
      out := out + Raw("\r\n\r\n");
      Nested(before, Raw("WARC/1.0\r\n"), Raw(HeaderLines(fields)), Raw("\r\n"), content, Raw("\r\n\r\n"));
    }

    static lemma Nested(z: seq<byte>, a: seq<byte>, b: seq<byte>, c: seq<byte>, d: seq<byte>, e: seq<byte>)
      ensures z + a + b + c + d + e == z + (a + b + c + d + e)
    {
    }

    /** A record with an invalid document is refused, after its request and response have been written. */
    method Write(record: Record<Date, Doc>) returns (ok: bool)
      modifies this
      ensures ok == DocValid(formats, record.metadata)
      ensures numWrites == if ok then old(numWrites) + 1 else old(numWrites)
      ensures out == old(out) + Written(formats, record)
    {
      hide WriteRequest, WriteResponse, WriteMetadata, Cut;
      WriteFirst(record.request);
      WriteSecond(record.response);
      ok := WriteThird(record.metadata);
      if ok { numWrites := numWrites + 1; }
    }

    method WriteThird(m: Metadata<Doc>) returns (ok: bool)
      modifies this`out
      ensures ok == DocValid(formats, m)
      ensures out == old(out) + if ok then WriteMetadata(formats, m) else Cut()
    {
      hide Raw, RawRecord, HeaderLines, MetadataText;
      ghost var before := out;
      var fields := Begin();
      fields := Put(fields, before, "WARC-Type", "metadata");
      assert fields == [("WARC-Type", "metadata")];
      if m.document.Some? {
        if !formats.validDoc(m.document.value) { return false; }
      }
      var body := Raw(MetadataText(formats, m));
      fields := Put(fields, before, "Content-Length", Decimal.Print(|body|));
      assert fields == MetadataFields(formats, m);
      End(fields, before, body);
      ok := true;
    }

    method WriteFirst(r: Request<Date>)
      modifies this`out
      ensures out == old(out) + WriteRequest(formats, r)
    {
      hide Raw, RawRecord, HeaderLines;
      ghost var before := out;
      var fields := Begin();
      fields := Put(fields, before, "WARC-Type", "request");
      if r.date.Some? {
        fields := Put(fields, before, "WARC-Date", formats.printDate(r.date.value));
      }
      fields := Put(fields, before, "WARC-Target-URI", r.url);
      fields := Put(fields, before, "Content-Length", Decimal.Print(0));
      End(fields, before, []);
      assert fields == RequestFields(formats, r);
    }

    method WriteSecond(r: Response)
      modifies this`out
      ensures out == old(out) + WriteResponse(r)
    {
      hide Raw, RawRecord, HeaderLines;
      ghost var before := out;
      var fields := Begin();
      fields := Put(fields, before, "WARC-Type", "response");
      if r.payloadType.Some? {
        fields := Put(fields, before, "WARC-Identified-Payload-Type", PayloadName(r.payloadType.value));
      }
      var content := ResponseContent(r);
      fields := Put(fields, before, "Content-Length", Decimal.Print(|content|));
      End(fields, before, content);
      assert fields == ResponseFields(r);
    }
  }

  // ----- reading -----

  method MetadataFromRaw<Date, Doc>(f: Formats<Date, Doc>, raw: RawWarc) returns (r: Result<Metadata<Doc>, WarcError>)
    ensures r == MetadataOf(f, raw)
  {
    hide FirstLine, AfterLine, MetadataLine, Chomp;
    if |raw.content| > MAX_METADATA_RECORD_BYTES { return Err(MetadataTooLarge); }
    var found: Found<Doc> := Found(None, None);
    var left := raw.content;
    while left != []
      invariant MetadataLines(f, raw.content, Found(None, None)) == MetadataLines(f, left, found)
      decreases |left|
    {
      var line := FirstLine(left);
      if line.None? { return Err(InvalidUtf8); }
      var next := MetadataLine(f, Chomp(line.value), found);
      if next.Err? { return Err(next.error); }
      Shorter(left);
      found, left := next.value, AfterLine(left);
    }
    if found.fetchTimeMs.None? { return Err(NoFetchTime); }
    r := Ok(Metadata(found.fetchTimeMs.value, found.document));
  }

  class RecordIterator<Date, Doc> {
    const formats: Formats<Date, Doc>
    var numReads: nat
    var rest: seq<byte>

    constructor (formats: Formats<Date, Doc>, input: seq<byte>)
      ensures this.formats == formats && numReads == 0 && rest == input
    {
      this.formats, numReads, rest := formats, 0, input;
    }

    method NextRawRecord() returns (r: Option<Result<RawWarc, WarcError>>)
      modifies this`rest
      ensures (r, rest) == NextRaw(old(rest))
    {
      hide FirstLine, AfterLine, Upper, TrimEnd, ParseField, ParseContent;
      var version, empty := FirstLine(rest), rest == [];
      rest := AfterLine(rest);
      if version.None? || empty { return None; }
      if !("WARC/1." <= Upper(TrimEnd(version.value))) { return Some(Err(UnknownVersion)); }

      var header: Header := map[];
      ghost var start := rest;
      while true
        invariant ParseHeader(start, map[]) == ParseHeader(rest, header)
        decreases |rest|
      {
        var line, atEnd := FirstLine(rest), rest == [];
        if !atEnd { Shorter(rest); }
        rest := AfterLine(rest);
        if line.None? { return Some(Err(InvalidUtf8)); }
        if line.value == "\r\n" || atEnd { break; }
        var field := ParseField(line.value);
        if field.None? { return Some(Err(HeaderWithoutColon)); }
        header := header[field.value.0 := field.value.1];
      }
      assert ParseHeader(start, map[]) == (Ok(header), rest);

      var content := ParseContent(header, rest);
      rest := content.1;
      r := Some(content.0);
    }

    /** What `Next` yields from `bs` after `n` earlier reads. */
    static ghost function NextItem(f: Formats<Date, Doc>, bs: seq<byte>, n: nat): (Item<Date, Doc>, seq<byte>) {
      if n > 0 then Collect(f, bs, NoParts())
      else
        var (info, left) := NextRaw(bs);
        if info.None? || info.value.Err? then (None, left) else Collect(f, left, NoParts())
    }

    method Next() returns (r: Item<Date, Doc>)
      modifies this
      ensures (r, rest) == NextItem(formats, old(rest), old(numReads))
      ensures r.Some? ==> numReads == old(numReads) + 1
    {
      hide NextRaw, AddPart;
      if numReads == 0 {
        var info := NextRawRecord();
        if info.None? || info.value.Err? { return None; }
      }
      numReads := numReads + 1;

      var p: Parts<Date, Doc> := NoParts();
      ghost var start := rest;
      while true
        invariant numReads == old(numReads) + 1
        invariant Collect(formats, start, NoParts()) == Collect(formats, rest, p)
        decreases |rest|
      {
        NextRawShrinks(rest);
        var raw := NextRawRecord();
        if raw.None? { break; }
        if raw.value.Err? { return Some(Err(raw.value.error)); }
        var next := AddPart(formats, raw.value.value, p);
        if next.Err? { return Some(Err(next.error)); }
        p := next.value;
        if Complete(p) { break; }
      }
      r := Finish(p);
    }
  }

  /** Running the iterator to its end yields all items of the file. */
  method ReadRecords<Date, Doc>(f: Formats<Date, Doc>, input: seq<byte>)
    returns (items: seq<Result<Record<Date, Doc>, WarcError>>)
    ensures items == ReadAll(f, input)
  {
    hide NextRaw, Collect;
    var records := new RecordIterator(f, input);
    NextRawShrinks(input);
    CollectShrinks(f, NextRaw(input).1, NoParts());
    var item := records.Next();
    items := [];
    while item.Some?
      invariant records.formats == f && (item.Some? ==> records.numReads > 0)
      invariant ReadAll(f, input) == items + if item.Some? then [item.value] + Items(f, records.rest) else []
      decreases |records.rest| + if item.Some? then 1 else 0
    {
      items := items + [item.value];
      CollectShrinks(f, records.rest, NoParts());
      item := records.Next();
    }
  }

  /** Writing records, of which some may be refused, and reading the file. */
  method WriteThenRead<Date(!new), Doc(!new)>(f: Formats<Date, Doc>, created: string, rs: seq<Record<Date, Doc>>)
    returns (items: seq<Result<Record<Date, Doc>, WarcError>>)
    requires Faithful(f) && forall i :: 0 <= i < |rs| ==> Plain(f, rs[i])
    requires |Raw("ISPARTOF: crawl[" + created + "]")| < U64_SIZE
    ensures items == ReadBack(f, rs, false)
  {
    hide Written, ReadBack, Plain, Faithful, WriteInfo, Raw;
    var writer := new WarcWriter(f, created);
    assert rs[0..] == rs;
    for i := 0 to |rs|
      invariant fresh(writer) && writer.formats == f
      invariant writer.out + WriteEach(f, rs[i..]) == WriteInfo(created) + WriteEach(f, rs)
    {
      assert rs[i..][1..] == rs[i + 1..];
      ghost var before := writer.out;
      var _ := writer.Write(rs[i]);
      assert before + (Written(f, rs[i]) + WriteEach(f, rs[i + 1..])) == writer.out + WriteEach(f, rs[i + 1..]);
    }
    assert WriteEach(f, rs[|rs|..]) == [];
    items := ReadRecords(f, writer.out);
    FileReadsBack(f, created, rs);
    assert writer.out + [] == writer.out;
  }
}
