/** What a whole file reads back as, also when the writer refused some of the records. */
module WarcFile {
  import opened Wrappers
  import opened Bytes
  import Utf8
  import Decimal
  import opened Text
  import opened WarcFormat
  import opened WarcReader
  import opened WarcRoundTrip

  // ----- lines that are no version -----

  lemma {:induction false} TrimEndPrefix(s: string)
    ensures TrimEnd(s) <= s
  {
    if s != "" && IsWhitespace(s[|s| - 1]) {
      TrimEndPrefix(s[..|s| - 1]);
    }
  }

  const VERSION := "WARC/1."

  /** The line differs from a version at place `i`. */
  ghost predicate NoVersion(line: string, i: nat) {
    i < |VERSION| && (i >= |line| || UpperChar(line[i]) != VERSION[i])
  }

  lemma NotAVersion(line: string, i: nat)
    requires NoVersion(line, i)
    ensures !("WARC/1." <= Upper(TrimEnd(line)))
  {
    hide IsWhitespace, TrimEnd;
    TrimEndPrefix(line);
    var t := TrimEnd(line);
    assert i < |t| ==> Upper(t)[i] == UpperChar(line[i]);
  }

  /** Where a record should begin, any other line is an error of its own. */
  lemma LineSkipped<Date, Doc>(f: Formats<Date, Doc>, text: string, i: nat, rest: seq<byte>)
    requires '\n' !in text && NoVersion(text + "\n", i)
    ensures Items(f, Raw(text + "\n") + rest) == [Err(UnknownVersion)] + Items(f, rest)
  {
    hide Raw, FirstLine, AfterLine, Upper, TrimEnd, ParseHeader, AddPart, NoVersion, Items;
    LineRoundTrip(text, rest);
    NotAVersion(text + "\n", i);
    var bs := Raw(text + "\n") + rest;
    assert NextRaw(bs) == (Some(Err(UnknownVersion)), rest);
    ItemsStep(f, bs);
  }

  lemma ItemsStep<Date, Doc>(f: Formats<Date, Doc>, bs: seq<byte>)
    ensures var (item, rest) := Collect(f, bs, NoParts());
            Items(f, bs) == if item.None? then [] else [item.value] + Items(f, rest)
  {
    hide Collect;
  }

  // ----- the header of a request, read from its second line -----

  function Unknown<Date, Doc>(n: nat): seq<Result<Record<Date, Doc>, WarcError>> {
    seq(n, _ => Err(UnknownVersion))
  }

  lemma UnknownMore<Date, Doc>(n: nat, items: seq<Result<Record<Date, Doc>, WarcError>>)
    ensures [Err(UnknownVersion)] + (Unknown(n) + items) == Unknown(n + 1) + items
    ensures Unknown(0) + items == items
  {
  }

  /** A header field that cannot be taken for a version line. */
  ghost predicate PlainField(field: (string, string)) {
    FieldOk(field) && (field.0 == "Content-Length" || (|field.0| > 5 && field.0[4] == '-'))
  }

  lemma FieldNoVersion(field: (string, string))
    requires PlainField(field)
    ensures exists i: nat :: NoVersion(field.0 + ": " + field.1 + "\r" + "\n", i)
  {
    var line := field.0 + ": " + field.1 + "\r" + "\n";
    if field.0 == "Content-Length" {
      assert line[0] == 'C';
      assert NoVersion(line, 0);
    } else {
      assert line[4] == '-';
      assert NoVersion(line, 4);
    }
  }

  lemma {:induction false} FieldsSkipped<Date, Doc>(f: Formats<Date, Doc>, fields: seq<(string, string)>, rest: seq<byte>)
    requires forall i :: 0 <= i < |fields| ==> PlainField(fields[i])
    ensures Items(f, Raw(HeaderLines(fields)) + rest) == Unknown(|fields|) + Items(f, rest)
    decreases |fields|
  {
    hide Raw, Items, PlainField, NoVersion, FieldOk;
    if fields == [] {
      RawEmpty();
      assert Raw(HeaderLines(fields)) + rest == rest;
      UnknownMore(0, Items(f, rest));
    } else {
      var text := fields[0].0 + ": " + fields[0].1 + "\r";
      var more := HeaderLines(fields[1..]);
      FieldNoVersion(fields[0]);
      PlainText(fields[0]);
      var i: nat :| NoVersion(text + "\n", i);
      LineSkipped(f, text, i, Raw(more) + rest);
      FieldsSkipped(f, fields[1..], rest);
      assert HeaderLines(fields) == text + "\n" + more;
      RawConcat(text + "\n", more);
      assert Raw(HeaderLines(fields)) + rest == Raw(text + "\n") + (Raw(more) + rest);
      UnknownMore(|fields| - 1, Items(f, rest));
    }
  }

  lemma PlainText(field: (string, string))
    requires PlainField(field)
    ensures '\n' !in field.0 + ": " + field.1 + "\r"
  {
  }

  lemma BlankSkipped<Date, Doc>(f: Formats<Date, Doc>, rest: seq<byte>)
    ensures Items(f, Raw("\r\n") + rest) == [Err(UnknownVersion)] + Items(f, rest)
  {
    hide Raw, Items;
    assert "\r" + "\n" == "\r\n";
    assert NoVersion("\r\n", 0);
    LineSkipped(f, "\r", 0, rest);
  }

  /** What is left of a request once its version line has been read as a header field of the record before it. */
  function RequestRemains<Date, Doc>(f: Formats<Date, Doc>, r: Request<Date>): seq<byte> {
    Raw(HeaderLines(RequestFields(f, r))) + (Raw("\r\n") + Raw("\r\n\r\n"))
  }

  function RemainingLines<Date>(r: Request<Date>): nat {
    if r.date.Some? then 7 else 6
  }

  lemma RequestSkipped<Date(!new), Doc(!new)>(f: Formats<Date, Doc>, r: Request<Date>, rest: seq<byte>)
    requires Faithful(f) && '\n' !in r.url
    ensures Items(f, RequestRemains(f, r) + rest) == Unknown(RemainingLines(r)) + Items(f, rest)
  {
    RequestPlain(f, r);
    hide Raw, Items, RequestFields, PlainField, Faithful, HeaderLines, Unknown;
    var fields, n := RequestFields(f, r), RemainingLines(r);
    var one := Raw("\r\n") + rest;
    var two := Raw("\r\n") + one;
    var three := Raw("\r\n") + two;
    RawConcat("\r\n", "\r\n");
    assert "\r\n" + "\r\n" == "\r\n\r\n";
    assert RequestRemains(f, r) + rest == Raw(HeaderLines(fields)) + three;
    FieldsSkipped(f, fields, three);
    BlankSkipped(f, rest);
    BlankSkipped(f, one);
    BlankSkipped(f, two);
    ThreeMore(n - 3, Items(f, rest));
  }

  lemma ThreeMore<Date, Doc>(n: nat, items: seq<Result<Record<Date, Doc>, WarcError>>)
    ensures var e: seq<Result<Record<Date, Doc>, WarcError>> := [Err(UnknownVersion)];
            Unknown(n) + (e + (e + (e + items))) == Unknown(n + 3) + items
  {
  }

  lemma RequestPlain<Date(!new), Doc(!new)>(f: Formats<Date, Doc>, r: Request<Date>)
    requires Faithful(f) && '\n' !in r.url
    ensures forall i :: 0 <= i < |RequestFields(f, r)| ==> PlainField(RequestFields(f, r)[i])
    ensures |RequestFields(f, r)| == RemainingLines(r) - 3
  {
    hide Decimal.Print, Faithful;
    DigitsOnly(0);
    DateOneLine(f, r);
    var fields := RequestFields(f, r);
    assert PlainField(("WARC-Type", "request")) && PlainField(("WARC-Target-URI", r.url)) && PlainField(Length([]));
    assert r.date.Some? ==> PlainField(("WARC-Date", f.printDate(r.date.value)));
    hide PlainField;
  }

  lemma DateOneLine<Date(!new), Doc(!new)>(f: Formats<Date, Doc>, r: Request<Date>)
    requires Faithful(f)
    ensures r.date.Some? ==> '\n' !in f.printDate(r.date.value)
  {
  }

  // ----- a record that was cut -----

  lemma CutLine()
    ensures Raw(HeaderLines([("WARC-Type", "metadata")])) == Raw("WARC-Type: metadata\r" + "\n")
  {
    hide Raw;
    var field := ("WARC-Type", "metadata");
    assert [field][1..] == [];
    assert HeaderLines([field]) == "WARC-Type: metadata\r" + "\n";
  }

  lemma CutField()
    ensures ParseField("WARC-Type: metadata\r" + "\n") == Some(("WARC-TYPE", "metadata"))
  {
    hide Upper, ParseField;
    var field := ("WARC-Type", "metadata");
    Keys();
    FieldRoundTrip(field);
    assert field.0 + ": " + field.1 + "\r\n" == "WARC-Type: metadata\r" + "\n";
  }

  lemma VersionIsNoField()
    ensures ParseField("WARC/1.0\r\n").None?
  {
    assert ':' !in "WARC/1.0\r\n";
  }

  /** The version line of the next record is taken for a header field, and has no colon. */
  lemma CutHeader(rest: seq<byte>)
    ensures ParseHeader(Raw("WARC-Type: metadata\r" + "\n") + (Raw("WARC/1.0\r\n") + rest), map[])
         == (Err(HeaderWithoutColon), rest)
  {
    hide FirstLine, AfterLine, Raw, ParseField;
    var line := "WARC-Type: metadata\r" + "\n";
    var next := Raw("WARC/1.0\r\n") + rest;
    LineRoundTrip("WARC-Type: metadata\r", next);
    VersionLine(rest);
    CutField();
    VersionIsNoField();
    assert |line| > 2 && |"WARC/1.0\r\n"| > 2;
    assert ParseHeader(next, map["WARC-TYPE" := "metadata"]) == (Err(HeaderWithoutColon), rest);
  }

  lemma CutThenRequest<Date(!new), Doc(!new)>(f: Formats<Date, Doc>, r: Request<Date>, rest: seq<byte>, p: Parts<Date, Doc>)
    ensures Collect(f, Cut() + (WriteRequest(f, r) + rest), p) == (Some(Err(HeaderWithoutColon)), RequestRemains(f, r) + rest)
  {
    hide FirstLine, AfterLine, Raw, ParseHeader, Upper, TrimEnd, AddPart, HeaderLines, RequestFields;
    var remains := RequestRemains(f, r) + rest;
    var header := Raw("WARC-Type: metadata\r" + "\n");
    var next := Raw("WARC/1.0\r\n") + remains;
    RequestGrouped(Raw("WARC/1.0\r\n"), Raw(HeaderLines(RequestFields(f, r))), Raw("\r\n"), Raw("\r\n\r\n"), rest);
    assert WriteRequest(f, r) + rest == next;
    CutLine();
    assert Cut() + next == Raw("WARC/1.0\r\n") + (header + next);
    VersionLine(header + next);
    VersionText();
    CutHeader(remains);
  }

  lemma RequestGrouped(a: seq<byte>, b: seq<byte>, c: seq<byte>, d: seq<byte>, rest: seq<byte>)
    ensures a + b + c + [] + d + rest == a + (b + (c + d) + rest)
  {
  }

  lemma CutLast<Date(!new), Doc(!new)>(f: Formats<Date, Doc>, p: Parts<Date, Doc>)
    ensures Collect(f, Cut() + [], p) == (Some(Err(NoContentLength)), [])
  {
    hide FirstLine, AfterLine, Raw, ParseField, Upper, TrimEnd, AddPart, HeaderLines;
    var line := "WARC-Type: metadata\r" + "\n";
    var header := Raw(line) + [];
    CutLine();
    assert Cut() + [] == Raw("WARC/1.0\r\n") + header;
    VersionLine(header);
    VersionText();
    LineRoundTrip("WARC-Type: metadata\r", []);
    CutField();
    NothingAfter();
    assert |line| > 2;
    assert ParseHeader([], map["WARC-TYPE" := "metadata"]) == (Ok(map["WARC-TYPE" := "metadata"]), []);
    assert ParseHeader(header, map[]) == (Ok(map["WARC-TYPE" := "metadata"]), []);
  }

  lemma NothingAfter()
    ensures FirstLine([]) == Some("") && AfterLine([]) == []
  {
  }

  // ----- what a list of writes reads back as -----

  type Read<Date, Doc> = seq<Result<Record<Date, Doc>, WarcError>>

  /** The items read from a file of these records. Reading is `shifted` once it has lost the request of the first:
      from then on each response and metadata is taken together with the request of the record after it, until
      a document that does not fit sets it right again. */
  ghost function ReadBack<Date, Doc>(f: Formats<Date, Doc>, rs: seq<Record<Date, Doc>>, shifted: bool): Read<Date, Doc>
    decreases |rs|
  {
    if rs == [] then []
    else if !DocValid(f, rs[0].metadata) then
      if |rs| == 1 then [Err(NoContentLength)]
      else [Err(HeaderWithoutColon)] + (Unknown(RemainingLines(rs[1].request)) + ReadBack(f, rs[1..], true))
    else if !DocFits(f, rs[0].metadata) then [Err(SizeError(f, rs[0].metadata))] + ReadBack(f, rs[1..], false)
    else if !shifted then [Ok(rs[0])] + ReadBack(f, rs[1..], false)
    else if |rs| == 1 then []
    else [Ok(Record(rs[1].request, rs[0].response, rs[0].metadata))] + ReadBack(f, rs[1..], true)
  }

  /** The metadata record of the first write, whole or cut, and everything after it. */
  ghost function FromThird<Date, Doc>(f: Formats<Date, Doc>, rs: seq<Record<Date, Doc>>): seq<byte>
    requires rs != []
  {
    (if DocValid(f, rs[0].metadata) then WriteMetadata(f, rs[0].metadata) else Cut()) + WriteEach(f, rs[1..])
  }

  ghost function FromSecond<Date, Doc>(f: Formats<Date, Doc>, rs: seq<Record<Date, Doc>>): seq<byte>
    requires rs != []
  {
    WriteResponse(rs[0].response) + FromThird(f, rs)
  }

  lemma FromFirst<Date, Doc>(f: Formats<Date, Doc>, rs: seq<Record<Date, Doc>>)
    requires rs != []
    ensures WriteEach(f, rs) == WriteRequest(f, rs[0].request) + FromSecond(f, rs)
  {
    hide WriteRequest, WriteResponse, WriteMetadata, Cut, DocValid;
    Grouped(WriteRequest(f, rs[0].request), WriteResponse(rs[0].response),
            if DocValid(f, rs[0].metadata) then WriteMetadata(f, rs[0].metadata) else Cut(), WriteEach(f, rs[1..]));
  }

  lemma Grouped(a: seq<byte>, b: seq<byte>, c: seq<byte>, d: seq<byte>)
    ensures a + b + c + d == a + (b + (c + d))
  {
  }

  ghost predicate Plain<Date, Doc>(f: Formats<Date, Doc>, r: Record<Date, Doc>) {
    InMemory(f, r) && '\n' !in r.request.url
  }

  /** Parts that still lack the metadata, of a record whose response has been read. */
  ghost function PartsOf<Date, Doc>(r: Record<Date, Doc>, shifted: bool): Parts<Date, Doc> {
    Parts(if shifted then None else Some(r.request), Some(r.response), None)
  }

  lemma UpToThird<Date(!new), Doc(!new)>(f: Formats<Date, Doc>, rs: seq<Record<Date, Doc>>, shifted: bool)
    requires Faithful(f) && rs != [] && Plain(f, rs[0])
    ensures Collect(f, Stream(f, rs, shifted), NoParts())
         == Collect(f, FromThird(f, rs), PartsOf(rs[0], shifted))
  {
    hide FromThird, NextRaw, WriteRequest, WriteResponse, ResponseContent, ResponseOf, RequestOf, MetadataOf, WriteEach, Raw, MetadataText;
    if shifted {
      ResponseRoundTrip(f, rs[0].response, FromThird(f, rs));
    } else {
      FromFirst(f, rs);
      FirstTwoParts(f, rs[0], FromThird(f, rs));
    }
  }

  /** A refused write: the next record's version line is lost with it, and its header comes out line by line. */
  lemma AfterRefused<Date(!new), Doc(!new)>(f: Formats<Date, Doc>, rs: seq<Record<Date, Doc>>, p: Parts<Date, Doc>)
    requires rs != [] && !DocValid(f, rs[0].metadata)
    ensures Collect(f, FromThird(f, rs), p) ==
            if |rs| == 1 then (Some(Err(NoContentLength)), [])
            else (Some(Err(HeaderWithoutColon)), RequestRemains(f, rs[1].request) + FromSecond(f, rs[1..]))
  {
    hide Collect, Cut, WriteRequest, FromSecond, RequestRemains, DocValid;
    if |rs| == 1 {
      CutLast(f, p);
    } else {
      FromFirst(f, rs[1..]);
      CutThenRequest(f, rs[1].request, FromSecond(f, rs[1..]), p);
    }
  }

  /** A fitting document, in a record whose request was lost, goes to the request of the next record. */
  lemma AfterShifted<Date(!new), Doc(!new)>(f: Formats<Date, Doc>, rs: seq<Record<Date, Doc>>)
    requires Faithful(f) && rs != [] && Plain(f, rs[0]) && DocValid(f, rs[0].metadata) && DocFits(f, rs[0].metadata)
    requires |rs| > 1 ==> Plain(f, rs[1])
    ensures |rs| == 1 ==> Collect(f, FromThird(f, rs), PartsOf(rs[0], true)).0 == None
    ensures |rs| > 1 ==>
              Collect(f, FromThird(f, rs), PartsOf(rs[0], true))
              == (Some(Ok(Record(rs[1].request, rs[0].response, rs[0].metadata))), FromSecond(f, rs[1..]))
  {
    hide NextRaw, WriteRequest, WriteMetadata, FromSecond, RequestOf, ResponseOf, MetadataOf, ResponseContent, Raw, MetadataText,
         DocFits, DocValid;
    var rest := WriteEach(f, rs[1..]);
    MetadataRoundTrip(f, rs[0].metadata, rest);
    var p: Parts<Date, Doc> := Parts(None, Some(rs[0].response), Some(rs[0].metadata));
    assert Collect(f, FromThird(f, rs), PartsOf(rs[0], true)) == Collect(f, rest, p);
    if |rs| == 1 {
      EndOfFile();
    } else {
      FromFirst(f, rs[1..]);
      RequestRoundTrip(f, rs[1].request, FromSecond(f, rs[1..]));
    }
  }

  lemma EndOfFile()
    ensures NextRaw([]).0 == None
  {
  }

  lemma AfterFitting<Date(!new), Doc(!new)>(f: Formats<Date, Doc>, rs: seq<Record<Date, Doc>>)
    requires Faithful(f) && rs != [] && Plain(f, rs[0]) && DocValid(f, rs[0].metadata) && DocFits(f, rs[0].metadata)
    ensures Collect(f, FromThird(f, rs), PartsOf(rs[0], false)) == (Some(Ok(rs[0])), WriteEach(f, rs[1..]))
  {
    hide NextRaw, WriteMetadata, WriteEach, RequestOf, ResponseOf, MetadataOf, ResponseContent, Raw, MetadataText, DocFits, DocValid;
    MetadataRoundTrip(f, rs[0].metadata, WriteEach(f, rs[1..]));
  }

  lemma AfterOversized<Date(!new), Doc(!new)>(f: Formats<Date, Doc>, rs: seq<Record<Date, Doc>>, shifted: bool)
    requires Faithful(f) && rs != [] && Plain(f, rs[0]) && DocValid(f, rs[0].metadata) && !DocFits(f, rs[0].metadata)
    ensures Collect(f, FromThird(f, rs), PartsOf(rs[0], shifted)) == (Some(Err(SizeError(f, rs[0].metadata))), WriteEach(f, rs[1..]))
  {
    hide Collect, WriteMetadata, WriteEach, SizeError, DocFits, DocValid;
    OversizedDocument(f, rs[0].metadata, WriteEach(f, rs[1..]), PartsOf(rs[0], shifted));
  }

  /** The bytes left to read, from the first request or from the first response. */
  ghost function Stream<Date, Doc>(f: Formats<Date, Doc>, rs: seq<Record<Date, Doc>>, shifted: bool): seq<byte> {
    if shifted && rs != [] then FromSecond(f, rs) else WriteEach(f, rs)
  }

  lemma ItemsRefused<Date(!new), Doc(!new)>(f: Formats<Date, Doc>, rs: seq<Record<Date, Doc>>, shifted: bool)
    requires Faithful(f) && rs != [] && Plain(f, rs[0]) && !DocValid(f, rs[0].metadata)
    requires |rs| > 1 ==> Plain(f, rs[1]) && Items(f, FromSecond(f, rs[1..])) == ReadBack(f, rs[1..], true)
    ensures Items(f, Stream(f, rs, shifted)) == ReadBack(f, rs, shifted)
  {
    hide Collect, FromSecond, FromThird, PartsOf, Plain, Faithful, Items, Unknown, WriteEach, DocValid, RequestRemains;
    ItemsStep(f, Stream(f, rs, shifted));
    UpToThird(f, rs, shifted);
    AfterRefused(f, rs, PartsOf(rs[0], shifted));
    if |rs| == 1 {
      NoItems(f);
    } else {
      UrlOneLine(f, rs[1]);
      RequestSkipped(f, rs[1].request, FromSecond(f, rs[1..]));
    }
  }

  lemma ItemsAccepted<Date(!new), Doc(!new)>(f: Formats<Date, Doc>, rs: seq<Record<Date, Doc>>, shifted: bool)
    requires Faithful(f) && rs != [] && Plain(f, rs[0]) && DocValid(f, rs[0].metadata)
    requires !shifted || !DocFits(f, rs[0].metadata)
    requires Items(f, WriteEach(f, rs[1..])) == ReadBack(f, rs[1..], false)
    ensures Items(f, Stream(f, rs, shifted)) == ReadBack(f, rs, shifted)
  {
    hide Collect, FromSecond, FromThird, PartsOf, Plain, Faithful, Items, WriteEach, DocFits, DocValid, SizeError;
    ItemsStep(f, Stream(f, rs, shifted));
    UpToThird(f, rs, shifted);
    if !DocFits(f, rs[0].metadata) {
      AfterOversized(f, rs, shifted);
    } else {
      AfterFitting(f, rs);
    }
  }

  lemma ItemsShifted<Date(!new), Doc(!new)>(f: Formats<Date, Doc>, rs: seq<Record<Date, Doc>>)
    requires Faithful(f) && rs != [] && Plain(f, rs[0]) && DocValid(f, rs[0].metadata) && DocFits(f, rs[0].metadata)
    requires |rs| > 1 ==> Plain(f, rs[1]) && Items(f, FromSecond(f, rs[1..])) == ReadBack(f, rs[1..], true)
    ensures Items(f, Stream(f, rs, true)) == ReadBack(f, rs, true)
  {
    hide Collect, FromSecond, FromThird, PartsOf, Plain, Faithful, Items, WriteEach, DocFits, DocValid;
    ItemsStep(f, Stream(f, rs, true));
    UpToThird(f, rs, true);
    AfterShifted(f, rs);
  }

  lemma {:induction false} ItemsAre<Date(!new), Doc(!new)>(f: Formats<Date, Doc>, rs: seq<Record<Date, Doc>>, shifted: bool)
    requires Faithful(f) && forall i :: 0 <= i < |rs| ==> Plain(f, rs[i])
    ensures Items(f, Stream(f, rs, shifted)) == ReadBack(f, rs, shifted)
    decreases |rs|
  {
    hide Plain, Faithful, Items, WriteEach, FromSecond, DocFits, DocValid, ReadBack;
    if rs == [] {
      NoneWritten(f, shifted);
    } else {
      ItemsAre(f, rs[1..], true);
      ItemsAre(f, rs[1..], false);
      if !DocValid(f, rs[0].metadata) {
        ItemsRefused(f, rs, shifted);
      } else if shifted && DocFits(f, rs[0].metadata) {
        ItemsShifted(f, rs);
      } else {
        ItemsAccepted(f, rs, shifted);
      }
    }
  }

  lemma NoneWritten<Date, Doc>(f: Formats<Date, Doc>, shifted: bool)
    ensures Items(f, Stream(f, [], shifted)) == ReadBack(f, [], shifted)
  {
    NoItems(f);
  }

  lemma UrlOneLine<Date, Doc>(f: Formats<Date, Doc>, r: Record<Date, Doc>)
    requires Plain(f, r)
    ensures '\n' !in r.request.url
  {
  }

  lemma NoItems<Date, Doc>(f: Formats<Date, Doc>)
    ensures Items(f, []) == []
  {
    NothingLeft(f);
  }

  /** Every file of records whose URLs have no line feed, accepted or refused, reads back as exactly these items. */
  lemma FileReadsBack<Date(!new), Doc(!new)>(f: Formats<Date, Doc>, created: string, rs: seq<Record<Date, Doc>>)
    requires Faithful(f) && forall i :: 0 <= i < |rs| ==> Plain(f, rs[i])
    requires |Raw("ISPARTOF: crawl[" + created + "]")| < U64_SIZE
    ensures ReadAll(f, WriteInfo(created) + WriteEach(f, rs)) == ReadBack(f, rs, false)
  {
    hide WriteInfo, WriteEach, Faithful, Plain, Items, NextRaw, ReadBack;
    InfoRoundTrip(created, WriteEach(f, rs));
    ItemsAre(f, rs, false);
  }

  /** The records that the writer accepted. */
  ghost function Accepted<Date, Doc>(f: Formats<Date, Doc>, rs: seq<Record<Date, Doc>>): seq<Record<Date, Doc>> {
    if rs == [] then []
    else (if DocValid(f, rs[0].metadata) then [rs[0]] else []) + Accepted(f, rs[1..])
  }

  ghost predicate Clean<Date, Doc>(f: Formats<Date, Doc>, rs: seq<Record<Date, Doc>>) {
    forall i :: 0 <= i < |rs| ==> DocValid(f, rs[i].metadata) && DocFits(f, rs[i].metadata)
  }

  /** A file gives back the accepted records exactly when no write was refused and every document fits. */
  lemma {:induction false} AcceptedIff<Date, Doc>(f: Formats<Date, Doc>, rs: seq<Record<Date, Doc>>)
    ensures ReadBack(f, rs, false) == AllOk(Accepted(f, rs)) <==> Clean(f, rs)
    decreases |rs|
  {
    hide DocValid, DocFits, SizeError, Unknown;
    if rs != [] {
      var rest := rs[1..];
      AcceptedIff(f, rest);
      assert forall i :: 0 <= i < |rest| ==> rest[i] == rs[i + 1];
      if DocValid(f, rs[0].metadata) && DocFits(f, rs[0].metadata) {
        assert Accepted(f, rs) == [rs[0]] + Accepted(f, rest);
        AllOkCons(rs[0], Accepted(f, rest));
        SameTail(Ok(rs[0]), ReadBack(f, rest, false), AllOk(Accepted(f, rest)));
      } else {
        assert ReadBack(f, rs, false)[0].Err?;
      }
    }
  }

  /** The same, from the writes to the items read. */
  lemma FileGivesBackIff<Date(!new), Doc(!new)>(f: Formats<Date, Doc>, created: string, rs: seq<Record<Date, Doc>>)
    requires Faithful(f) && forall i :: 0 <= i < |rs| ==> Plain(f, rs[i])
    requires |Raw("ISPARTOF: crawl[" + created + "]")| < U64_SIZE
    ensures ReadAll(f, WriteInfo(created) + WriteEach(f, rs)) == AllOk(Accepted(f, rs)) <==> Clean(f, rs)
  {
    hide ReadAll, WriteInfo, WriteEach, ReadBack, Accepted, Clean, Faithful, Plain, Raw;
    FileReadsBack(f, created, rs);
    AcceptedIff(f, rs);
  }

  lemma AllOkCons<Date, Doc>(r: Record<Date, Doc>, rs: seq<Record<Date, Doc>>)
    ensures AllOk([r] + rs) == [Ok(r)] + AllOk(rs)
  {
  }

  lemma SameTail<T>(x: T, a: seq<T>, b: seq<T>)
    ensures [x] + a == [x] + b <==> a == b
  {
    assert ([x] + a)[1..] == a && ([x] + b)[1..] == b;
  }

  /** After a refused write, acceptable records are all read under the wrong URL, and the last is lost. */
  lemma {:induction false} ShiftedRun<Date, Doc>(f: Formats<Date, Doc>, rs: seq<Record<Date, Doc>>)
    requires rs != [] && Clean(f, rs)
    ensures ReadBack(f, rs, true)
         == seq(|rs| - 1, i requires 0 <= i < |rs| - 1 => Ok(Record(rs[i + 1].request, rs[i].response, rs[i].metadata)))
    decreases |rs|
  {
    hide DocValid, DocFits, SizeError, Unknown;
    if |rs| > 1 {
      var rest := rs[1..];
      assert forall i :: 0 <= i < |rest| ==> rest[i] == rs[i + 1];
      ShiftedRun(f, rest);
    }
  }
}
