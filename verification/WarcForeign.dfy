/** Reading records that other programs wrote: any header fields, any case, any line ends, any content. */
module WarcForeign {
  import opened Wrappers
  import opened Bytes
  import Utf8
  import Decimal
  import opened Text
  import opened WarcFormat
  import opened WarcReader
  import opened WarcRoundTrip
  import opened WarcFile

  // ----- raw records -----

  /** A header line. The space after the colon is optional, and so is the carriage return. */
  datatype Line = Line(key: string, spaced: bool, value: string, returned: bool)

  function LineText(l: Line): string {
    l.key + ":" + (if l.spaced then " " else "") + l.value + (if l.returned then "\r" else "")
  }

  /** The name and the value can be told from the line. */
  ghost predicate LineOk(l: Line) {
    && '\n' !in l.key && ':' !in l.key && '\n' !in l.value
    && (!l.spaced && l.value != "" ==> l.value[0] != ' ')
    && (!l.returned && l.value != "" ==> l.value[|l.value| - 1] != '\r')
  }

  lemma LineParsed(l: Line)
    requires LineOk(l)
    ensures ParseField(LineText(l) + "\n") == Some((Upper(l.key), l.value)) && '\n' !in LineText(l)
  {
    hide SplitChar, Upper;
    var padded := (if l.spaced then " " else "") + l.value;
    var v0 := padded + (if l.returned then "\r" else "") + "\n";
    assert LineText(l) + "\n" == l.key + [':'] + v0;
    SplitCharAt(l.key, ':', v0);
    Unended(padded, l.returned);
    Unpadded(l.spaced, l.value);
  }

  /** The line end comes off. */
  lemma Unended(s: string, returned: bool)
    requires !returned && s != "" ==> s[|s| - 1] != '\r'
    ensures var v := s + (if returned then "\r" else "") + "\n";
            && (returned ==> StripSuffix(v, "\r\n") == Some(s))
            && (!returned ==> StripSuffix(v, "\r\n") == None && StripSuffix(v, "\n") == Some(s))
  {
    hide StripSuffix;
    if returned {
      SuffixOff(s, "\r\n");
      assert s + "\r" + "\n" == s + "\r\n";
    } else {
      SuffixOff(s, "\n");
      NoReturn(s);
      assert s + "" + "\n" == s + "\n";
    }
  }

  lemma SuffixOff(s: string, suffix: string)
    ensures StripSuffix(s + suffix, suffix) == Some(s)
  {
    var v := s + suffix;
    assert v[|s|..] == suffix && v[..|s|] == s;
  }

  lemma NoReturn(s: string)
    requires s != "" ==> s[|s| - 1] != '\r'
    ensures StripSuffix(s + "\n", "\r\n") == None
  {
    var v := s + "\n";
    if s != "" {
      assert v[|v| - 2..][0] == s[|s| - 1];
    }
  }

  /** The space after the colon comes off. */
  lemma Unpadded(spaced: bool, value: string)
    requires !spaced && value != "" ==> value[0] != ' '
    ensures var s := (if spaced then " " else "") + value;
            (if StripPrefix(s, " ").Some? then StripPrefix(s, " ").value else s) == value
  {
    if spaced {
      assert (" " + value)[1..] == value;
    } else {
      assert "" + value == value;
    }
  }

  function HeaderText(lines: seq<Line>): string {
    if lines == [] then "" else LineText(lines[0]) + "\n" + HeaderText(lines[1..])
  }

  /** The header with the fields of `lines` added in order. */
  ghost function Fields(header: Header, lines: seq<Line>): Header
    decreases |lines|
  {
    if lines == [] then header else Fields(header[Upper(lines[0].key) := lines[0].value], lines[1..])
  }

  /** The last line of the name, in any case of its letters, has the value. */
  ghost predicate Says(lines: seq<Line>, name: string, value: string) {
    exists i :: 0 <= i < |lines| && SaysAt(lines, name, value, i)
  }

  ghost predicate SaysAt(lines: seq<Line>, name: string, value: string, i: nat)
    requires i < |lines|
  {
    && Named(lines[i], name) && lines[i].value == value
    && (forall j :: i < j < |lines| ==> !Named(lines[j], name))
  }

  ghost predicate Named(l: Line, name: string) {
    |l.key| == |name| && forall k :: 0 <= k < |name| ==> UpperChar(l.key[k]) == name[k]
  }

  lemma NamedIs(l: Line, name: string)
    ensures Named(l, name) <==> Upper(l.key) == name
  {
  }

  /** Which fields a header has: of lines with one name, the last counts. */
  lemma {:induction false} FieldsAre(header: Header, lines: seq<Line>, name: string)
    ensures name in Fields(header, lines) <==> name in header || exists i :: 0 <= i < |lines| && Named(lines[i], name)
    ensures name in Fields(header, lines) ==>
              if exists i :: 0 <= i < |lines| && Named(lines[i], name) then Says(lines, name, Fields(header, lines)[name])
              else Fields(header, lines)[name] == header[name]
    decreases |lines|
  {
    hide Upper, Named;
    if lines != [] {
      var l, rest := lines[0], lines[1..];
      NamedIs(l, name);
      var h := header[Upper(l.key) := l.value];
      FieldsAre(h, rest, name);
      assert forall i :: 0 <= i < |rest| ==> rest[i] == lines[i + 1];
      if exists i :: 0 <= i < |rest| && Named(rest[i], name) {
        var i :| 0 <= i < |rest| && SaysAt(rest, name, Fields(h, rest)[name], i);
        LaterLine(lines, name, Fields(h, rest)[name], i);
      } else if Named(l, name) {
        assert SaysAt(lines, name, l.value, 0);
      }
    }
  }

  lemma LaterLine(lines: seq<Line>, name: string, value: string, i: nat)
    requires lines != [] && i < |lines[1..]| && SaysAt(lines[1..], name, value, i)
    ensures Says(lines, name, value) && Named(lines[i + 1], name)
  {
    hide Named;
    var rest := lines[1..];
    assert forall j :: 0 <= j < |rest| ==> rest[j] == lines[j + 1];
    forall j | i + 1 < j < |lines| ensures !Named(lines[j], name) {
      assert rest[j - 1] == lines[j];
    }
    assert SaysAt(lines, name, value, i + 1);
  }

  lemma {:induction false} HeaderRead(lines: seq<Line>, header: Header, rest: seq<byte>)
    requires forall i :: 0 <= i < |lines| ==> LineOk(lines[i])
    ensures ParseHeader(Raw(HeaderText(lines)) + Raw("\r\n") + rest, header) == (Ok(Fields(header, lines)), rest)
    decreases |lines|
  {
    hide ParseField, Raw, ParseHeader, LineOk, LineText, Upper;
    if lines == [] {
      BlankLine(header, rest);
      RawEmpty();
      assert Raw(HeaderText(lines)) + Raw("\r\n") + rest == Raw("\r\n") + rest;
    } else {
      var text := LineText(lines[0]);
      var tail := Raw(HeaderText(lines[1..])) + Raw("\r\n") + rest;
      LineParsed(lines[0]);
      AnyLine(text, header, tail);
      RawConcat(text + "\n", HeaderText(lines[1..]));
      HeaderRead(lines[1..], header[Upper(lines[0].key) := lines[0].value], rest);
      assert Raw(HeaderText(lines)) + Raw("\r\n") + rest == Raw(text + "\n") + tail;
    }
  }

  /** A line with a field is not the blank line that ends the header. */
  lemma AnyLine(text: string, header: Header, rest: seq<byte>)
    requires '\n' !in text && ParseField(text + "\n").Some?
    ensures var field := ParseField(text + "\n").value;
            ParseHeader(Raw(text + "\n") + rest, header) == ParseHeader(rest, header[field.0 := field.1])
  {
    BlankIsNoField();
    hide FirstLine, AfterLine, Raw, ParseField;
    LineRoundTrip(text, rest);
  }

  lemma BlankIsNoField()
    ensures ParseField("\r\n") == None
  {
    assert ':' !in "\r\n";
  }

  // ----- versions -----

  /** The line begins with a version, in any case of its letters. */
  ghost predicate HasVersion(line: string) {
    |line| >= |VERSION| && forall i :: 0 <= i < |VERSION| ==> UpperChar(line[i]) == VERSION[i]
  }

  lemma {:induction false} TrimEndKeeps(s: string, k: nat)
    requires k < |s| && !IsWhitespace(s[k])
    ensures TrimEnd(s) <= s && |TrimEnd(s)| > k
  {
    hide IsWhitespace;
    if IsWhitespace(s[|s| - 1]) {
      TrimEndKeeps(s[..|s| - 1], k);
    }
  }

  ghost function Differs(line: string): (i: nat)
    requires |line| >= |VERSION| && !HasVersion(line)
    ensures NoVersion(line, i)
  {
    var i :| 0 <= i < |VERSION| && UpperChar(line[i]) != VERSION[i];
    i
  }

  lemma VersionRead(line: string)
    ensures "WARC/1." <= Upper(TrimEnd(line)) <==> HasVersion(line)
  {
    if HasVersion(line) {
      assert UpperChar(line[6]) == '.';
      TrimEndKeeps(line, 6);
      hide TrimEnd, IsWhitespace;
      var t := TrimEnd(line);
      assert forall i :: 0 <= i < 7 ==> Upper(t)[i] == VERSION[i];
      assert Upper(t)[..7] == "WARC/1.";
    } else {
      hide IsWhitespace;
      var i := if |line| < 7 then |line| else Differs(line);
      NotAVersion(line, i);
    }
  }

  /** A record as it may stand in a file. */
  datatype Stored = Stored(version: string, lines: seq<Line>, content: seq<byte>)

  function RecordBytes(r: Stored): seq<byte> {
    Raw(r.version + "\n") + (Raw(HeaderText(r.lines)) + Raw("\r\n") + (r.content + Raw("\r\n\r\n")))
  }

  ghost function RawOf(r: Stored): RawWarc {
    RawWarc(Fields(map[], r.lines), r.content)
  }

  /** The header announces the content, in any way of writing its length. */
  ghost predicate Announces(raw: RawWarc) {
    && "CONTENT-LENGTH" in raw.header
    && Decimal.Parse(raw.header["CONTENT-LENGTH"], U64_SIZE) == Some(|raw.content|)
    && (IsMetadata(raw.header) ==> |raw.content| <= MAX_METADATA_RECORD_BYTES)
  }

  ghost predicate RecordOk(r: Stored) {
    && '\n' !in r.version && HasVersion(r.version)
    && (forall i :: 0 <= i < |r.lines| ==> LineOk(r.lines[i]))
    && Announces(RawOf(r))
  }

  lemma ContentRead(raw: RawWarc, rest: seq<byte>)
    requires Announces(raw)
    ensures ParseContent(raw.header, raw.content + Raw("\r\n\r\n") + rest) == (Ok(raw), rest)
  {
    LineEnds();
    var bs := raw.content + Raw("\r\n\r\n") + rest;
    var n := |raw.content|;
    assert bs[..n] == raw.content && bs[n..n + 4] == [13, 10, 13, 10] && bs[n + 4..] == rest;
  }

  /** Every such record is read with its fields and its content, and reading stops right after it. */
  lemma RecordRead(r: Stored, rest: seq<byte>)
    requires RecordOk(r)
    ensures NextRaw(RecordBytes(r) + rest) == (Some(Ok(RawOf(r))), rest)
  {
    hide Raw, FirstLine, AfterLine, ParseHeader, ParseContent, Fields, Upper, TrimEnd, HasVersion, LineOk, Announces, HeaderText;
    var ending := r.content + Raw("\r\n\r\n") + rest;
    var body := Raw(HeaderText(r.lines)) + Raw("\r\n") + ending;
    Regrouped(Raw(r.version + "\n"), Raw(HeaderText(r.lines)), Raw("\r\n"), r.content, Raw("\r\n\r\n"), rest);
    LineRoundTrip(r.version, body);
    VersionRead(r.version + "\n");
    VersionStays(r.version);
    HeaderRead(r.lines, map[], ending);
    ContentRead(RawOf(r), rest);
  }

  lemma VersionStays(version: string)
    requires HasVersion(version)
    ensures HasVersion(version + "\n")
  {
  }

  lemma Regrouped(a: seq<byte>, b: seq<byte>, c: seq<byte>, d: seq<byte>, e: seq<byte>, rest: seq<byte>)
    ensures a + (b + c + (d + e)) + rest == a + (b + c + (d + e + rest))
  {
  }

  /** A record that begins with anything else is an error, and costs one line. */
  lemma NoVersionRead(text: string, rest: seq<byte>)
    requires '\n' !in text && !HasVersion(text + "\n")
    ensures NextRaw(Raw(text + "\n") + rest) == (Some(Err(UnknownVersion)), rest)
  {
    hide Raw, FirstLine, AfterLine, ParseHeader, Upper, TrimEnd, HasVersion;
    LineRoundTrip(text, rest);
    VersionRead(text + "\n");
  }

  // ----- the body of a response -----

  ghost predicate GoesOn(s: string, i: nat, sep: string) {
    i + |sep| <= |s| && s[i..i + |sep|] == sep
  }

  /** `i` is the least place where `s` goes on with `sep`. */
  ghost predicate FirstAt(s: string, i: nat, sep: string) {
    GoesOn(s, i, sep) && forall j: nat :: j < i ==> !GoesOn(s, j, sep)
  }

  lemma GoesOnLater(s: string, i: nat, sep: string)
    requires s != ""
    ensures GoesOn(s[1..], i, sep) <==> GoesOn(s, i + 1, sep)
  {
    if i + 1 + |sep| <= |s| {
      assert s[1..][i..i + |sep|] == s[i + 1..i + 1 + |sep|];
    }
  }

  lemma GoesOnHere(s: string, sep: string)
    ensures GoesOn(s, 0, sep) <==> sep <= s
  {
    if |sep| <= |s| {
      assert s[0..0 + |sep|] == s[..|sep|];
    }
  }

  /** Splitting cuts at the least such place. */
  lemma {:induction false} SplitsFirst(s: string, sep: string, i: nat)
    requires FirstAt(s, i, sep)
    ensures SplitOnce(s, sep) == Some((s[..i], s[i + |sep|..]))
    decreases |s|
  {
    GoesOnHere(s, sep);
    if i > 0 {
      assert !GoesOn(s, 0, sep);
      forall j: nat | j < i - 1 ensures !GoesOn(s[1..], j, sep) {
        GoesOnLater(s, j, sep);
      }
      GoesOnLater(s, i - 1, sep);
      SplitsFirst(s[1..], sep, i - 1);
      assert [s[0]] + s[1..][..i - 1] == s[..i] && s[1..][i - 1 + |sep|..] == s[i + |sep|..];
    }
  }

  lemma {:induction false} SplitsNowhere(s: string, sep: string)
    requires forall i: nat :: !GoesOn(s, i, sep)
    ensures SplitOnce(s, sep) == None
    decreases |s|
  {
    GoesOnHere(s, sep);
    if s != "" {
      forall i: nat ensures !GoesOn(s[1..], i, sep) {
        GoesOnLater(s, i, sep);
      }
      SplitsNowhere(s[1..], sep);
    }
  }

  // ----- what a record adds -----

  ghost predicate HasType(raw: RawWarc, kind: string) {
    "WARC-TYPE" in raw.header && raw.header["WARC-TYPE"] == kind
  }

  /** The content type is absent or begins with `media`. */
  ghost predicate Carries(raw: RawWarc, media: string) {
    "CONTENT-TYPE" !in raw.header
    || var t := raw.header["CONTENT-TYPE"]; |t| >= |media| && t[..|media|] == media
  }

  ghost predicate IsRequest(raw: RawWarc) {
    HasType(raw, "request")
  }

  ghost predicate IsResponse(raw: RawWarc) {
    (HasType(raw, "response") || HasType(raw, "revisit")) && Carries(raw, "application/http")
  }

  ghost predicate IsMetadataRecord(raw: RawWarc) {
    HasType(raw, "metadata") && Carries(raw, "application/warc-fields")
  }

  /** The content as text: UTF-8, or whatever it is guessed to be. */
  ghost function TextOf<Date, Doc>(f: Formats<Date, Doc>, content: seq<byte>): string {
    match Utf8.DecodeString(content) case Some(s) => s case None => f.detect(content)
  }

  ghost function Payload(raw: RawWarc): Option<PayloadType> {
    if "WARC-IDENTIFIED-PAYLOAD-TYPE" in raw.header then PayloadOf(raw.header["WARC-IDENTIFIED-PAYLOAD-TYPE"]) else None
  }

  /** Reading goes on until the page is complete. */
  ghost function Onward<Date, Doc>(f: Formats<Date, Doc>, rest: seq<byte>, p: Parts<Date, Doc>): (Item<Date, Doc>, seq<byte>) {
    if p.request.Some? && p.response.Some? && p.metadata.Some?
    then (Some(Ok(Record(p.request.value, p.response.value, p.metadata.value))), rest)
    else Collect(f, rest, p)
  }

  /** A response is taken if and only if it carries HTTP; its body is what follows the first blank line. */
  lemma ResponseRead<Date, Doc>(f: Formats<Date, Doc>, bs: seq<byte>, raw: RawWarc, rest: seq<byte>, p: Parts<Date, Doc>, i: nat)
    requires NextRaw(bs) == (Some(Ok(raw)), rest) && !Complete(p) && (HasType(raw, "response") || HasType(raw, "revisit"))
    ensures !Carries(raw, "application/http") ==> Collect(f, bs, p) == Collect(f, rest, p)
    ensures Carries(raw, "application/http") && p.response.Some? ==> Collect(f, bs, p) == (Some(Err(Duplicate)), rest)
    ensures Carries(raw, "application/http") && p.response.None? && FirstAt(TextOf(f, raw.content), i, "\r\n\r\n") ==>
              Collect(f, bs, p)
              == Onward(f, rest, p.(response := Some(Response(TextOf(f, raw.content)[i + 4..], Payload(raw)))))
    ensures Carries(raw, "application/http") && p.response.None? && (forall j: nat :: !GoesOn(TextOf(f, raw.content), j, "\r\n\r\n")) ==>
              Collect(f, bs, p) == (Some(Err(InvalidHttpBody)), rest)
  {
    hide NextRaw, SplitOnce, PayloadOf, GoesOn, FirstAt;
    CarriesIs(raw, "application/http");
    var text := TextOf(f, raw.content);
    if FirstAt(text, i, "\r\n\r\n") {
      SplitsFirst(text, "\r\n\r\n", i);
    }
    if forall j: nat :: !GoesOn(text, j, "\r\n\r\n") {
      SplitsNowhere(text, "\r\n\r\n");
    }
  }

  lemma CarriesIs(raw: RawWarc, media: string)
    ensures Foreign(raw, media) <==> !Carries(raw, media)
  {
  }

  /** A request has a target; its date may be missing or unreadable. */
  lemma RequestRead<Date, Doc>(f: Formats<Date, Doc>, bs: seq<byte>, raw: RawWarc, rest: seq<byte>, p: Parts<Date, Doc>)
    requires NextRaw(bs) == (Some(Ok(raw)), rest) && !Complete(p) && HasType(raw, "request")
    ensures p.request.Some? ==> Collect(f, bs, p) == (Some(Err(Duplicate)), rest)
    ensures p.request.None? && "WARC-TARGET-URI" !in raw.header ==> Collect(f, bs, p) == (Some(Err(NoTargetUrl)), rest)
    ensures p.request.None? && "WARC-TARGET-URI" in raw.header ==>
              Collect(f, bs, p) == Onward(f, rest, p.(request := Some(Request(raw.header["WARC-TARGET-URI"], DateOf(f, raw)))))
  {
    hide NextRaw;
  }

  ghost function DateOf<Date, Doc>(f: Formats<Date, Doc>, raw: RawWarc): Option<Date> {
    if "WARC-DATE" in raw.header then f.parseDate(raw.header["WARC-DATE"]) else None
  }

  /** A metadata record is taken if and only if it carries fields. */
  lemma MetadataRead<Date, Doc>(f: Formats<Date, Doc>, bs: seq<byte>, raw: RawWarc, rest: seq<byte>, p: Parts<Date, Doc>)
    requires NextRaw(bs) == (Some(Ok(raw)), rest) && !Complete(p) && HasType(raw, "metadata")
    ensures !Carries(raw, "application/warc-fields") ==> Collect(f, bs, p) == Collect(f, rest, p)
    ensures Carries(raw, "application/warc-fields") && p.metadata.Some? ==> Collect(f, bs, p) == (Some(Err(Duplicate)), rest)
    ensures Carries(raw, "application/warc-fields") && p.metadata.None? && MetadataOf(f, raw).Ok? ==>
              Collect(f, bs, p) == Onward(f, rest, p.(metadata := Some(MetadataOf(f, raw).value)))
    ensures Carries(raw, "application/warc-fields") && p.metadata.None? && MetadataOf(f, raw).Err? ==>
              Collect(f, bs, p) == (Some(Err(MetadataOf(f, raw).error)), rest)
  {
    hide NextRaw, MetadataOf;
    CarriesIs(raw, "application/warc-fields");
  }

  /** A record of any other type, or of none, is passed over. */
  lemma OtherRead<Date, Doc>(f: Formats<Date, Doc>, bs: seq<byte>, raw: RawWarc, rest: seq<byte>, p: Parts<Date, Doc>)
    requires NextRaw(bs) == (Some(Ok(raw)), rest) && !Complete(p)
    requires !HasType(raw, "request") && !HasType(raw, "response") && !HasType(raw, "revisit") && !HasType(raw, "metadata")
    ensures Collect(f, bs, p) == Collect(f, rest, p)
  {
    hide NextRaw;
  }

  // ----- whole pages -----

  function StreamOf(rs: seq<Stored>): seq<byte> {
    if rs == [] then [] else RecordBytes(rs[0]) + StreamOf(rs[1..])
  }

  /** Among the records there is one request, at `q`, one response that is taken, at `s`, and one metadata record that
      is taken, at `m`; the last of them comes last of all. The body of the response begins after the blank line at `i`. */
  ghost predicate IsPage<Date, Doc>(f: Formats<Date, Doc>, rs: seq<Stored>, q: nat, s: nat, m: nat, i: nat) {
    && q < |rs| && s < |rs| && m < |rs| && (q + 1 == |rs| || s + 1 == |rs| || m + 1 == |rs|)
    && (forall j :: 0 <= j < |rs| ==> RecordOk(rs[j]))
    && (forall j :: 0 <= j < |rs| ==> (IsRequest(RawOf(rs[j])) <==> j == q))
    && (forall j :: 0 <= j < |rs| ==> (IsResponse(RawOf(rs[j])) <==> j == s))
    && (forall j :: 0 <= j < |rs| ==> (IsMetadataRecord(RawOf(rs[j])) <==> j == m))
    && "WARC-TARGET-URI" in RawOf(rs[q]).header
    && FirstAt(TextOf(f, rs[s].content), i, "\r\n\r\n")
    && MetadataOf(f, RawOf(rs[m])).Ok?
  }

  /** The page that they make. */
  ghost function PageOf<Date, Doc>(f: Formats<Date, Doc>, rs: seq<Stored>, q: nat, s: nat, m: nat, i: nat): Record<Date, Doc>
    requires IsPage(f, rs, q, s, m, i)
  {
    Record(Request(RawOf(rs[q]).header["WARC-TARGET-URI"], DateOf(f, RawOf(rs[q]))),
           Response(TextOf(f, rs[s].content)[i + 4..], Payload(RawOf(rs[s]))),
           MetadataOf(f, RawOf(rs[m])).value)
  }

  ghost function PartsBefore<Date, Doc>(page: Record<Date, Doc>, q: nat, s: nat, m: nat, k: nat): Parts<Date, Doc> {
    Parts(if q < k then Some(page.request) else None,
          if s < k then Some(page.response) else None,
          if m < k then Some(page.metadata) else None)
  }

  /** One record of a page: it adds its part, or nothing. */
  lemma PageStep<Date, Doc>(f: Formats<Date, Doc>, rs: seq<Stored>, q: nat, s: nat, m: nat, i: nat, k: nat, rest: seq<byte>)
    requires IsPage(f, rs, q, s, m, i) && k < |rs|
    ensures var page := PageOf(f, rs, q, s, m, i);
            Collect(f, RecordBytes(rs[k]) + rest, PartsBefore(page, q, s, m, k)) == Onward(f, rest, PartsBefore(page, q, s, m, k + 1))
  {
    hide NextRaw, RecordBytes, RecordOk, RawOf, Collect, MetadataOf, TextOf, FirstAt, GoesOn, Payload, DateOf, Carries;
    var page := PageOf(f, rs, q, s, m, i);
    var p := PartsBefore(page, q, s, m, k);
    var raw, bs := RawOf(rs[k]), RecordBytes(rs[k]) + rest;
    assert RecordOk(rs[k]);
    RecordRead(rs[k], rest);
    ContentOf(rs[k]);
    if k == q {
      RequestRead(f, bs, raw, rest, p);
    } else if k == s {
      ResponseRead(f, bs, raw, rest, p, i);
    } else if k == m {
      MetadataRead(f, bs, raw, rest, p);
    } else {
      assert PartsBefore(page, q, s, m, k + 1) == p;
      Passed(f, bs, raw, rest, p);
    }
  }

  lemma ContentOf(r: Stored)
    ensures RawOf(r).content == r.content
  {
  }

  lemma Passed<Date, Doc>(f: Formats<Date, Doc>, bs: seq<byte>, raw: RawWarc, rest: seq<byte>, p: Parts<Date, Doc>)
    requires NextRaw(bs) == (Some(Ok(raw)), rest) && !Complete(p)
    requires !IsRequest(raw) && !IsResponse(raw) && !IsMetadataRecord(raw)
    ensures Collect(f, bs, p) == Collect(f, rest, p)
  {
    hide NextRaw, Collect, Carries, TextOf, FirstAt, GoesOn, MetadataOf;
    if HasType(raw, "response") || HasType(raw, "revisit") {
      ResponseRead(f, bs, raw, rest, p, 0);
    } else if HasType(raw, "metadata") {
      MetadataRead(f, bs, raw, rest, p);
    } else {
      OtherRead(f, bs, raw, rest, p);
    }
  }

  lemma {:induction false} PageFrom<Date, Doc>(f: Formats<Date, Doc>, rs: seq<Stored>, q: nat, s: nat, m: nat, i: nat, k: nat,
                                               rest: seq<byte>)
    requires IsPage(f, rs, q, s, m, i) && k < |rs|
    ensures var page := PageOf(f, rs, q, s, m, i);
            Collect(f, StreamOf(rs[k..]) + rest, PartsBefore(page, q, s, m, k)) == (Some(Ok(page)), rest)
    decreases |rs| - k
  {
    hide RecordBytes, Collect, IsPage, PageOf;
    var page := PageOf(f, rs, q, s, m, i);
    assert rs[k..][1..] == rs[k + 1..];
    var after := StreamOf(rs[k + 1..]) + rest;
    assert StreamOf(rs[k..]) + rest == RecordBytes(rs[k]) + after;
    PageStep(f, rs, q, s, m, i, k, after);
    PageBounds(f, rs, q, s, m, i);
    if k + 1 < |rs| {
      PageFrom(f, rs, q, s, m, i, k + 1, rest);
    } else {
      assert after == rest;
    }
  }

  lemma PageBounds<Date, Doc>(f: Formats<Date, Doc>, rs: seq<Stored>, q: nat, s: nat, m: nat, i: nat)
    requires IsPage(f, rs, q, s, m, i)
    ensures q < |rs| && s < |rs| && m < |rs| && (q + 1 == |rs| || s + 1 == |rs| || m + 1 == |rs|)
  {
  }

  /** The records of a page, in any order and with any others among them, are read as that page and no further. */
  lemma PageRead<Date, Doc>(f: Formats<Date, Doc>, rs: seq<Stored>, q: nat, s: nat, m: nat, i: nat, rest: seq<byte>)
    requires IsPage(f, rs, q, s, m, i)
    ensures Collect(f, StreamOf(rs) + rest, NoParts()) == (Some(Ok(PageOf(f, rs, q, s, m, i))), rest)
  {
    hide Collect, IsPage, PageOf, StreamOf;
    assert rs[0..] == rs;
    PageBounds(f, rs, q, s, m, i);
    PageFrom(f, rs, q, s, m, i, 0, rest);
  }

  // ----- whole files -----

  /** The records of a page, with the places of its parts. */
  datatype PageRecords = PageRecords(rs: seq<Stored>, q: nat, s: nat, m: nat, i: nat)

  function PagesBytes(ps: seq<PageRecords>): seq<byte> {
    if ps == [] then [] else StreamOf(ps[0].rs) + PagesBytes(ps[1..])
  }

  ghost predicate ArePages<Date, Doc>(f: Formats<Date, Doc>, ps: seq<PageRecords>) {
    forall k :: 0 <= k < |ps| ==> IsPage(f, ps[k].rs, ps[k].q, ps[k].s, ps[k].m, ps[k].i)
  }

  ghost function PagesOf<Date, Doc>(f: Formats<Date, Doc>, ps: seq<PageRecords>): seq<Record<Date, Doc>>
    requires ArePages(f, ps)
  {
    seq(|ps|, k requires 0 <= k < |ps| => PageOf(f, ps[k].rs, ps[k].q, ps[k].s, ps[k].m, ps[k].i))
  }

  lemma {:induction false} PagesRead<Date, Doc>(f: Formats<Date, Doc>, ps: seq<PageRecords>)
    requires ArePages(f, ps)
    ensures Items(f, PagesBytes(ps)) == AllOk(PagesOf(f, ps))
    decreases |ps|
  {
    hide IsPage, PageOf, StreamOf, Collect, Items;
    if ps == [] {
      NoItems(f);
    } else {
      var p, rest := ps[0], PagesBytes(ps[1..]);
      PageRead(f, p.rs, p.q, p.s, p.m, p.i, rest);
      ItemsStep(f, PagesBytes(ps));
      PagesRead(f, ps[1..]);
      assert PagesOf(f, ps) == [PageOf(f, p.rs, p.q, p.s, p.m, p.i)] + PagesOf(f, ps[1..]);
      AllOkCons(PageOf(f, p.rs, p.q, p.s, p.m, p.i), PagesOf(f, ps[1..]));
    }
  }

  /** A file of one opening record and any pages is read as those pages. */
  lemma ForeignFile<Date, Doc>(f: Formats<Date, Doc>, info: Stored, ps: seq<PageRecords>)
    requires RecordOk(info) && ArePages(f, ps)
    ensures ReadAll(f, RecordBytes(info) + PagesBytes(ps)) == AllOk(PagesOf(f, ps))
  {
    hide RecordOk, RawOf, RecordBytes, NextRaw, Items, PagesBytes, PagesOf, ArePages;
    RecordRead(info, PagesBytes(ps));
    PagesRead(f, ps);
  }

  // ----- the lines of metadata -----

  ghost predicate Blank(s: string) {
    forall i :: 0 <= i < |s| ==> IsWhitespace(s[i])
  }

  lemma {:induction false} TrimStartOff(a: string, b: string)
    requires Blank(a) && (b != "" ==> !IsWhitespace(b[0]))
    ensures TrimStart(a + b) == b
  {
    hide IsWhitespace;
    if a == "" {
      assert a + b == b;
    } else {
      assert (a + b)[1..] == a[1..] + b;
      TrimStartOff(a[1..], b);
    }
  }

  lemma {:induction false} TrimEndOff(a: string, b: string)
    requires Blank(b) && (a != "" ==> !IsWhitespace(a[|a| - 1]))
    ensures TrimEnd(a + b) == a
  {
    hide IsWhitespace;
    if b == "" {
      assert a + b == a;
    } else {
      assert (a + b)[..|a + b| - 1] == a + b[..|b| - 1];
      TrimEndOff(a, b[..|b| - 1]);
    }
  }

  lemma {:induction false} TrimSpacesOff(n: nat, b: string)
    requires b != "" ==> b[0] != ' '
    ensures TrimSpaces(Blanks(n) + b) == b
  {
    if n == 0 {
      assert Blanks(0) + b == b;
    } else {
      assert (Blanks(n) + b)[1..] == Blanks(n - 1) + b;
      TrimSpacesOff(n - 1, b);
    }
  }

  function Blanks(n: nat): (s: string)
    ensures |s| == n && forall i :: 0 <= i < n ==> s[i] == ' '
  {
    seq(n, _ => ' ')
  }

  /** After blanks, the line goes on with the marker of a document. */
  ghost predicate IsMarked(line: string) {
    exists i: nat :: MarkedAt(line, i)
  }

  ghost predicate MarkedAt(line: string, i: nat) {
    i <= |line| && Blank(line[..i]) && "avaDocumentV1" <= line[i..]
  }

  lemma {:induction false} MarkedIs(line: string)
    ensures "avaDocumentV1" <= TrimStart(line) <==> IsMarked(line)
    ensures forall i: nat :: MarkedAt(line, i) ==> TrimStart(line) == line[i..]
  {
    hide IsWhitespace;
    forall i: nat | MarkedAt(line, i) ensures TrimStart(line) == line[i..] {
      assert line == line[..i] + line[i..] && line[i..][0] == 'a';
      LetterIsNoBlank();
      TrimStartOff(line[..i], line[i..]);
    }
    var k := |line| - |TrimStart(line)|;
    TrimStartIs(line);
    if "avaDocumentV1" <= TrimStart(line) {
      assert MarkedAt(line, k);
    }
  }

  lemma LetterIsNoBlank()
    ensures !IsWhitespace('a')
  {
  }

  lemma {:induction false} TrimStartIs(s: string)
    ensures var k := |s| - |TrimStart(s)|; 0 <= k && s[k..] == TrimStart(s) && Blank(s[..k])
  {
    hide IsWhitespace;
    if s != "" && IsWhitespace(s[0]) {
      TrimStartIs(s[1..]);
      var k := |s| - |TrimStart(s)|;
      assert s[..k] == [s[0]] + s[1..][..k - 1];
    }
  }

  lemma FetchIs(line: string)
    ensures var split := SplitChar(line, ':');
            (split.Some? && split.value.0 == "fetchTimeMs") <==> "fetchTimeMs:" <= line
  {
    hide SplitChar;
    var split := SplitChar(line, ':');
    if split.Some? && split.value.0 == "fetchTimeMs" {
      assert line == "fetchTimeMs:" + split.value.1;
    }
    if "fetchTimeMs:" <= line {
      assert line == "fetchTimeMs" + [':'] + line[12..];
      SplitCharAt("fetchTimeMs", ':', line[12..]);
    }
  }

  /** A line that is neither marked nor a fetch time says nothing. */
  lemma OtherLine<Date, Doc>(f: Formats<Date, Doc>, line: string, found: Found<Doc>)
    requires !IsMarked(line) && !("fetchTimeMs:" <= line)
    ensures MetadataLine(f, line, found) == Ok(found)
  {
    hide TrimStart, IsMarked, SplitChar;
    MarkedIs(line);
    FetchIs(line);
  }

  lemma TimeOf<Date, Doc>(f: Formats<Date, Doc>, value: string, digits: string, found: Found<Doc>)
    requires TrimEnd(TrimStart(value)) == digits
    ensures MetadataLine(f, "fetchTimeMs:" + value, found)
         == if found.fetchTimeMs.Some? then Err(DuplicateFetchTime)
            else if Decimal.Parse(digits, U64_SIZE).None? then Err(BadFetchTime)
            else Ok(found.(fetchTimeMs := Decimal.Parse(digits, U64_SIZE)))
  {
    hide TrimStart, TrimEnd, SplitChar, Decimal.Parse;
    var line := "fetchTimeMs:" + value;
    TimeUnmarked(line);
    assert line == "fetchTimeMs" + [':'] + value;
    SplitCharAt("fetchTimeMs", ':', value);
  }

  /** A fetch time is a number between blanks, and may be given once. */
  lemma TimeLine<Date, Doc>(f: Formats<Date, Doc>, before: string, digits: string, after: string, found: Found<Doc>)
    requires Blank(before) && Blank(after) && Digits(digits)
    ensures MetadataLine(f, "fetchTimeMs:" + (before + digits + after), found)
         == if found.fetchTimeMs.Some? then Err(DuplicateFetchTime)
            else if Decimal.Value(digits) < U64_SIZE then Ok(found.(fetchTimeMs := Some(Decimal.Value(digits))))
            else Err(BadFetchTime)
  {
    hide TrimStart, TrimEnd, MetadataLine, Decimal.Value, Blank;
    DigitsTrimmed(before, digits, after);
    TimeOf(f, before + digits + after, digits, found);
    assert Decimal.IsDigit(digits[0]);
  }

  ghost predicate Digits(s: string) {
    s != "" && forall i :: 0 <= i < |s| ==> Decimal.IsDigit(s[i])
  }

  lemma TimeUnmarked(line: string)
    requires "fetchTimeMs:" <= line
    ensures !("avaDocumentV1" <= TrimStart(line))
  {
    assert line[0] == 'f';
    assert TrimStart(line) == line;
  }

  lemma DigitsTrimmed(before: string, digits: string, after: string)
    requires Blank(before) && Blank(after) && Digits(digits)
    ensures TrimEnd(TrimStart(before + digits + after)) == digits
  {
    DigitIsNoBlank(digits[0]);
    DigitIsNoBlank(digits[|digits| - 1]);
    hide IsWhitespace, TrimStart, TrimEnd;
    assert before + digits + after == before + (digits + after);
    TrimStartOff(before, digits + after);
    TrimEndOff(digits, after);
  }

  lemma DigitIsNoBlank(c: char)
    requires Decimal.IsDigit(c)
    ensures !IsWhitespace(c)
  {
  }

  /** A document follows the marker, a colon and spaces, and may be given once. */
  lemma DocumentLine<Date, Doc>(f: Formats<Date, Doc>, before: string, n: nat, json: string, found: Found<Doc>)
    requires Blank(before) && (json != "" ==> json[0] != ' ')
    ensures var line := before + "avaDocumentV1:" + Blanks(n) + json;
            && (found.document.Some? ==> MetadataLine(f, line, found) == Err(MalformedExtension))
            && (found.document.None? && |Raw(json)| > 262144 ==> MetadataLine(f, line, found) == Err(ExtensionTooLarge))
            && (found.document.None? && |Raw(json)| <= 262144 ==>
                  && (f.parseDoc(json).None? ==> MetadataLine(f, line, found) == Err(MalformedExtension))
                  && (f.parseDoc(json).Some? && !f.validDoc(f.parseDoc(json).value) ==> MetadataLine(f, line, found) == Err(InvalidExtension))
                  && (f.parseDoc(json).Some? && f.validDoc(f.parseDoc(json).value) ==>
                        MetadataLine(f, line, found) == Ok(found.(document := f.parseDoc(json)))))
  {
    hide TrimStart, TrimSpaces, SplitChar, Blank, Raw;
    var tail := "avaDocumentV1:" + Blanks(n) + json;
    var line := before + "avaDocumentV1:" + Blanks(n) + json;
    assert line == before + tail && tail[0] == 'a';
    LetterIsNoBlank();
    TrimStartOff(before, tail);
    assert tail[..13] == "avaDocumentV1" && tail[..14] == "avaDocumentV1:";
    assert tail[14..] == Blanks(n) + json;
    TrimSpacesOff(n, json);
  }

  /** A marked line without the colon is malformed. */
  lemma MarkedLine<Date, Doc>(f: Formats<Date, Doc>, line: string, i: nat, found: Found<Doc>)
    requires MarkedAt(line, i) && !("avaDocumentV1:" <= line[i..])
    ensures MetadataLine(f, line, found) == Err(MalformedExtension)
  {
    hide TrimStart, Blank;
    MarkedIs(line);
  }

  /** The lines of a content: each ended by a line feed, with or without a carriage return, but perhaps the last. */
  function Joined(lines: seq<(string, bool)>, last: string): string {
    if lines == [] then last
    else lines[0].0 + (if lines[0].1 then "\r" else "") + "\n" + Joined(lines[1..], last)
  }

  ghost predicate ContentLineOk(l: (string, bool)) {
    '\n' !in l.0 && (!l.1 && l.0 != "" ==> l.0[|l.0| - 1] != '\r')
  }

  /** What one line after the other makes of what was found. */
  ghost function Folded<Date, Doc>(f: Formats<Date, Doc>, lines: seq<string>, found: Found<Doc>): Result<Found<Doc>, WarcError>
    decreases |lines|
  {
    if lines == [] then Ok(found)
    else
      match MetadataLine(f, lines[0], found)
      case Err(e) => Err(e)
      case Ok(next) => Folded(f, lines[1..], next)
  }

  ghost function Texts(lines: seq<(string, bool)>, last: string): seq<string> {
    if lines == [] then (if last == "" then [] else [last]) else [lines[0].0] + Texts(lines[1..], last)
  }

  /** Metadata is read line by line. */
  lemma {:induction false} LinesRead<Date, Doc>(f: Formats<Date, Doc>, lines: seq<(string, bool)>, last: string, found: Found<Doc>)
    requires '\n' !in last && forall i :: 0 <= i < |lines| ==> ContentLineOk(lines[i])
    ensures MetadataLines(f, Raw(Joined(lines, last)), found) == Folded(f, Texts(lines, last), found)
    decreases |lines|
  {
    hide Raw, FirstLine, AfterLine, MetadataLine, Chomp, ContentLineOk;
    if lines == [] {
      RawNonEmpty(last);
      if last != "" {
        LastLineRoundTrip(last);
        Unchomped(last);
        assert [last][1..] == [];
      }
    } else {
      var l, more := lines[0], Joined(lines[1..], last);
      var text := l.0 + (if l.1 then "\r" else "");
      Chomped(l);
      assert Joined(lines, last) == text + "\n" + more;
      RawConcat(text + "\n", more);
      LineRoundTrip(text, Raw(more));
      RawNonEmpty(text + "\n");
      assert Texts(lines, last)[1..] == Texts(lines[1..], last);
      var next := MetadataLine(f, l.0, found);
      if next.Ok? {
        LinesRead(f, lines[1..], last, next.value);
      }
    }
  }

  lemma Unchomped(s: string)
    requires '\n' !in s
    ensures Chomp(s) == s
  {
  }

  lemma Chomped(l: (string, bool))
    requires ContentLineOk(l)
    ensures var text := l.0 + (if l.1 then "\r" else "");
            '\n' !in text && Chomp(text + "\n") == l.0
  {
    var text := l.0 + (if l.1 then "\r" else "");
    var line := text + "\n";
    assert line[|line| - 1] == '\n';
    if l.1 {
      assert line[|line| - 2] == '\r' && line[..|line| - 2] == l.0;
    } else {
      assert line[..|line| - 1] == l.0;
      assert |line| >= 2 ==> line[|line| - 2] == l.0[|l.0| - 1];
    }
  }

  /** The kinds of lines metadata may hold. */
  datatype MetadataText =
    | Other(text: string)
    | Time(before: string, digits: string, after: string)
    | Document(indent: string, spaces: nat, json: string)

  function Written(l: MetadataText): string {
    match l
    case Other(text) => text
    case Time(before, digits, after) => "fetchTimeMs:" + (before + digits + after)
    case Document(indent, spaces, json) => indent + "avaDocumentV1:" + Blanks(spaces) + json
  }

  /** A line that can be taken by itself. */
  ghost predicate Taken<Date, Doc>(f: Formats<Date, Doc>, l: MetadataText) {
    match l
    case Other(text) => !IsMarked(text) && !("fetchTimeMs:" <= text)
    case Time(before, digits, after) =>
      Blank(before) && Blank(after) && Digits(digits) && Decimal.Value(digits) < U64_SIZE
    case Document(indent, spaces, json) =>
      && Blank(indent) && (json != "" ==> json[0] != ' ') && |Raw(json)| <= 262144
      && f.parseDoc(json).Some? && f.validDoc(f.parseDoc(json).value)
  }

  ghost function Listed<T>(o: Option<T>): seq<T> {
    if o.None? then [] else [o.value]
  }

  ghost function TimeOfLine(l: MetadataText): seq<nat> {
    if l.Time? && Digits(l.digits) then [Decimal.Value(l.digits)] else []
  }

  ghost function DocumentOfLine<Date, Doc>(f: Formats<Date, Doc>, l: MetadataText): seq<Doc> {
    if l.Document? then Listed(f.parseDoc(l.json)) else []
  }

  ghost function Times(ls: seq<MetadataText>): seq<nat> {
    if ls == [] then [] else TimeOfLine(ls[0]) + Times(ls[1..])
  }

  ghost function Documents<Date, Doc>(f: Formats<Date, Doc>, ls: seq<MetadataText>): seq<Doc> {
    if ls == [] then [] else DocumentOfLine(f, ls[0]) + Documents(f, ls[1..])
  }

  function WrittenAll(ls: seq<MetadataText>): seq<string> {
    seq(|ls|, i requires 0 <= i < |ls| => Written(ls[i]))
  }

  /** One line adds its time or its document, unless there is one already. */
  lemma LineTaken<Date, Doc>(f: Formats<Date, Doc>, l: MetadataText, found: Found<Doc>)
    requires Taken(f, l)
    ensures var r := MetadataLine(f, Written(l), found);
            && (r.Err? <==> (l.Time? && found.fetchTimeMs.Some?) || (l.Document? && found.document.Some?))
            && (r.Ok? ==>
                  && Listed(r.value.fetchTimeMs) == Listed(found.fetchTimeMs) + TimeOfLine(l)
                  && Listed(r.value.document) == Listed(found.document) + DocumentOfLine(f, l))
  {
    hide MetadataLine, IsMarked, Blank, Decimal.Value, Raw;
    match l
    case Other(text) => OtherLine(f, text, found);
    case Time(before, digits, after) => TimeLine(f, before, digits, after, found);
    case Document(indent, spaces, json) => DocumentLine(f, indent, spaces, json, found);
  }

  lemma Accumulate<T>(a: seq<T>, b: seq<T>, c: seq<T>)
    ensures a + b + c == a + (b + c) && |a + (b + c)| >= |a + b|
  {
  }

  /**
   * Metadata in any order is read exactly when it gives no second time and
   * no second document, and then gives what its lines give.
   */
  lemma {:induction false} LinesTaken<Date, Doc>(f: Formats<Date, Doc>, ls: seq<MetadataText>, found: Found<Doc>)
    requires forall i :: 0 <= i < |ls| ==> Taken(f, ls[i])
    ensures var times, docs := Listed(found.fetchTimeMs) + Times(ls), Listed(found.document) + Documents(f, ls);
            var r := Folded(f, WrittenAll(ls), found);
            && (r.Ok? <==> |times| <= 1 && |docs| <= 1)
            && (r.Ok? ==> Listed(r.value.fetchTimeMs) == times && Listed(r.value.document) == docs)
    decreases |ls|
  {
    if ls == [] {
      assert Listed(found.fetchTimeMs) + [] == Listed(found.fetchTimeMs);
      assert Listed(found.document) + [] == Listed(found.document);
    } else {
      LineGives(f, ls[0]);
      LineTaken(f, ls[0], found);
      hide MetadataLine, Written, Taken, TimeOfLine, DocumentOfLine;
      var next := MetadataLine(f, Written(ls[0]), found);
      assert WrittenAll(ls)[0] == Written(ls[0]) && WrittenAll(ls)[1..] == WrittenAll(ls[1..]);
      Accumulate(Listed(found.fetchTimeMs), TimeOfLine(ls[0]), Times(ls[1..]));
      Accumulate(Listed(found.document), DocumentOfLine(f, ls[0]), Documents(f, ls[1..]));
      if next.Ok? {
        LinesTaken(f, ls[1..], next.value);
      }
    }
  }

  lemma LineGives<Date, Doc>(f: Formats<Date, Doc>, l: MetadataText)
    requires Taken(f, l)
    ensures |TimeOfLine(l)| == (if l.Time? then 1 else 0) && |DocumentOfLine(f, l)| == (if l.Document? then 1 else 0)
  {
    hide Blank, Raw, IsMarked, Decimal.Value;
  }

  /** The metadata a content gives, whatever the order of its lines and however they end. */
  lemma MetadataRecordRead<Date, Doc>(
      f: Formats<Date, Doc>, raw: RawWarc, ls: seq<MetadataText>, lines: seq<(string, bool)>, last: string)
    requires forall i :: 0 <= i < |ls| ==> Taken(f, ls[i])
    requires forall i :: 0 <= i < |lines| ==> ContentLineOk(lines[i])
    requires '\n' !in last && WrittenAll(ls) == Texts(lines, last) && raw.content == Raw(Joined(lines, last))
    ensures var r := MetadataOf(f, raw);
            && (r.Ok? <==> |raw.content| <= MAX_METADATA_RECORD_BYTES && |Times(ls)| == 1 && |Documents(f, ls)| <= 1)
            && (r.Ok? ==> [r.value.fetchTimeMs] == Times(ls) && Listed(r.value.document) == Documents(f, ls))
            && (|raw.content| > MAX_METADATA_RECORD_BYTES ==> r == Err(MetadataTooLarge))
            && (|raw.content| <= MAX_METADATA_RECORD_BYTES && Times(ls) == [] && |Documents(f, ls)| <= 1 ==>
                  r == Err(NoFetchTime))
  {
    hide Taken, ContentLineOk, MetadataLines, Folded, WrittenAll, Texts, Joined, Raw, Times, Documents;
    LinesRead(f, lines, last, Found(None, None));
    LinesTaken(f, ls, Found(None, None));
    assert [] + Times(ls) == Times(ls);
    assert [] + Documents(f, ls) == Documents(f, ls);
  }
}
