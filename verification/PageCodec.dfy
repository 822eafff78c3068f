/** The page file format. DEFLATE is any pair of functions where inflating a deflated body gives it back. */
module PageCodec {
  import opened Common
  import opened BigEndian
  import opened Pages

  const PAGE_MAGIC: Bytes := [85, 76, 80, 71]
  const RECORD_MAGIC: Bytes := [85, 76, 82, 67]
  const PAGE_VERSION: Byte := 1

  type Deflate = Bytes -> Bytes
  type Inflate = Bytes -> Option<Bytes>

  ghost predicate Lossless(deflate: Deflate, inflate: Inflate) {
    forall b: Bytes :: inflate(deflate(b)) == Some(b)
  }

  datatype PageError = TooShort | BadPageMagic | Truncated | NotInflatable | BadRecordMagic

  /** `Aborted` is the panic of the record count assertion, which no caller catches. */
  datatype Loading = Loaded(page: Page) | Refused(error: PageError) | Aborted

  // ---------------------------------------------------------------- writing

  /** Lengths are cast to 16 and 32 bits, so longer fields wrap. */
  function Lengths(r: Record): (b: Bytes)
    ensures |b| == 6
  {
    Put16(|r.key| % U16_LIMIT) + Put32(|r.value| % U32_LIMIT)
  }

  function Flag(r: Record): (f: Bytes)
    ensures |f| == 1
  {
    if r.tombstone then [1] else [0]
  }

  function EncodeRecord(r: Record): (b: Bytes)
    ensures |b| == 11 + |r.key| + |r.value|
  {
    RECORD_MAGIC + Lengths(r) + r.key + r.value + Flag(r)
  }

  function BodyOf(p: Page): Bytes {
    if p == [] then [] else EncodeRecord(p[0]) + BodyOf(p[1..])
  }

  /** The compressed form is taken when its 32-bit length is below the body's. */
  predicate Compressed(deflate: Deflate, body: Bytes) {
    |deflate(body)| % U32_LIMIT < |body| % U32_LIMIT
  }

  function Stored(deflate: Deflate, body: Bytes): Bytes {
    if Compressed(deflate, body) then deflate(body) else body
  }

  function Header(count: nat, uncompressed: nat, compressed: nat): (h: Bytes)
    ensures |h| == 17
  {
    PAGE_MAGIC + [PAGE_VERSION] + Put32(count % U32_LIMIT) + Put32(uncompressed % U32_LIMIT)
        + Put32(compressed % U32_LIMIT)
  }

  function FileOf(deflate: Deflate, p: Page): Bytes {
    var body := BodyOf(p);
    Header(|p|, |body|, |Stored(deflate, body)|) + Stored(deflate, body)
  }

  lemma {:induction false} BodyAppend(p: Page, r: Record)
    ensures BodyOf(p + [r]) == BodyOf(p) + EncodeRecord(r)
  {
    hide EncodeRecord;
    if p == [] {
      assert (p + [r])[1..] == [];
    } else {
      assert (p + [r])[1..] == p[1..] + [r];
      BodyAppend(p[1..], r);
    }
  }

  /** `Page::serialize`: never longer than the raw form, as long as both forms fit 32 bits. */
  method Serialize(deflate: Deflate, p: Page) returns (data: Bytes)
    ensures data == FileOf(deflate, p)
    ensures |BodyOf(p)| < U32_LIMIT && |deflate(BodyOf(p))| < U32_LIMIT ==>
              |data| == 17 + if |deflate(BodyOf(p))| < |BodyOf(p)| then |deflate(BodyOf(p))| else |BodyOf(p)|
  {
    hide EncodeRecord, Header;
    var body: Bytes := [];
    for i := 0 to |p|
      invariant body == BodyOf(p[..i])
    {
      BodyAppend(p[..i], p[i]);
      assert p[..i + 1] == p[..i] + [p[i]];
      body := body + EncodeRecord(p[i]);
    }
    assert p[..|p|] == p;
    var uncompressed := |body| % U32_LIMIT;
    var small := deflate(body);
    if |small| % U32_LIMIT < uncompressed {
      data := Header(|p|, |body|, |small|) + small;
    } else {
      data := Header(|p|, |body|, |body|) + body;
    }
  }

  // ---------------------------------------------------------------- reading

  /** One turn of the loop over a body: no whole record left, a bad magic, or a record and how many bytes it took. */
  datatype Turn = End | Bad | Good(record: Record, size: nat)

  function ReadRecord(d: Bytes): (t: Turn)
    ensures t.Good? ==> 11 <= t.size <= |d|
  {
    if |d| < 4 then End
    else if d[..4] != RECORD_MAGIC then Bad
    else if |d| < 10 then End
    else
      var keyLen, valLen := Get16(d, 4), Get32(d, 6);
      var at := 10 + keyLen;
      if |d| < at + valLen + 1 then End
      else Good(Record(d[10..at], d[at..at + valLen], d[at + valLen] != 0), at + valLen + 1)
  }

  /** The records of a body, None when a record does not start with its magic. */
  function ParseBody(d: Bytes): Option<Page>
    decreases |d|
  {
    match ReadRecord(d)
    case End => Some([])
    case Bad => None
    case Good(r, n) =>
      After([r], ParseBody(d[n..]))
  }

  function After(records: Page, rest: Option<Page>): Option<Page> {
    if rest.None? then None else Some(records + rest.value)
  }

  lemma AfterAfter(a: Page, b: Page, rest: Option<Page>)
    ensures After(a, After(b, rest)) == After(a + b, rest) && After([], rest) == rest
  {
    if rest.Some? {
      assert a + (b + rest.value) == a + b + rest.value;
      assert [] + rest.value == rest.value;
    }
  }

  lemma ParseTurn(d: Bytes)
    requires ReadRecord(d).Good?
    ensures var Good(r, n) := ReadRecord(d);
            ParseBody(d) == After([r], ParseBody(d[n..]))
  {
  }

  method ReadBody(d: Bytes) returns (r: Option<Page>)
    ensures r == ParseBody(d)
  {
    hide ReadRecord, ParseBody;
    var records: Page, pos := [], 0;
    AfterAfter([], [], ParseBody(d));
    assert d[0..] == d;
    while pos < |d|
      invariant pos <= |d| && ParseBody(d) == After(records, ParseBody(d[pos..]))
    {
      var turn := ReadRecord(d[pos..]);
      ParseStops(d[pos..]);
      assert records + [] == records;
      match turn
      case End => return Some(records);
      case Bad => return None;
      case Good(record, size) =>
        assert d[pos..][size..] == d[pos + size..];
        ParseTurn(d[pos..]);
        AfterAfter(records, [record], ParseBody(d[pos + size..]));
        records := records + [record];
        pos := pos + size;
    }
    NothingLeft(d[pos..]);
    assert records + [] == records;
    return Some(records);
  }

  lemma NothingLeft(d: Bytes)
    requires d == []
    ensures ParseBody(d) == Some([])
  {
  }

  function Counted(records: Option<Page>, count: nat): Loading {
    if records.None? then Refused(BadRecordMagic)
    else if |records.value| != count then Aborted
    else Loaded(records.value)
  }

  function Load(inflate: Inflate, data: Bytes): Loading {
    if |data| < 17 then Refused(TooShort)
    else if data[..4] != PAGE_MAGIC then Refused(BadPageMagic)
    else
      var count, uncompressed, compressed := Get32(data, 5), Get32(data, 9), Get32(data, 13);
      if |data| < 17 + compressed then Refused(Truncated)
      else
        var raw := data[17..17 + compressed];
        var body := if compressed < uncompressed then inflate(raw) else Some(raw);
        if body.None? then Refused(NotInflatable) else Counted(ParseBody(body.value), count)
  }

  /** `Page::deserialize` */
  method Deserialize(inflate: Inflate, data: Bytes) returns (r: Loading)
    ensures r == Load(inflate, data)
  {
    hide ParseBody;
    if |data| < 17 { return Refused(TooShort); }
    if data[..4] != PAGE_MAGIC { return Refused(BadPageMagic); }
    var count, uncompressed, compressed := Get32(data, 5), Get32(data, 9), Get32(data, 13);
    if |data| < 17 + compressed { return Refused(Truncated); }
    var raw := data[17..17 + compressed];
    var body := raw;
    if compressed < uncompressed {
      var inflated := inflate(raw);
      if inflated.None? { return Refused(NotInflatable); }
      body := inflated.value;
    }
    var records := ReadBody(body);
    if records.None? { return Refused(BadRecordMagic); }
    if |records.value| != count { return Aborted; }
    return Loaded(records.value);
  }

  // ---------------------------------------------------------------- one record

  /** The record's fields fit their widths. */
  predicate Fits(r: Record) { |r.key| < U16_LIMIT && |r.value| < U32_LIMIT }

  lemma RecordLengths(r: Record, tail: Bytes)
    ensures var d := EncodeRecord(r) + tail;
            d[..4] == RECORD_MAGIC && Get16(d, 4) == |r.key| % U16_LIMIT && Get32(d, 6) == |r.value| % U32_LIMIT
  {
    hide Get16, Get32, Put16, Put32;
    var k, v := Put16(|r.key| % U16_LIMIT), Put32(|r.value| % U32_LIMIT);
    var d := EncodeRecord(r) + tail;
    var end := r.key + r.value + Flag(r) + tail;
    assert d == RECORD_MAGIC + k + (v + end);
    Get16Put16(RECORD_MAGIC, |r.key| % U16_LIMIT, v + end);
    assert d == RECORD_MAGIC + k + v + end;
    Get32Put32(RECORD_MAGIC + k, |r.value| % U32_LIMIT, end);
  }

  lemma FourParts(h: Bytes, k: Bytes, v: Bytes, f: Bytes, tail: Bytes)
    requires |f| == 1
    ensures var d, at := h + k + v + f + tail, |h| + |k|;
            d[|h|..at] == k && d[at..at + |v|] == v && d[at + |v|] == f[0] && d[at + |v| + 1..] == tail
  {
    var d := h + k + v + f + tail;
    assert d == h + k + (v + f + tail);
    Middle(h, k, v + f + tail);
    assert d == h + k + v + (f + tail);
    Middle(h + k, v, f + tail);
    Middle(h + k + v, f, tail);
  }

  lemma RecordPayload(r: Record, tail: Bytes)
    ensures var d, at := EncodeRecord(r) + tail, 10 + |r.key|;
            && d[10..at] == r.key && d[at..at + |r.value|] == r.value
            && d[at + |r.value|] == Flag(r)[0] && d[at + |r.value| + 1..] == tail
  {
    FourParts(RECORD_MAGIC + Lengths(r), r.key, r.value, Flag(r), tail);
  }

  /** The record format field by field: "ULRC", key length, value length, key, value, one byte for the tombstone. */
  lemma RecordLayout(r: Record, tail: Bytes)
    ensures var d, at := EncodeRecord(r) + tail, 10 + |r.key|;
            && d[..4] == [85, 76, 82, 67] && Get16(d, 4) == |r.key| % 0x1_0000
            && Get32(d, 6) == |r.value| % 0x1_0000_0000 && d[10..at] == r.key && d[at..at + |r.value|] == r.value
            && d[at + |r.value|] == (if r.tombstone then 1 else 0) && d[at + |r.value| + 1..] == tail
  {
    RecordLengths(r, tail);
    RecordPayload(r, tail);
    hide EncodeRecord, Get16, Get32;
  }

  /** A record that fits, followed by anything, is read back and reading resumes right after it. */
  lemma ReadBack(r: Record, tail: Bytes)
    requires Fits(r)
    ensures ReadRecord(EncodeRecord(r) + tail) == Good(r, |EncodeRecord(r)|)
    ensures (EncodeRecord(r) + tail)[|EncodeRecord(r)|..] == tail
  {
    RecordLengths(r, tail);
    RecordPayload(r, tail);
    hide EncodeRecord, Get16, Get32;
  }

  /** A torn record ends the loop without an error. */
  lemma ReadTorn(r: Record, cut: nat)
    requires Fits(r) && cut < |EncodeRecord(r)|
    ensures ReadRecord(EncodeRecord(r)[..cut]) == End
  {
    hide EncodeRecord, Get16, Get32;
    var whole, d := EncodeRecord(r), EncodeRecord(r)[..cut];
    RecordLengths(r, []);
    assert whole + [] == whole;
    if cut >= 4 { assert d[..4] == whole[..4]; }
    if cut >= 10 {
      assert d[..10] == whole[..10];
      FieldsOfPrefix(d, whole);
    }
  }

  /** A record that does not fit is never read back, however the body goes on or wherever it is cut. */
  lemma ReadMisfit(r: Record, tail: Bytes, cut: nat)
    requires !Fits(r) && cut <= |EncodeRecord(r) + tail|
    ensures var t := ReadRecord((EncodeRecord(r) + tail)[..cut]); t.Good? ==> t.record != r
  {
    RecordLengths(r, tail);
    hide EncodeRecord;
    var whole := EncodeRecord(r) + tail;
    var d := whole[..cut];
    if ReadRecord(d).Good? {
      assert Get16(d, 4) == Get16(whole, 4) && Get32(d, 6) == Get32(whole, 6);
    }
  }

  // ---------------------------------------------------------------- bodies

  ghost predicate AllFit(p: Page) { forall i | 0 <= i < |p| :: Fits(p[i]) }

  lemma AllFitSplit(p: Page)
    requires p != []
    ensures AllFit(p) <==> Fits(p[0]) && AllFit(p[1..])
  {
    if Fits(p[0]) && AllFit(p[1..]) {
      forall i | 0 <= i < |p| ensures Fits(p[i]) { if i > 0 { assert p[i] == p[1..][i - 1]; } }
    }
  }

  lemma ConsEquals(p: Page, r: Record, rest: Page)
    requires p != []
    ensures p == [r] + rest <==> p[0] == r && p[1..] == rest
  {
    assert p == [p[0]] + p[1..];
  }

  lemma ParseStops(d: Bytes)
    ensures ReadRecord(d).End? ==> ParseBody(d) == Some([])
    ensures ReadRecord(d).Bad? ==> ParseBody(d) == None
  {
  }

  /** A prefix of a body gives the page back exactly when every record fits its widths and nothing is cut off. */
  lemma {:induction false} ParseExact(p: Page, cut: nat)
    requires cut <= |BodyOf(p)|
    ensures ParseBody(BodyOf(p)[..cut]) == Some(p) <==> AllFit(p) && cut == |BodyOf(p)|
  {
    if p == [] {
      NothingLeft(BodyOf(p)[..cut]);
    } else {
      var first, rest := EncodeRecord(p[0]), BodyOf(p[1..]);
      var d := (first + rest)[..cut];
      hide EncodeRecord, ReadRecord, ParseBody, Fits, AllFit;
      assert BodyOf(p)[..cut] == d;
      AllFitSplit(p);
      ParseStops(d);
      if !Fits(p[0]) {
        ReadMisfit(p[0], rest, cut);
        if ReadRecord(d).Good? { ParseTurn(d); }
      } else {
        TakeConcat(first, rest, cut);
        if cut < |first| {
          ReadTorn(p[0], cut);
        } else {
          ReadBack(p[0], rest[..cut - |first|]);
          ParseTurn(d);
          ParseExact(p[1..], cut - |first|);
          var parsed := ParseBody(rest[..cut - |first|]);
          if parsed.Some? { ConsEquals(p, p[0], parsed.value); }
        }
      }
    }
  }

  // ---------------------------------------------------------------- page files

  lemma HeaderFields(count: nat, uncompressed: nat, compressed: nat, tail: Bytes)
    ensures var d := Header(count, uncompressed, compressed) + tail;
            && d[..4] == PAGE_MAGIC && Get32(d, 5) == count % U32_LIMIT
            && Get32(d, 9) == uncompressed % U32_LIMIT && Get32(d, 13) == compressed % U32_LIMIT
  {
    var n, u, c := Put32(count % U32_LIMIT), Put32(uncompressed % U32_LIMIT), Put32(compressed % U32_LIMIT);
    hide Get32, Put32;
    var head := PAGE_MAGIC + [PAGE_VERSION];
    var d := Header(count, uncompressed, compressed) + tail;
    assert d == head + n + (u + c + tail);
    Get32Put32(head, count % U32_LIMIT, u + c + tail);
    assert d == head + n + u + (c + tail);
    Get32Put32(head + n, uncompressed % U32_LIMIT, c + tail);
    assert d == head + n + u + c + tail;
    Get32Put32(head + n + u, compressed % U32_LIMIT, tail);
  }

  /** The page file field by field: "ULPG", version, record count, length of the body, length of its stored form, and
      that form, which is the shorter one while both lengths fit 32 bits. */
  lemma FileLayout(deflate: Deflate, p: Page)
    ensures var d, body := FileOf(deflate, p), BodyOf(p);
            && |d| >= 17 && d[..5] == [85, 76, 80, 71, 1] && Get32(d, 5) == |p| % 0x1_0000_0000
            && Get32(d, 9) == |body| % 0x1_0000_0000 && Get32(d, 13) == |d[17..]| % 0x1_0000_0000
            && (d[17..] == body || d[17..] == deflate(body))
            && (|body| < 0x1_0000_0000 && |deflate(body)| < 0x1_0000_0000 ==>
                  d[17..] == if |deflate(body)| < |body| then deflate(body) else body)
  {
    hide Get32, BodyOf, Header;
    var body := BodyOf(p);
    var stored := Stored(deflate, body);
    HeaderFields(|p|, |body|, |stored|, stored);
    HeaderStart(|p|, |body|, |stored|, stored);
    assert (Header(|p|, |body|, |stored|) + stored)[17..] == stored;
  }

  lemma HeaderStart(count: nat, uncompressed: nat, compressed: nat, tail: Bytes)
    ensures (Header(count, uncompressed, compressed) + tail)[..5] == [85, 76, 80, 71, 1]
  {
    hide Put32;
    assert Header(count, uncompressed, compressed)[..5] == PAGE_MAGIC + [PAGE_VERSION];
  }

  function Unpacked(inflate: Inflate, compressed: bool, raw: Bytes, count: nat): Loading {
    var body := if compressed then inflate(raw) else Some(raw);
    if body.None? then Refused(NotInflatable) else Counted(ParseBody(body.value), count)
  }

  lemma LoadParts(inflate: Inflate, count: nat, uncompressed: nat, stored: Bytes)
    ensures var n := |stored| % U32_LIMIT;
            Load(inflate, Header(count, uncompressed, |stored|) + stored)
            == Unpacked(inflate, n < uncompressed % U32_LIMIT, stored[..n], count % U32_LIMIT)
  {
    HeaderFields(count, uncompressed, |stored|, stored);
    hide Get32, ParseBody, Header, Counted;
    var data := Header(count, uncompressed, |stored|) + stored;
    assert data[17..17 + |stored| % U32_LIMIT] == stored[..|stored| % U32_LIMIT];
  }

  /** What reading a written page comes to: the stored bytes up to their 32-bit length, inflated if compressed. */
  lemma LoadFile(deflate: Deflate, inflate: Inflate, p: Page)
    ensures var stored := Stored(deflate, BodyOf(p));
            Load(inflate, FileOf(deflate, p))
            == Unpacked(inflate, Compressed(deflate, BodyOf(p)), stored[..|stored| % U32_LIMIT], |p| % U32_LIMIT)
  {
    hide Load, BodyOf, Header, Unpacked;
    LoadParts(inflate, |p|, |BodyOf(p)|, Stored(deflate, BodyOf(p)));
  }

  /** With a stored form whose length fits 32 bits, a page survives writing and reading exactly when every record and
      the record count fit their widths. */
  lemma RoundTripWidths(deflate: Deflate, inflate: Inflate, p: Page)
    requires Lossless(deflate, inflate) && |Stored(deflate, BodyOf(p))| < U32_LIMIT
    ensures Load(inflate, FileOf(deflate, p)) == Loaded(p) <==> AllFit(p) && |p| < U32_LIMIT
  {
    hide ParseBody, BodyOf, Load, FileOf, AllFit;
    var body := BodyOf(p);
    LoadFile(deflate, inflate, p);
    assert body[..|body|] == body && deflate(body)[..|deflate(body)|] == deflate(body);
    assert inflate(deflate(body)) == Some(body);
    ParseExact(p, |body|);
  }

  /** A stream cut short does not inflate. */
  ghost predicate RefusesCut(deflate: Deflate, inflate: Inflate) {
    forall b: Bytes, n: nat | n < |deflate(b)| :: inflate(deflate(b)[..n]) == None
  }

  /** A page survives writing and reading exactly when every record, the record count and the length of the stored form,
      raw or compressed, fit their widths. */
  lemma RoundTripExact(deflate: Deflate, inflate: Inflate, p: Page)
    requires Lossless(deflate, inflate) && RefusesCut(deflate, inflate)
    ensures Load(inflate, FileOf(deflate, p)) == Loaded(p) <==>
              AllFit(p) && |p| < U32_LIMIT && |Stored(deflate, BodyOf(p))| < U32_LIMIT
  {
    hide ParseBody, BodyOf, Load, FileOf, AllFit;
    var body := BodyOf(p);
    if |Stored(deflate, body)| < U32_LIMIT {
      RoundTripWidths(deflate, inflate, p);
    } else {
      LoadFile(deflate, inflate, p);
      ParseExact(p, |body| % U32_LIMIT);
    }
  }

  lemma {:induction false} BodyLongerThanCount(p: Page)
    ensures |p| <= |BodyOf(p)|
  {
    if p != [] { BodyLongerThanCount(p[1..]); }
  }

  /** Both forms of the page fit 32 bits and every record fits its widths. */
  ghost predicate Storable(deflate: Deflate, p: Page) {
    AllFit(p) && |BodyOf(p)| < U32_LIMIT && |deflate(BodyOf(p))| < U32_LIMIT
  }

  /** Whether or not the compressed form is chosen. */
  lemma RoundTrip(deflate: Deflate, inflate: Inflate, p: Page)
    requires Lossless(deflate, inflate) && Storable(deflate, p)
    ensures Load(inflate, FileOf(deflate, p)) == Loaded(p)
  {
    BodyLongerThanCount(p);
    RoundTripWidths(deflate, inflate, p);
  }

  /** A page file cut short anywhere is refused, never read as fewer records. */
  lemma TornFileRefused(deflate: Deflate, inflate: Inflate, p: Page, cut: nat)
    requires |Stored(deflate, BodyOf(p))| < U32_LIMIT && cut < |FileOf(deflate, p)|
    ensures Load(inflate, FileOf(deflate, p)[..cut]) == Refused(if cut < 17 then TooShort else Truncated)
  {
    hide BodyOf, Header, Load;
    var stored := Stored(deflate, BodyOf(p));
    TornParts(inflate, |p|, |BodyOf(p)|, stored, cut);
  }

  lemma TornParts(inflate: Inflate, count: nat, uncompressed: nat, stored: Bytes, cut: nat)
    requires |stored| < U32_LIMIT && cut < 17 + |stored|
    ensures Load(inflate, (Header(count, uncompressed, |stored|) + stored)[..cut])
            == Refused(if cut < 17 then TooShort else Truncated)
  {
    HeaderFields(count, uncompressed, |stored|, stored);
    var data := Header(count, uncompressed, |stored|) + stored;
    hide Header, ParseBody, Counted;
    if cut >= 17 {
      var d := data[..cut];
      assert d[..4] == data[..4];
      assert Get32(d, 13) == Get32(data, 13);
    }
  }

  /** A body with fewer records than the header claims is not refused: the count assertion panics. */
  lemma MissingRecordAborts(inflate: Inflate, n: nat)
    requires 0 < n < U32_LIMIT
    ensures Load(inflate, Header(n, 0, 0)) == Aborted
  {
    HeaderFields(n, 0, 0, []);
    var d := Header(n, 0, 0);
    assert d + [] == d;
    hide Header, Get32;
    NothingLeft(d[17..17]);
  }
}
