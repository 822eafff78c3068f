/** The write-ahead log: record encoding, replay of a byte string, and what survives a torn or dirty tail. The CRC is
    any function from bytes to a 32-bit word. */
module Wal {
  import opened Common
  import opened BigEndian

  const MAX_KEY: nat := 1_000_000
  const MAX_VALUE: nat := 100_000_000

  datatype LogRecord = LogRecord(key: Bytes, value: Bytes)

  type Crc = Bytes -> U32

  /** Lengths are cast to 16 and 32 bits, so longer fields wrap. */
  function Header(key: Bytes, value: Bytes): (h: Bytes)
    ensures |h| == 6
  {
    Put16(|key| % U16_LIMIT) + Put32(|value| % U32_LIMIT)
  }

  function Serialize(crc: Crc, r: LogRecord): (b: Bytes)
    ensures |b| == 10 + |r.key| + |r.value|
  {
    Put32(crc(Body(r))) + Header(r.key, r.value) + r.key + r.value
  }

  function LogBytes(crc: Crc, rs: seq<LogRecord>): Bytes {
    if rs == [] then [] else Serialize(crc, rs[0]) + LogBytes(crc, rs[1..])
  }

  /** The lengths replay accepts. */
  predicate Loggable(r: LogRecord) {
    |r.key| < U16_LIMIT && |r.value| <= MAX_VALUE
  }

  datatype Replayed = Replayed(records: seq<LogRecord>, corrupted: nat)

  /** One turn of the replay loop: the end of the log, a bad tail, or a record and how many bytes it took. */
  datatype Turn = End | Bad | Good(record: LogRecord, size: nat)

  function ReadOne(crc: Crc, d: Bytes): (t: Turn)
    ensures t.Good? ==> 10 <= t.size <= |d|
  {
    if |d| < 4 then End
    else if |d| < 10 then Bad
    else
      var keyLen, valLen := Get16(d, 4), Get32(d, 6);
      if keyLen > MAX_KEY || valLen > MAX_VALUE then Bad
      else if |d| < 10 + keyLen + valLen then Bad
      else if crc(d[4..10 + keyLen + valLen]) != Get32(d, 0) then Bad
      else Good(LogRecord(d[10..10 + keyLen], d[10 + keyLen..10 + keyLen + valLen]), 10 + keyLen + valLen)
  }

  function ReplaySpec(crc: Crc, d: Bytes): Replayed
    decreases |d|
  {
    match ReadOne(crc, d)
    case End => Replayed([], 0)
    case Bad => Replayed([], 1)
    case Good(r, n) =>
      var rest := ReplaySpec(crc, d[n..]);
      Replayed([r] + rest.records, rest.corrupted)
  }

  lemma ReplayTurn(crc: Crc, d: Bytes)
    requires ReadOne(crc, d).Good?
    ensures var Good(r, n) := ReadOne(crc, d);
            ReplaySpec(crc, d) == Replayed([r] + ReplaySpec(crc, d[n..]).records, ReplaySpec(crc, d[n..]).corrupted)
  {
  }

  /** The reading loop of `WalReader::replay` over the log's bytes. */
  method Replay(crc: Crc, d: Bytes) returns (r: Replayed)
    ensures r == ReplaySpec(crc, d) && r.corrupted <= 1
  {
    hide ReadOne;
    var records, pos := [], 0;
    while true
      invariant pos <= |d|
      invariant ReplaySpec(crc, d) == Replayed(records + ReplaySpec(crc, d[pos..]).records,
                                               ReplaySpec(crc, d[pos..]).corrupted)
      decreases |d| - pos
    {
      var turn := ReadOne(crc, d[pos..]);
      match turn
      case End => return Replayed(records, 0);
      case Bad => return Replayed(records, 1);
      case Good(record, size) =>
        assert d[pos..][size..] == d[pos + size..];
        ReplayTurn(crc, d[pos..]);
        records := records + [record];
        pos := pos + size;
    }
  }

  // ---------------------------------------------------------------- the writer

  const WRITER_CAPACITY: nat := 65536

  /** The log as a writer sees it: what reached the file, and what its buffer still holds. */
  datatype Log = Log(file: Bytes, pending: Bytes)

  function Everything(l: Log): Bytes { l.file + l.pending }

  /** `append` through the buffered writer: data that does not fit empties the buffer first, data as large as the buffer
      goes straight to the file. */
  function Append(l: Log, data: Bytes): (r: Log)
    ensures Everything(r) == Everything(l) + data && l.file <= r.file
    ensures |l.pending| + |data| < WRITER_CAPACITY ==> r == Log(l.file, l.pending + data)
    ensures data != [] ==> (r.pending == [] <==> |data| >= WRITER_CAPACITY)
  {
    var emptied := if |l.pending| + |data| > WRITER_CAPACITY then Flushed(l) else l;
    if |data| >= WRITER_CAPACITY then Log(Everything(emptied) + data, []) else Log(emptied.file, emptied.pending + data)
  }

  function Flushed(l: Log): Log { Log(Everything(l), []) }

  // ---------------------------------------------------------------- one record

  /** The checksummed part of a record. */
  function Body(r: LogRecord): Bytes {
    Header(r.key, r.value) + r.key + r.value
  }

  lemma LengthFields(crc: Crc, r: LogRecord, tail: Bytes)
    ensures var d := Serialize(crc, r) + tail;
            Get32(d, 0) == crc(Body(r)) && Get16(d, 4) == |r.key| % U16_LIMIT && Get32(d, 6) == |r.value| % U32_LIMIT
  {
    hide Get16, Get32, Put16, Put32;
    var k, v, c := Put16(|r.key| % U16_LIMIT), Put32(|r.value| % U32_LIMIT), Put32(crc(Body(r)));
    var d := Serialize(crc, r) + tail;
    var end := r.key + r.value + tail;
    assert d == [] + c + (k + v + end);
    Get32Put32([], crc(Body(r)), k + v + end);
    assert d == c + k + (v + end);
    Get16Put16(c, |r.key| % U16_LIMIT, v + end);
    assert d == c + k + v + end;
    Get32Put32(c + k, |r.value| % U32_LIMIT, end);
  }

  lemma PayloadFields(crc: Crc, r: LogRecord, tail: Bytes)
    ensures var d := Serialize(crc, r) + tail;
            && d[4..10 + |r.key| + |r.value|] == Body(r)
            && d[10..10 + |r.key|] == r.key && d[10 + |r.key|..10 + |r.key| + |r.value|] == r.value
            && d[10 + |r.key| + |r.value|..] == tail
  {
    var c, h := Put32(crc(Body(r))), Header(r.key, r.value);
    var d := Serialize(crc, r) + tail;
    assert d == c + Body(r) + tail;
    Middle(c, Body(r), tail);
    assert d == c + h + r.key + (r.value + tail);
    Middle(c + h, r.key, r.value + tail);
    assert d == c + h + r.key + r.value + tail;
    Middle(c + h + r.key, r.value, tail);
  }

  /** The record format field by field: the checksum of all that follows it, key length, value length, key, value. */
  lemma HeaderFields(crc: Crc, r: LogRecord, tail: Bytes)
    ensures var d := Serialize(crc, r) + tail;
            && Get32(d, 0) == crc(Body(r)) && Get16(d, 4) == |r.key| % U16_LIMIT && Get32(d, 6) == |r.value| % U32_LIMIT
            && d[4..10 + |r.key| + |r.value|] == Body(r)
            && d[10..10 + |r.key|] == r.key && d[10 + |r.key|..10 + |r.key| + |r.value|] == r.value
            && d[10 + |r.key| + |r.value|..] == tail
  {
    LengthFields(crc, r, tail);
    PayloadFields(crc, r, tail);
  }

  /** A loggable record followed by anything is read back, and reading resumes right after it. */
  lemma ReadBack(crc: Crc, r: LogRecord, tail: Bytes)
    requires Loggable(r)
    ensures ReadOne(crc, Serialize(crc, r) + tail) == Good(r, |Serialize(crc, r)|)
    ensures (Serialize(crc, r) + tail)[|Serialize(crc, r)|..] == tail
  {
    HeaderFields(crc, r, tail);
    hide Serialize, Body, Get16, Get32;
  }

  /** Whatever is read as a record is the encoding of that record: the format has one encoding per record. */
  lemma ReadIsWritten(crc: Crc, d: Bytes)
    requires ReadOne(crc, d).Good?
    ensures var Good(r, n) := ReadOne(crc, d); Loggable(r) && d[..n] == Serialize(crc, r)
  {
    var Good(r, n) := ReadOne(crc, d);
    var at := 10 + |r.key|;
    assert r.key == d[10..at] && r.value == d[at..n] && |r.key| == Get16(d, 4) && |r.value| == Get32(d, 6);
    assert crc(d[4..n]) == Get32(d, 0);
    hide ReadOne, Get16, Get32, Put16, Put32;
    Put32Get32(d, 0);
    HeaderBytes(d, r.key, r.value);
    FourPieces(d, at, n);
  }

  lemma HeaderBytes(d: Bytes, key: Bytes, value: Bytes)
    requires |d| >= 10 && |key| == Get16(d, 4) && |value| == Get32(d, 6)
    ensures |key| < U16_LIMIT && |value| < U32_LIMIT && Header(key, value) == d[4..10]
  {
    hide Get16, Get32, Put16, Put32;
    Put16Get16(d, 4);
    Put32Get32(d, 6);
    SmallModulo(|key|, U16_LIMIT);
    SmallModulo(|value|, U32_LIMIT);
    assert d[4..6] + d[6..10] == d[4..10];
  }

  lemma SmallModulo(n: nat, m: nat)
    requires n < m
    ensures n % m == n
  {
  }

  lemma FourPieces(d: Bytes, at: nat, n: nat)
    requires 10 <= at <= n <= |d|
    ensures d[4..n] == d[4..10] + d[10..at] + d[at..n]
    ensures d[..n] == d[0..4] + d[4..10] + d[10..at] + d[at..n]
  {
  }

  /** Damage behind the header of a record is found exactly when it changes the checksum of what follows the checksum
      field; the record is then not read. */
  lemma DamageFound(crc: Crc, r: LogRecord, damaged: Bytes, tail: Bytes)
    requires Loggable(r) && |damaged| == |Serialize(crc, r)| && damaged[..10] == Serialize(crc, r)[..10]
    ensures ReadOne(crc, damaged + tail) ==
              if crc(damaged[4..]) != crc(Serialize(crc, r)[4..]) then Bad
              else Good(LogRecord(damaged[10..10 + |r.key|], damaged[10 + |r.key|..]), |damaged|)
  {
    hide Serialize, Body, Get16, Get32;
    HeaderFields(crc, r, []);
    var whole, d := Serialize(crc, r), damaged + tail;
    assert whole + [] == whole && d[..10] == damaged[..10] && whole[4..|damaged|] == whole[4..];
    FieldsOfPrefix(d, whole);
    FrontSlices(damaged, tail, 10 + |r.key|);
  }

  lemma FrontSlices(d: Bytes, tail: Bytes, at: nat)
    requires 10 <= at <= |d|
    ensures (d + tail)[4..|d|] == d[4..] && (d + tail)[10..at] == d[10..at] && (d + tail)[at..|d|] == d[at..]
  {
  }

  /** A strict prefix of a record yields nothing. */
  lemma ReadTorn(crc: Crc, r: LogRecord, cut: nat)
    requires Loggable(r) && cut < |Serialize(crc, r)|
    ensures ReadOne(crc, Serialize(crc, r)[..cut]) == if cut < 4 then End else Bad
  {
    hide Serialize, Body, Get16, Get32;
    LengthFields(crc, r, []);
    var whole, d := Serialize(crc, r), Serialize(crc, r)[..cut];
    assert whole + [] == whole;
    if cut >= 10 {
      assert d[..10] == whole[..10];
      FieldsOfPrefix(d, whole);
    }
  }

  /** Exactly the loggable records survive a round trip: a longer key or value is cut or refused. */
  lemma RoundTripExact(crc: Crc, r: LogRecord)
    ensures ReplaySpec(crc, Serialize(crc, r)) == Replayed([r], 0) <==> Loggable(r)
  {
    var d := Serialize(crc, r);
    assert d + [] == d;
    HeaderFields(crc, r, []);
    hide Serialize, Body, Get16, Get32;
    var t := ReadOne(crc, d);
    if Loggable(r) {
      ReadBack(crc, r, []);
      assert d[|d|..] == [];
      assert ReplaySpec(crc, []) == Replayed([], 0);
    } else if t.Good? {
      assert |t.record.key| == |r.key| % U16_LIMIT && |t.record.value| == |r.value| % U32_LIMIT;
      assert t.record != r;
      assert ReplaySpec(crc, d).records[0] == t.record;
    }
  }

  // ---------------------------------------------------------------- whole logs

  /** How many records lie wholly inside the first `cut` bytes. */
  function WholeRecords(crc: Crc, rs: seq<LogRecord>, cut: nat): (n: nat)
    ensures n <= |rs|
  {
    if rs == [] || cut < |Serialize(crc, rs[0])| then 0
    else 1 + WholeRecords(crc, rs[1..], cut - |Serialize(crc, rs[0])|)
  }

  /** Nothing short of the whole log holds all of its records. */
  lemma {:induction false} AllRecordsNeedAllBytes(crc: Crc, rs: seq<LogRecord>, cut: nat)
    ensures WholeRecords(crc, rs, cut) == |rs| <==> cut >= |LogBytes(crc, rs)|
  {
    hide Serialize;
    if rs != [] && cut >= |Serialize(crc, rs[0])| {
      AllRecordsNeedAllBytes(crc, rs[1..], cut - |Serialize(crc, rs[0])|);
    }
  }

  /** The bytes of a torn record at the cut. */
  function Leftover(crc: Crc, rs: seq<LogRecord>, cut: nat): nat {
    if rs == [] || cut < |Serialize(crc, rs[0])| then cut
    else Leftover(crc, rs[1..], cut - |Serialize(crc, rs[0])|)
  }

  /** Replaying any byte prefix of a log returns exactly the records wholly inside it, and reports one corruption
      when at least a checksum of the torn record is there. */
  lemma {:induction false} ReplayPrefix(crc: Crc, rs: seq<LogRecord>, cut: nat)
    requires (forall r | r in rs :: Loggable(r)) && cut <= |LogBytes(crc, rs)|
    ensures ReplaySpec(crc, LogBytes(crc, rs)[..cut])
            == Replayed(rs[..WholeRecords(crc, rs, cut)], if Leftover(crc, rs, cut) < 4 then 0 else 1)
  {
    if rs == [] {
      assert LogBytes(crc, rs)[..cut] == [];
      TornTurn(crc, []);
    } else {
      hide Serialize, ReadOne, ReplaySpec;
      var first, rest := Serialize(crc, rs[0]), LogBytes(crc, rs[1..]);
      var n := |first|;
      TakeConcat(first, rest, cut);
      if cut < n {
        ReadTorn(crc, rs[0], cut);
        TornTurn(crc, first[..cut]);
      } else {
        ReadBack(crc, rs[0], rest[..cut - n]);
        ReplayTurn(crc, first + rest[..cut - n]);
        ReplayPrefix(crc, rs[1..], cut - n);
        TakeHead(rs, WholeRecords(crc, rs[1..], cut - n));
      }
    }
  }

  lemma TornTurn(crc: Crc, d: Bytes)
    ensures ReadOne(crc, d).End? ==> ReplaySpec(crc, d) == Replayed([], 0)
    ensures ReadOne(crc, d).Bad? ==> ReplaySpec(crc, d) == Replayed([], 1)
  {
  }

  lemma TakeHead(s: seq<LogRecord>, n: nat)
    requires s != [] && n <= |s| - 1
    ensures [s[0]] + s[1..][..n] == s[..1 + n]
  {
  }

  lemma HeadAgain(s: seq<LogRecord>, t: seq<LogRecord>)
    requires s != []
    ensures [s[0]] + (s[1..] + t) == s + t
  {
  }

  /** Appending arbitrary bytes to a full log never loses or alters an earlier record. */
  lemma {:induction false} ReplayDirtyTail(crc: Crc, rs: seq<LogRecord>, tail: Bytes)
    requires forall r | r in rs :: Loggable(r)
    ensures ReplaySpec(crc, LogBytes(crc, rs) + tail)
            == Replayed(rs + ReplaySpec(crc, tail).records, ReplaySpec(crc, tail).corrupted)
  {
    if rs == [] {
      assert LogBytes(crc, rs) + tail == tail;
    } else {
      hide Serialize, ReadOne, ReplaySpec;
      var first, rest := Serialize(crc, rs[0]), LogBytes(crc, rs[1..]);
      var d := first + (rest + tail);
      assert LogBytes(crc, rs) + tail == d;
      ReadBack(crc, rs[0], rest + tail);
      ReplayTurn(crc, d);
      ReplayDirtyTail(crc, rs[1..], tail);
      HeadAgain(rs, ReplaySpec(crc, tail).records);
    }
  }

  /** Bytes replay to a list of loggable records exactly when they start with its encoding and no record follows. */
  lemma {:induction false} RecordsExact(crc: Crc, d: Bytes, rs: seq<LogRecord>)
    requires forall r | r in rs :: Loggable(r)
    ensures ReplaySpec(crc, d).records == rs <==>
              LogBytes(crc, rs) <= d && !ReadOne(crc, d[|LogBytes(crc, rs)|..]).Good?
  {
    var log := LogBytes(crc, rs);
    if log <= d {
      var tail := d[|log|..];
      assert d == log + tail;
      ReplayDirtyTail(crc, rs, tail);
      NoRecordNoReplay(crc, tail);
    } else if ReadOne(crc, d).Good? && rs != [] {
      var Good(r, n) := ReadOne(crc, d);
      ReplayTurn(crc, d);
      ReadIsWritten(crc, d);
      hide Serialize, ReadOne, ReplaySpec;
      if r == rs[0] {
        RecordsExact(crc, d[n..], rs[1..]);
        PrefixOfConcat(d, Serialize(crc, r), LogBytes(crc, rs[1..]));
        HeadDiffers(rs, r, ReplaySpec(crc, d[n..]).records);
      }
    } else {
      NoRecordNoReplay(crc, d);
    }
  }

  lemma NoRecordNoReplay(crc: Crc, d: Bytes)
    ensures ReplaySpec(crc, d).records == [] <==> !ReadOne(crc, d).Good?
  {
  }

  lemma PrefixOfConcat(d: Bytes, a: Bytes, b: Bytes)
    requires a <= d
    ensures a + b <= d <==> b <= d[|a|..]
  {
    assert d == a + d[|a|..];
  }

  lemma HeadDiffers(rs: seq<LogRecord>, r: LogRecord, rest: seq<LogRecord>)
    requires rs != []
    ensures [r] + rest == rs <==> r == rs[0] && rest == rs[1..]
  {
    assert rs == [rs[0]] + rs[1..];
  }

  lemma {:induction false} LogAppend(crc: Crc, rs: seq<LogRecord>, r: LogRecord)
    ensures LogBytes(crc, rs + [r]) == LogBytes(crc, rs) + Serialize(crc, r)
  {
    if rs == [] {
      assert ([] + [r])[1..] == [];
    } else {
      assert (rs + [r])[1..] == rs[1..] + [r];
      LogAppend(crc, rs[1..], r);
    }
  }

  /** A log with one damaged record, its header intact: the records before it come back, it and all behind it are
      dropped, and one corruption is reported. */
  lemma DamageEndsReplay(crc: Crc, rs: seq<LogRecord>, r: LogRecord, damaged: Bytes, tail: Bytes)
    requires (forall q | q in rs :: Loggable(q)) && Loggable(r)
    requires |damaged| == |Serialize(crc, r)| && damaged[..10] == Serialize(crc, r)[..10]
    requires crc(damaged[4..]) != crc(Serialize(crc, r)[4..])
    ensures ReplaySpec(crc, LogBytes(crc, rs) + (damaged + tail)) == Replayed(rs, 1)
  {
    DamageFound(crc, r, damaged, tail);
    TornTurn(crc, damaged + tail);
    ReplayDirtyTail(crc, rs, damaged + tail);
    assert rs + [] == rs;
  }
}
