/** The in-memory write buffer and its byte accounting, which decides when to flush. */
module Memtables {
  import opened Common

  datatype MemEntry = MemEntry(value: Option<Bytes>, seqNo: nat)

  /** Buffered writes: a key maps to its value, or to nothing when deleted. */
  type Buffer = map<Bytes, Option<Bytes>>

  function EntrySize(k: Bytes, v: Option<Bytes>): nat {
    |k| + (if v.Some? then |v.value| else 0) + 8
  }

  /** Bytes held by a buffer. */
  ghost function BufferSize(b: Buffer): nat
    decreases |b|
  {
    if b == map[] then 0
    else
      var k :| k in b;
      EntrySize(k, b[k]) + BufferSize(b - {k})
  }

  lemma {:induction false} BufferSizeSplit(b: Buffer, k: Bytes)
    requires k in b
    ensures BufferSize(b) == EntrySize(k, b[k]) + BufferSize(b - {k})
    decreases |b|
  {
    var j :| j in b && BufferSize(b) == EntrySize(j, b[j]) + BufferSize(b - {j});
    if j != k {
      BufferSizeSplit(b - {j}, k);
      BufferSizeSplit(b - {k}, j);
      assert b - {j} - {k} == b - {k} - {j};
    }
  }

  /** Overwriting replaces the old entry's share, so the accounting never drifts: a new key costs its bytes, those of
      its value and eight more; a delete gives the bytes of the value back and keeps the entry. */
  lemma BufferSizeUpdate(b: Buffer, k: Bytes, v: Option<Bytes>)
    ensures BufferSize(map[]) == 0
    ensures k !in b && v.Some? ==> BufferSize(b[k := v]) == BufferSize(b) + |k| + |v.value| + 8
    ensures k !in b && v.None? ==> BufferSize(b[k := v]) == BufferSize(b) + |k| + 8
    ensures k in b && b[k].Some? && v.None? ==> BufferSize(b[k := v]) == BufferSize(b) - |b[k].value|
    ensures BufferSize(b[k := v]) == BufferSize(b) - (if k in b then EntrySize(k, b[k]) else 0) + EntrySize(k, v)
  {
    BufferSizeSplit(b[k := v], k);
    if k in b {
      BufferSizeSplit(b, k);
      assert b[k := v] - {k} == b - {k};
    } else {
      assert b[k := v] - {k} == b;
    }
  }

  function Values(entries: map<Bytes, MemEntry>): Buffer {
    map k | k in entries :: entries[k].value
  }

  /** The byte count is exact. */
  ghost predicate Accounted(entries: map<Bytes, MemEntry>, buffered: Buffer, sizeBytes: nat) {
    buffered == Values(entries) && sizeBytes == BufferSize(buffered)
  }

  /** Sequence numbers follow the order of writes. */
  ghost predicate InWriteOrder(entries: map<Bytes, MemEntry>, last: nat) {
    && (forall k | k in entries :: entries[k].seqNo <= last)
    && (forall j, k | j in entries && k in entries && j != k :: entries[j].seqNo != entries[k].seqNo)
  }

  lemma WriteInOrder(entries: map<Bytes, MemEntry>, last: nat, key: Bytes, value: Option<Bytes>)
    requires InWriteOrder(entries, last)
    ensures InWriteOrder(entries[key := MemEntry(value, last + 1)], last + 1)
    ensures forall k | k in entries :: entries[k].seqNo < last + 1
  {
  }

  class Memtable {
    var entries: map<Bytes, MemEntry>
    var sizeBytes: nat
    var nextSeq: nat
    const threshold: nat

    /** What the entries say, without sequence numbers. */
    ghost var buffered: Buffer

    ghost predicate Valid() reads this { Accounted(entries, buffered, sizeBytes) && InWriteOrder(entries, nextSeq) }

    constructor (threshold: nat)
      ensures Valid() && buffered == map[] && this.threshold == threshold
    {
      entries, sizeBytes, nextSeq, buffered := map[], 0, 0, map[];
      this.threshold := threshold;
    }

    /** `put` and `delete` differ only in the value stored. */
    method Write(key: Bytes, value: Option<Bytes>) returns (flush: bool)
      requires Valid()
      modifies this
      ensures Valid() && buffered == old(buffered)[key := value]
      ensures flush <==> BufferSize(buffered) >= threshold
      ensures entries.Keys == old(entries).Keys + {key}
      ensures forall k | k in old(entries) && k != key ::
        entries[k] == old(entries)[k] && entries[k].seqNo < entries[key].seqNo
    {
      hide BufferSize, InWriteOrder;
      BufferSizeUpdate(buffered, key, value);
      WriteInOrder(entries, nextSeq, key, value);
      if key in entries {
        BufferSizeSplit(buffered, key);
        sizeBytes := SaturatingSub(sizeBytes, EntrySize(key, entries[key].value));
      }
      nextSeq := nextSeq + 1;
      entries := entries[key := MemEntry(value, nextSeq)];
      sizeBytes := sizeBytes + EntrySize(key, value);
      buffered := buffered[key := value];
      assert buffered == Values(entries);
      flush := sizeBytes >= threshold;
    }

    method Put(key: Bytes, value: Bytes) returns (flush: bool)
      requires Valid()
      modifies this
      ensures Valid() && buffered == old(buffered)[key := Some(value)]
      ensures flush <==> BufferSize(buffered) >= threshold
    {
      flush := Write(key, Some(value));
    }

    method Delete(key: Bytes) returns (flush: bool)
      requires Valid()
      modifies this
      ensures Valid() && buffered == old(buffered)[key := None]
      ensures flush <==> BufferSize(buffered) >= threshold
    {
      flush := Write(key, None);
    }

    /** The entry for a key, deletions included. */
    method GetEntry(key: Bytes) returns (r: Option<MemEntry>)
      requires Valid()
      ensures r.Some? <==> key in buffered
      ensures r.Some? ==> r.value.value == buffered[key]
    {
      r := MapGet(entries, key);
    }

    method ShouldFlush() returns (flush: bool)
      requires Valid()
      ensures flush <==> BufferSize(buffered) >= threshold
    {
      flush := sizeBytes >= threshold;
    }

    /** Hands every entry over and starts afresh. */
    method Drain() returns (drained: map<Bytes, MemEntry>)
      requires Valid()
      modifies this
      ensures Valid() && entries == map[] && buffered == map[] && Values(drained) == old(buffered)
    {
      drained := entries;
      sizeBytes, nextSeq, entries, buffered := 0, 0, map[], map[];
    }
  }
}
