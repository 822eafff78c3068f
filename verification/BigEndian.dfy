/** Fixed-width big-endian fields, as the log and page formats write them. */
module BigEndian {
  import opened Common
  import opened Lex

  const U16_LIMIT: nat := 0x1_0000

  function Put16(n: nat): (b: Bytes)
    requires n < U16_LIMIT
    ensures |b| == 2
  {
    [n / 256, n % 256]
  }

  function Put32(n: nat): (b: Bytes)
    requires n < U32_LIMIT
    ensures |b| == 4
  {
    [n / 0x100_0000, n / 0x1_0000 % 256, n / 0x100 % 256, n % 256]
  }

  function Get16(d: Bytes, at: nat): nat
    requires at + 2 <= |d|
  {
    256 * (d[at] as nat) + d[at + 1] as nat
  }

  function Get32(d: Bytes, at: nat): nat
    requires at + 4 <= |d|
  {
    0x100_0000 * (d[at] as nat) + 0x1_0000 * (d[at + 1] as nat) + 0x100 * (d[at + 2] as nat) + d[at + 3] as nat
  }

  /** Most significant byte first: fields compare bytewise as the numbers in them do. */
  lemma Put16Order(a: nat, b: nat)
    requires a < b < U16_LIMIT
    ensures Less(Put16(a), Put16(b))
  {
    var x, y := Put16(a), Put16(b);
    var i := if x[0] != y[0] then 0 else 1;
    assert PartsAt(x, y, i);
    LessMeans(x, y);
  }

  lemma Put32Order(a: nat, b: nat)
    requires a < b < U32_LIMIT
    ensures Less(Put32(a), Put32(b))
  {
    var x, y := Put32(a), Put32(b);
    if a / 0x1_0000 == b / 0x1_0000 {
      Put16Order(a % 0x1_0000, b % 0x1_0000);
      LowerHalf(a);
      LowerHalf(b);
      assert x[..2] == y[..2];
      SamePrefixOrder(x[..2], Put16(a % 0x1_0000), Put16(b % 0x1_0000));
    } else {
      Put16Order(a / 0x1_0000, b / 0x1_0000);
      LowerHalf(a);
      LowerHalf(b);
      LessMeans(x[..2], y[..2]);
      var i: nat :| PartsAt(x[..2], y[..2], i);
      assert x[..i] == x[..2][..i] && y[..i] == y[..2][..i];
      assert PartsAt(x, y, i);
      LessMeans(x, y);
    }
  }

  lemma LowerHalf(n: nat)
    requires n < U32_LIMIT
    ensures n / 0x1_0000 < U16_LIMIT && n % 0x1_0000 < U16_LIMIT
    ensures Put32(n)[..2] == Put16(n / 0x1_0000) && Put32(n) == Put32(n)[..2] + Put16(n % 0x1_0000)
  {
    var hi, lo := n / 0x1_0000, n % 0x1_0000;
    assert n == 0x1_0000 * hi + lo;
    assert n / 0x100_0000 == hi / 256;
    assert n / 0x100 == 0x100 * hi + lo / 0x100;
    assert n / 0x100 % 256 == lo / 256 && n % 256 == lo % 256;
  }

  lemma {:induction false} SamePrefixOrder(p: Bytes, a: Bytes, b: Bytes)
    requires Less(a, b)
    ensures Less(p + a, p + b)
  {
    if p == [] {
      assert p + a == a && p + b == b;
    } else {
      assert (p + a)[1..] == p[1..] + a && (p + b)[1..] == p[1..] + b;
      SamePrefixOrder(p[1..], a, b);
    }
  }

  /** Reading back a field wherever it was written. */
  lemma Get16Put16(pre: Bytes, n: nat, post: Bytes)
    requires n < U16_LIMIT
    ensures Get16(pre + Put16(n) + post, |pre|) == n
  {
  }

  lemma Get32Put32(pre: Bytes, n: nat, post: Bytes)
    requires n < U32_LIMIT
    ensures Get32(pre + Put32(n) + post, |pre|) == n
  {
    var d := pre + Put32(n) + post;
    assert d[|pre|] == n / 0x100_0000 && d[|pre| + 1] == n / 0x1_0000 % 256;
    assert d[|pre| + 2] == n / 0x100 % 256 && d[|pre| + 3] == n % 256;
    assert n / 0x1_0000 == 256 * (n / 0x100_0000) + n / 0x1_0000 % 256;
    assert n / 0x100 == 256 * (n / 0x1_0000) + n / 0x100 % 256;
    assert n == 256 * (n / 0x100) + n % 256;
  }

  /** Writing back what was read. */
  lemma Put16Get16(d: Bytes, at: nat)
    requires at + 2 <= |d|
    ensures Get16(d, at) < U16_LIMIT && Put16(Get16(d, at)) == d[at..at + 2]
  {
  }

  lemma Put32Get32(d: Bytes, at: nat)
    requires at + 4 <= |d|
    ensures Get32(d, at) < U32_LIMIT && Put32(Get32(d, at)) == d[at..at + 4]
  {
    var n := Get32(d, at);
    var a, b, c, e := d[at] as nat, d[at + 1] as nat, d[at + 2] as nat, d[at + 3] as nat;
    assert n / 0x100 == 0x1_0000 * a + 0x100 * b + c && n % 256 == e;
    assert n / 0x1_0000 == 0x100 * a + b && n / 0x100 % 256 == c;
    assert n / 0x100_0000 == a && n / 0x1_0000 % 256 == b;
  }

  /** A field reads the same in bytes that agree that far. */
  lemma FieldsOfPrefix(d: Bytes, e: Bytes)
    requires 10 <= |d| && 10 <= |e| && d[..10] == e[..10]
    ensures d[..4] == e[..4] && Get32(d, 0) == Get32(e, 0)
    ensures Get16(d, 4) == Get16(e, 4) && Get32(d, 6) == Get32(e, 6)
  {
    assert d[..4] == d[..10][..4] && e[..4] == e[..10][..4];
    assert forall i | 0 <= i < 10 :: d[i] == d[..10][i] && e[i] == e[..10][i];
  }

  /** Cutting a known middle part out of a concatenation. */
  lemma Middle(pre: Bytes, mid: Bytes, post: Bytes)
    ensures (pre + mid + post)[|pre|..|pre| + |mid|] == mid
    ensures (pre + mid + post)[|pre| + |mid|..] == post
  {
  }

  /** A prefix of a concatenation. */
  lemma TakeConcat(a: Bytes, b: Bytes, cut: nat)
    requires cut <= |a| + |b|
    ensures (a + b)[..cut] == if cut < |a| then a[..cut] else a + b[..cut - |a|]
  {
  }
}
