/** The persistent hash array mapped trie behind live state, snapshots, branches and transactions.
    The theorem of the module: over keys whose 64-bit hashes are pairwise distinct, the trie cannot be
    told apart from a finite map. */
module Hamt {
  import opened Common
  import opened Bits

  const BITS_PER_LEVEL: nat := 5
  const BRANCHING: nat := 32
  const MASK: nat := 31

  /** The deepest level at which a 64-bit hash still has a digit. */
  const LAST_LEVEL: nat := 12

  datatype Node =
    | Leaf(hash: U64, key: Bytes, value: Bytes)
    | Branch(bitmap: nat, children: seq<Node>)

  datatype Trie = Trie(root: Option<Node>, len: nat)

  type Hash = Bytes -> U64

  /** The digit of `hash` used at `level`. A level above the last one would shift a 64-bit word by 65 bits
      or more, so it is not a legal argument. */
  function BitIndex(hash: U64, level: nat): nat
    requires level <= LAST_LEVEL
  {
    BitAnd(ShiftRight(hash, level * BITS_PER_LEVEL), MASK)
  }

  function SparseIndex(bitmap: nat, bit: nat): nat {
    CountOnes(BitAnd(bitmap, Pow2(bit) - 1))
  }

  // ---------------------------------------------------------------- hash digits

  /** All thirteen digits of a hash, from the root down. */
  ghost function Digits(hash: U64): (ds: seq<nat>)
    ensures |ds| == LAST_LEVEL + 1
  {
    seq(LAST_LEVEL + 1, level requires 0 <= level <= LAST_LEVEL => BitIndex(hash, level))
  }

  lemma MaskOneBit(x: nat, m: nat)
    ensures BitAnd(x, 2 * m + 1) == 2 * BitAnd(x / 2, m) + x % 2
  {
    var y := 2 * m + 1;
    assert y / 2 == m && y % 2 == 1;
    AndHalves(x, y);
  }

  lemma MaskIsRemainder(x: nat)
    ensures BitAnd(x, MASK) == x % 32
  {
    MaskOneBit(x, 15); MaskOneBit(x / 2, 7); MaskOneBit(x / 2 / 2, 3);
    MaskOneBit(x / 2 / 2 / 2, 1); MaskOneBit(x / 2 / 2 / 2 / 2, 0);
    assert BitAnd(x / 2 / 2 / 2 / 2 / 2, 0) == 0;
  }

  lemma WordSizes()
    ensures Pow2(32) == U32_LIMIT && Pow2(65) == 2 * U64_LIMIT
  {
    var eight, sixteen, thirtyTwo := 8, 16, 32;
    Pow2Double(eight, 0x100);
    Pow2Double(sixteen, 0x1_0000);
    Pow2Double(thirtyTwo, 0x1_0000_0000);
  }

  lemma BitIndexBound(hash: U64, level: nat)
    requires level <= LAST_LEVEL
    ensures BitIndex(hash, level) < BRANCHING
  {
    MaskIsRemainder(ShiftRight(hash, level * BITS_PER_LEVEL));
  }

  lemma ShiftDigit(x: nat)
    ensures ShiftRight(x, 5) == x / 32
  {
    assert ShiftRight(x, 5) == x / 2 / 2 / 2 / 2 / 2;
  }

  /** Hashes that share every digit from `level` on share everything above those bits. */
  lemma {:induction false} DigitsFrom(a: U64, b: U64, level: nat)
    requires level <= LAST_LEVEL + 1
    requires forall l | level <= l <= LAST_LEVEL :: BitIndex(a, l) == BitIndex(b, l)
    ensures ShiftRight(a, BITS_PER_LEVEL * level) == ShiftRight(b, BITS_PER_LEVEL * level)
    decreases LAST_LEVEL + 1 - level
  {
    if level == LAST_LEVEL + 1 {
      WordSizes();
      ShiftedOut(a, BITS_PER_LEVEL * level); ShiftedOut(b, BITS_PER_LEVEL * level);
    } else {
      DigitsFrom(a, b, level + 1);
      var x, y := ShiftRight(a, BITS_PER_LEVEL * level), ShiftRight(b, BITS_PER_LEVEL * level);
      ShiftTwice(a, BITS_PER_LEVEL * level, 5); ShiftTwice(b, BITS_PER_LEVEL * level, 5);
      ShiftDigit(x); ShiftDigit(y);
      MaskIsRemainder(x); MaskIsRemainder(y);
      assert BitIndex(a, level) == x % 32 && BitIndex(b, level) == y % 32;
    }
  }

  /** Thirteen five-bit digits determine a 64-bit hash. */
  lemma DigitsDetermineHash(a: U64, b: U64)
    ensures Digits(a) == Digits(b) ==> a == b
  {
    if Digits(a) == Digits(b) {
      forall l | 0 <= l <= LAST_LEVEL ensures BitIndex(a, l) == BitIndex(b, l) {
        assert Digits(a)[l] == Digits(b)[l];
      }
      DigitsFrom(a, b, 0);
    }
  }

  // ---------------------------------------------------------------- shape of a trie

  /** `n` is a well-formed subtrie reached along the digits `path`: the bitmap and the dense array agree, and
      every leaf's hash starts with those digits. `keys` is the set of keys in play. */
  ghost predicate Valid(h: Hash, keys: set<Bytes>, n: Node, path: seq<nat>)
    decreases n
  {
    match n
    case Leaf(hash, key, _) => key in keys && hash == h(key) && path <= Digits(hash)
    case Branch(bitmap, children) =>
      && |path| <= LAST_LEVEL
      && bitmap < U32_LIMIT
      && 0 < |children| == CountOnes(bitmap)
      && forall bit | 0 <= bit < BRANCHING && HasBit(bitmap, bit) && Rank(bitmap, bit) < |children| ::
           Valid(h, keys, children[Rank(bitmap, bit)], path + [bit])
  }

  /** The digits of `key` above `level`. */
  ghost function Path(h: Hash, key: Bytes, level: nat): seq<nat>
    requires level <= LAST_LEVEL + 1
  {
    Digits(h(key))[..level]
  }

  ghost predicate NoCollisions(h: Hash, keys: set<Bytes>) {
    forall a, b | a in keys && b in keys && h(a) == h(b) :: a == b
  }

  /** `n` is a valid subtrie lying at `level` on the way to `key`. */
  ghost predicate OnWay(h: Hash, keys: set<Bytes>, n: Node, key: Bytes, level: nat) {
    level <= LAST_LEVEL + 1 && Valid(h, keys, n, Path(h, key, level))
  }

  /** The slot `key` leads to in a branch, with the facts every walk down the trie needs. */
  lemma ChildFacts(h: Hash, keys: set<Bytes>, n: Node, key: Bytes, level: nat)
    requires n.Branch? && OnWay(h, keys, n, key, level)
    ensures level <= LAST_LEVEL
    ensures var bit := BitIndex(h(key), level);
            && bit < BRANCHING
            && (BitAnd(n.bitmap, Pow2(bit)) == 0 <==> !HasBit(n.bitmap, bit))
            && SparseIndex(n.bitmap, bit) == Rank(n.bitmap, bit) <= |n.children|
            && Path(h, key, level + 1) == Path(h, key, level) + [bit]
            && (HasBit(n.bitmap, bit) ==>
                  && Rank(n.bitmap, bit) < |n.children|
                  && OnWay(h, keys, n.children[Rank(n.bitmap, bit)], key, level + 1))
  {
    var bit := BitIndex(h(key), level);
    BitIndexBound(h(key), level);
    AndWithFlag(n.bitmap, bit);
    PopcountIsRank(n.bitmap, bit);
    RankBound(n.bitmap, bit);
    assert Path(h, key, level + 1) == Path(h, key, level) + [bit];
  }

  /** Distinct set bits occupy distinct slots. */
  lemma SlotsDiffer(bitmap: nat, a: nat, b: nat)
    requires HasBit(bitmap, a) && HasBit(bitmap, b) && a != b
    ensures Rank(bitmap, a) != Rank(bitmap, b)
  {
    if a < b { RankMonotone(bitmap, a, b); } else { RankMonotone(bitmap, b, a); }
  }

  // ---------------------------------------------------------------- get

  /** What the descent finds for `key`, as a recursion. */
  function Lookup(h: Hash, ghost keys: set<Bytes>, n: Node, key: Bytes, level: nat): Option<Bytes>
    requires OnWay(h, keys, n, key, level)
    decreases n
  {
    match n
    case Leaf(_, k, value) => if k == key then Some(value) else None
    case Branch(bitmap, children) =>
      ChildFacts(h, keys, n, key, level);
      var bit := BitIndex(h(key), level);
      if BitAnd(bitmap, Pow2(bit)) == 0 then None
      else Lookup(h, keys, children[SparseIndex(bitmap, bit)], key, level + 1)
  }

  function LookupIn(h: Hash, ghost keys: set<Bytes>, n: Option<Node>, key: Bytes, level: nat): Option<Bytes>
    requires n.Some? ==> OnWay(h, keys, n.value, key, level)
  {
    if n.None? then None else Lookup(h, keys, n.value, key, level)
  }

  // ---------------------------------------------------------------- insert

  /** Two keys in play that agree on all digits above `level` still have a digit to differ in. */
  lemma CollisionHasDigit(h: Hash, keys: set<Bytes>, a: Bytes, b: Bytes, level: nat)
    requires NoCollisions(h, keys) && a in keys && b in keys && a != b
    requires level <= LAST_LEVEL + 1 && Path(h, a, level) == Path(h, b, level)
    ensures level <= LAST_LEVEL
    ensures Path(h, a, level + 1) == Path(h, a, level) + [BitIndex(h(a), level)]
    ensures Path(h, b, level + 1) == Path(h, b, level) + [BitIndex(h(b), level)]
    ensures BitIndex(h(a), level) < BRANCHING && BitIndex(h(b), level) < BRANCHING
  {
    DigitsDetermineHash(h(a), h(b));
    assert Path(h, a, LAST_LEVEL + 1) == Digits(h(a)) && Path(h, b, LAST_LEVEL + 1) == Digits(h(b));
    BitIndexBound(h(a), level); BitIndexBound(h(b), level);
  }

  /** Copy-on-write insertion. The recursion on two colliding leaves ends because distinct keys in play have
      distinct hashes, and those differ in a digit no deeper than `LAST_LEVEL`. */
  function InsertNode(h: Hash, ghost keys: set<Bytes>, n: Option<Node>, key: Bytes, value: Bytes, level: nat): Node
    requires NoCollisions(h, keys) && key in keys && level <= LAST_LEVEL + 1
    requires n.Some? ==> OnWay(h, keys, n.value, key, level)
    decreases LAST_LEVEL + 1 - level
  {
    var hash := h(key);
    match n
    case None => Leaf(hash, key, value)
    case Some(Leaf(oldHash, oldKey, _)) =>
      if oldKey == key then Leaf(hash, key, value)
      else
        CollisionHasDigit(h, keys, oldKey, key, level);
        var oldBit, newBit := BitIndex(oldHash, level), BitIndex(hash, level);
        if oldBit == newBit then
          var deeper := InsertNode(h, keys, n, key, value, level + 1);
          Branch(Pow2(oldBit), [deeper])
        else if oldBit < newBit then
          Branch(BitOr(Pow2(oldBit), Pow2(newBit)), [n.value, Leaf(hash, key, value)])
        else
          Branch(BitOr(Pow2(oldBit), Pow2(newBit)), [Leaf(hash, key, value), n.value])
    case Some(Branch(bitmap, children)) =>
      ChildFacts(h, keys, n.value, key, level);
      var bit := BitIndex(hash, level);
      var flag := Pow2(bit);
      var idx := SparseIndex(bitmap, bit);
      if BitAnd(bitmap, flag) == 0 then
        Branch(BitOr(bitmap, flag), children[..idx] + [Leaf(hash, key, value)] + children[idx..])
      else
        var child := InsertNode(h, keys, Some(children[idx]), key, value, level + 1);
        Branch(bitmap, children[idx := child])
  }

  lemma OneBit(bit: nat)
    ensures CountOnes(Pow2(bit)) == 1
    ensures forall j: nat :: HasBit(Pow2(bit), j) <==> j == bit
    ensures Rank(Pow2(bit), bit) == 0
  {
    forall j: nat ensures HasBit(Pow2(bit), j) <==> j == bit {
      NoBitsInZero(bit); NoBitsInZero(j); SetBit(0, bit, j);
    }
    NoBitsInZero(bit); SetBit(0, bit, bit);
  }

  /** The bitmap made when two colliding leaves part ways. */
  lemma TwoBits(a: nat, b: nat)
    requires a != b
    ensures var m := BitOr(Pow2(a), Pow2(b));
            && CountOnes(m) == 2
            && (forall j: nat :: HasBit(m, j) <==> j == a || j == b)
            && Rank(m, if a < b then a else b) == 0 && Rank(m, if a < b then b else a) == 1
  {
    var m := BitOr(Pow2(a), Pow2(b));
    OneBit(a);
    forall j: nat ensures HasBit(m, j) <==> j == a || j == b { SetBit(Pow2(a), b, j); }
    SetBit(Pow2(a), b, a); SetBit(Pow2(a), b, b);
    if a < b {
      RankMonotone(Pow2(a), a, b); RankBound(Pow2(a), b);
    } else {
      RankMonotone(Pow2(a), b, a);
    }
  }

  lemma BitFitsWord(a: nat, bit: nat)
    requires a < U32_LIMIT && bit < BRANCHING
    ensures Pow2(bit) < U32_LIMIT && BitOr(a, Pow2(bit)) < U32_LIMIT
  {
    WordSizes();
    Pow2Strict(bit, 32);
    SetBitBound(a, bit, 32);
  }

  /** Inserting keeps the subtrie well formed. */
  lemma {:induction false} InsertValid(h: Hash, keys: set<Bytes>, n: Option<Node>, key: Bytes, value: Bytes, level: nat)
    requires NoCollisions(h, keys) && key in keys && level <= LAST_LEVEL + 1
    requires n.Some? ==> OnWay(h, keys, n.value, key, level)
    ensures OnWay(h, keys, InsertNode(h, keys, n, key, value, level), key, level)
    decreases LAST_LEVEL + 1 - level, 1
  {
    hide Pow2, BitAnd, BitOr, CountOnes, HasBit, Rank, SparseIndex;
    match n
    case None =>
    case Some(Leaf(oldHash, oldKey, _)) =>
      if oldKey != key { CollisionValid(h, keys, n.value, key, value, level); }
    case Some(Branch(bitmap, _)) =>
      ChildFacts(h, keys, n.value, key, level);
      if HasBit(bitmap, BitIndex(h(key), level)) {
        ReplaceChildValid(h, keys, n.value, key, value, level);
      } else {
        NewChildValid(h, keys, n.value, key, value, level);
      }
  }

  lemma {:induction false} CollisionValid(h: Hash, keys: set<Bytes>, n: Node, key: Bytes, value: Bytes, level: nat)
    requires NoCollisions(h, keys) && key in keys && level <= LAST_LEVEL + 1
    requires n.Leaf? && n.key != key && OnWay(h, keys, n, key, level)
    ensures OnWay(h, keys, InsertNode(h, keys, Some(n), key, value, level), key, level)
    decreases LAST_LEVEL + 1 - level, 0
  {
    hide Pow2, BitAnd, BitOr, CountOnes, HasBit, Rank, SparseIndex;
    CollisionHasDigit(h, keys, n.key, key, level);
    var oldBit, newBit := BitIndex(n.hash, level), BitIndex(h(key), level);
    BitFitsWord(0, oldBit); BitFitsWord(Pow2(oldBit), newBit);
    if oldBit == newBit {
      OneBit(oldBit);
      InsertValid(h, keys, Some(n), key, value, level + 1);
    } else {
      TwoBits(oldBit, newBit);
      var p := Path(h, key, level);
      assert Valid(h, keys, n, p + [oldBit]) && Valid(h, keys, Leaf(h(key), key, value), p + [newBit]);
    }
  }

  lemma {:induction false} ReplaceChildValid(h: Hash, keys: set<Bytes>, n: Node, key: Bytes, value: Bytes, level: nat)
    requires NoCollisions(h, keys) && key in keys
    requires n.Branch? && OnWay(h, keys, n, key, level)
    requires level <= LAST_LEVEL && HasBit(n.bitmap, BitIndex(h(key), level))
    ensures OnWay(h, keys, InsertNode(h, keys, Some(n), key, value, level), key, level)
    decreases LAST_LEVEL + 1 - level, 0
  {
    ChildFacts(h, keys, n, key, level);
    var bit := BitIndex(h(key), level);
    InsertValid(h, keys, Some(n.children[Rank(n.bitmap, bit)]), key, value, level + 1);
    forall b: nat | b < BRANCHING && HasBit(n.bitmap, b) && b != bit
      ensures Rank(n.bitmap, b) != Rank(n.bitmap, bit)
    {
      SlotsDiffer(n.bitmap, b, bit);
    }
  }

  lemma {:induction false} NewChildValid(h: Hash, keys: set<Bytes>, n: Node, key: Bytes, value: Bytes, level: nat)
    requires NoCollisions(h, keys) && key in keys
    requires n.Branch? && OnWay(h, keys, n, key, level)
    requires level <= LAST_LEVEL && !HasBit(n.bitmap, BitIndex(h(key), level))
    ensures OnWay(h, keys, InsertNode(h, keys, Some(n), key, value, level), key, level)
  {
    ChildFacts(h, keys, n, key, level);
    var bit := BitIndex(h(key), level);
    var r := InsertNode(h, keys, Some(n), key, value, level);
    SetBit(n.bitmap, bit, bit);
    BitFitsWord(n.bitmap, bit);
    forall b: nat | b < BRANCHING && HasBit(r.bitmap, b) && Rank(r.bitmap, b) < |r.children|
      ensures Valid(h, keys, r.children[Rank(r.bitmap, b)], Path(h, key, level) + [b])
    {
      SetBit(n.bitmap, bit, b);
      if b != bit {
        RankBound(n.bitmap, b);
        RankMonotone(n.bitmap, if b < bit then b else bit, if b < bit then bit else b);
        assert r.children[Rank(r.bitmap, b)] == n.children[Rank(n.bitmap, b)];
      }
    }
  }

  /** Reading after inserting, for every key whose way leads through this subtrie. */
  lemma {:induction false} InsertLookup(h: Hash, keys: set<Bytes>, n: Option<Node>, key: Bytes, value: Bytes,
                                        level: nat, k: Bytes)
    requires NoCollisions(h, keys) && key in keys && level <= LAST_LEVEL + 1
    requires n.Some? ==> OnWay(h, keys, n.value, key, level)
    requires Path(h, k, level) == Path(h, key, level)
    ensures OnWay(h, keys, InsertNode(h, keys, n, key, value, level), k, level)
    ensures Lookup(h, keys, InsertNode(h, keys, n, key, value, level), k, level)
            == if k == key then Some(value) else LookupIn(h, keys, n, k, level)
    decreases LAST_LEVEL + 1 - level, 1
  {
    InsertValid(h, keys, n, key, value, level);
    if n.Some? {
      if n.value.Branch? {
        BranchLookup(h, keys, n.value, key, value, level, k);
      } else if n.value.key != key {
        CollisionLookup(h, keys, n.value, key, value, level, k);
      }
    }
  }

  /** The case of a leaf holding another key. */
  lemma {:induction false} CollisionLookup(h: Hash, keys: set<Bytes>, n: Node, key: Bytes, value: Bytes,
                                           level: nat, k: Bytes)
    requires NoCollisions(h, keys) && key in keys && level <= LAST_LEVEL + 1
    requires n.Leaf? && n.key != key && OnWay(h, keys, n, key, level)
    requires OnWay(h, keys, InsertNode(h, keys, Some(n), key, value, level), k, level)
    requires Path(h, k, level) == Path(h, key, level)
    ensures Lookup(h, keys, InsertNode(h, keys, Some(n), key, value, level), k, level)
            == if k == key then Some(value) else Lookup(h, keys, n, k, level)
    decreases LAST_LEVEL + 1 - level, 0
  {
    hide Pow2, BitAnd, BitOr, CountOnes, HasBit, Rank, SparseIndex;
    CollisionHasDigit(h, keys, n.key, key, level);
    var oldBit, newBit := BitIndex(n.hash, level), BitIndex(h(key), level);
    ChildFacts(h, keys, InsertNode(h, keys, Some(n), key, value, level), k, level);
    if oldBit == newBit {
      OneBit(oldBit);
      if BitIndex(h(k), level) == oldBit {
        InsertLookup(h, keys, Some(n), key, value, level + 1, k);
      }
    } else {
      TwoBits(oldBit, newBit);
    }
  }

  /** The case of a branch: either the key's slot is replaced, or a new slot is opened between the others. */
  lemma {:induction false} BranchLookup(h: Hash, keys: set<Bytes>, n: Node, key: Bytes, value: Bytes,
                                        level: nat, k: Bytes)
    requires NoCollisions(h, keys) && key in keys && level <= LAST_LEVEL + 1
    requires n.Branch? && OnWay(h, keys, n, key, level)
    requires OnWay(h, keys, InsertNode(h, keys, Some(n), key, value, level), k, level)
    requires Path(h, k, level) == Path(h, key, level)
    ensures Lookup(h, keys, InsertNode(h, keys, Some(n), key, value, level), k, level)
            == if k == key then Some(value) else Lookup(h, keys, n, k, level)
    decreases LAST_LEVEL + 1 - level, 0
  {
    hide Pow2, BitAnd, BitOr, CountOnes, HasBit, Rank, SparseIndex;
    ChildFacts(h, keys, n, key, level);
    ChildFacts(h, keys, n, k, level);
    ChildFacts(h, keys, InsertNode(h, keys, Some(n), key, value, level), k, level);
    var bit, b := BitIndex(h(key), level), BitIndex(h(k), level);
    if HasBit(n.bitmap, bit) {
      if b == bit {
        InsertLookup(h, keys, Some(n.children[Rank(n.bitmap, bit)]), key, value, level + 1, k);
      } else if HasBit(n.bitmap, b) {
        SlotsDiffer(n.bitmap, b, bit);
      }
    } else {
      SetBit(n.bitmap, bit, b);
      RankMonotone(n.bitmap, if b < bit then b else bit, if b < bit then bit else b);
    }
  }

  // ---------------------------------------------------------------- remove

  function RemoveNode(h: Hash, ghost keys: set<Bytes>, n: Node, key: Bytes, level: nat): Option<Node>
    requires OnWay(h, keys, n, key, level)
    decreases n
  {
    match n
    case Leaf(_, k, _) => if k == key then None else Some(n)
    case Branch(bitmap, children) =>
      ChildFacts(h, keys, n, key, level);
      var bit := BitIndex(h(key), level);
      var flag := Pow2(bit);
      if BitAnd(bitmap, flag) == 0 then Some(n)
      else
        var idx := SparseIndex(bitmap, bit);
        match RemoveNode(h, keys, children[idx], key, level + 1)
        case None =>
          if |children| == 1 then None
          else Some(Branch(BitAndNot(bitmap, flag), children[..idx] + children[idx + 1..]))
        case Some(child) => Some(Branch(bitmap, children[idx := child]))
  }

  /** Removing keeps the subtrie well formed, and never leaves an empty branch behind. */
  lemma {:induction false} RemoveValid(h: Hash, keys: set<Bytes>, n: Node, key: Bytes, level: nat)
    requires OnWay(h, keys, n, key, level)
    ensures var r := RemoveNode(h, keys, n, key, level); r.Some? ==> OnWay(h, keys, r.value, key, level)
    decreases n
  {
    if n.Branch? {
      ChildFacts(h, keys, n, key, level);
      var bit := BitIndex(h(key), level);
      var idx := Rank(n.bitmap, bit);
      var r := RemoveNode(h, keys, n, key, level);
      if HasBit(n.bitmap, bit) && r.Some? {
        var m, cs := r.value.bitmap, r.value.children;
        RemoveValid(h, keys, n.children[idx], key, level + 1);
        ClearBitCount(n.bitmap, bit);
        forall b: nat | b < BRANCHING && HasBit(m, b) && Rank(m, b) < |cs|
          ensures Valid(h, keys, cs[Rank(m, b)], Path(h, key, level) + [b])
        {
          ClearBit(n.bitmap, bit, b);
          RankBound(n.bitmap, b);
          if b != bit { RankMonotone(n.bitmap, if b < bit then b else bit, if b < bit then bit else b); }
        }
      }
    }
  }

  /** Reading after removing, for every key whose way leads through this subtrie. */
  lemma {:induction false} RemoveLookup(h: Hash, keys: set<Bytes>, n: Node, key: Bytes, level: nat, k: Bytes)
    requires OnWay(h, keys, n, key, level)
    requires Path(h, k, level) == Path(h, key, level)
    ensures var r := RemoveNode(h, keys, n, key, level);
            && (r.Some? ==> OnWay(h, keys, r.value, k, level))
            && LookupIn(h, keys, r, k, level) == if k == key then None else Lookup(h, keys, n, k, level)
    decreases n
  {
    RemoveValid(h, keys, n, key, level);
    hide Pow2, BitAnd, BitAndNot, CountOnes, HasBit, Rank, SparseIndex;
    if n.Branch? {
      var r := RemoveNode(h, keys, n, key, level);
      ChildFacts(h, keys, n, key, level);
      ChildFacts(h, keys, n, k, level);
      var bit, b := BitIndex(h(key), level), BitIndex(h(k), level);
      if HasBit(n.bitmap, bit) {
        if b == bit {
          RemoveLookup(h, keys, n.children[Rank(n.bitmap, bit)], key, level + 1, k);
          ClearBit(n.bitmap, bit, b);
          if r.Some? { ChildFacts(h, keys, r.value, k, level); }
        } else {
          RemoveLookupElsewhere(h, keys, n, key, level, k);
        }
      }
    }
  }

  /** The slots other than the one removed from keep their children. */
  lemma {:induction false} RemoveLookupElsewhere(h: Hash, keys: set<Bytes>, n: Node, key: Bytes, level: nat, k: Bytes)
    requires n.Branch? && OnWay(h, keys, n, key, level) && level <= LAST_LEVEL
    requires Path(h, k, level) == Path(h, key, level)
    requires BitIndex(h(k), level) != BitIndex(h(key), level) && HasBit(n.bitmap, BitIndex(h(key), level))
    requires var r := RemoveNode(h, keys, n, key, level); r.Some? ==> OnWay(h, keys, r.value, k, level)
    ensures LookupIn(h, keys, RemoveNode(h, keys, n, key, level), k, level) == Lookup(h, keys, n, k, level)
  {
    hide Pow2, BitAnd, BitAndNot, CountOnes, HasBit, Rank, SparseIndex;
    var r := RemoveNode(h, keys, n, key, level);
    ChildFacts(h, keys, n, key, level);
    ChildFacts(h, keys, n, k, level);
    var bit, b := BitIndex(h(key), level), BitIndex(h(k), level);
    ClearBit(n.bitmap, bit, b);
    RankMonotone(n.bitmap, if b < bit then b else bit, if b < bit then bit else b);
    if r.Some? { ChildFacts(h, keys, r.value, k, level); }
  }

  // ---------------------------------------------------------------- leaves

  type Entry = (Bytes, Bytes)

  /** The order in which `collect_leaves` visits the bindings of a subtrie. */
  function Leaves(n: Node): seq<Entry>
    decreases n, 0
  {
    match n
    case Leaf(_, key, value) => [(key, value)]
    case Branch(_, children) => LeavesFrom(children, 0)
  }

  function LeavesFrom(children: seq<Node>, i: nat): seq<Entry>
    requires i <= |children|
    decreases children, |children| - i
  {
    if i == |children| then [] else Leaves(children[i]) + LeavesFrom(children, i + 1)
  }

  ghost predicate DistinctKeys(es: seq<Entry>) {
    forall i, j | 0 <= i < j < |es| :: es[i].0 != es[j].0
  }

  lemma {:induction false} ChildLeafListed(children: seq<Node>, i: nat, j: nat, e: Entry)
    requires i <= j < |children| && e in Leaves(children[j])
    ensures e in LeavesFrom(children, i)
    decreases j - i
  {
    if i < j { ChildLeafListed(children, i + 1, j, e); }
  }

  lemma {:induction false} ListedLeafChild(children: seq<Node>, i: nat, e: Entry) returns (j: nat)
    requires i <= |children| && e in LeavesFrom(children, i)
    ensures i <= j < |children| && e in Leaves(children[j])
    decreases |children| - i
  {
    if e in Leaves(children[i]) { j := i; } else { j := ListedLeafChild(children, i + 1, e); }
  }

  /** The leaves of a subtrie carry its path, so keys on other ways are not among them. */
  lemma {:induction false} LeavesOnPath(h: Hash, keys: set<Bytes>, n: Node, path: seq<nat>, e: Entry)
    requires Valid(h, keys, n, path) && e in Leaves(n)
    ensures e.0 in keys && path <= Digits(h(e.0))
    decreases n
  {
    if n.Branch? {
      var j := ListedLeafChild(n.children, 0, e);
      WordSizes();
      var bit := SlotHasBit(n.bitmap, BRANCHING, j);
      LeavesOnPath(h, keys, n.children[j], path + [bit], e);
    }
  }

  /** A binding is among the leaves exactly when the descent finds it. */
  lemma {:induction false} LeavesAreLookups(h: Hash, keys: set<Bytes>, n: Node, level: nat, k: Bytes, v: Bytes)
    requires OnWay(h, keys, n, k, level)
    ensures (k, v) in Leaves(n) <==> Lookup(h, keys, n, k, level) == Some(v)
    decreases n
  {
    if n.Branch? {
      hide Pow2, BitAnd, CountOnes, HasBit, Rank, SparseIndex;
      ChildFacts(h, keys, n, k, level);
      var bit := BitIndex(h(k), level);
      if (k, v) in Leaves(n) {
        var j := ListedLeafChild(n.children, 0, (k, v));
        WordSizes();
        var b := SlotHasBit(n.bitmap, BRANCHING, j);
        LeavesOnPath(h, keys, n.children[j], Path(h, k, level) + [b], (k, v));
        assert Digits(h(k))[level] == b;
      }
      if HasBit(n.bitmap, bit) {
        var slot := Rank(n.bitmap, bit);
        LeavesAreLookups(h, keys, n.children[slot], level + 1, k, v);
        if (k, v) in Leaves(n.children[slot]) { ChildLeafListed(n.children, 0, slot, (k, v)); }
      }
    }
  }

  /** No key is listed twice. */
  lemma {:induction false} LeavesDistinct(h: Hash, keys: set<Bytes>, n: Node, path: seq<nat>)
    requires Valid(h, keys, n, path)
    ensures DistinctKeys(Leaves(n))
    decreases n, 1, 0
  {
    if n.Branch? { LeavesFromDistinct(h, keys, n, path, 0); }
  }

  lemma {:induction false} LeavesFromDistinct(h: Hash, keys: set<Bytes>, n: Node, path: seq<nat>, i: nat)
    requires n.Branch? && Valid(h, keys, n, path) && i <= |n.children|
    ensures DistinctKeys(LeavesFrom(n.children, i))
    decreases n, 0, |n.children| - i
  {
    if i < |n.children| {
      WordSizes();
      var bit := SlotHasBit(n.bitmap, BRANCHING, i);
      LeavesDistinct(h, keys, n.children[i], path + [bit]);
      LeavesFromDistinct(h, keys, n, path, i + 1);
      forall d, e | d in Leaves(n.children[i]) && e in LeavesFrom(n.children, i + 1) ensures d.0 != e.0 {
        var j := ListedLeafChild(n.children, i + 1, e);
        var b := SlotHasBit(n.bitmap, BRANCHING, j);
        LeavesOnPath(h, keys, n.children[i], path + [bit], d);
        LeavesOnPath(h, keys, n.children[j], path + [b], e);
        assert Digits(h(d.0))[|path|] == bit && Digits(h(e.0))[|path|] == b;
      }
    }
  }

  // ---------------------------------------------------------------- the trie as a finite map

  function Entries(t: Trie): seq<Entry> {
    if t.root.None? then [] else Leaves(t.root.value)
  }

  /** The finite map a list of bindings stands for. */
  ghost function MapOf(es: seq<Entry>): map<Bytes, Bytes> {
    if es == [] then map[] else MapOf(es[..|es| - 1])[es[|es| - 1].0 := es[|es| - 1].1]
  }

  ghost function Contents(t: Trie): map<Bytes, Bytes> {
    MapOf(Entries(t))
  }

  /** The invariant every trie built by the public operations satisfies. */
  ghost predicate WellFormed(h: Hash, keys: set<Bytes>, t: Trie) {
    && NoCollisions(h, keys)
    && (t.root.Some? ==> Valid(h, keys, t.root.value, []))
    && t.len == |Contents(t)|
  }

  lemma {:induction false} BoundKeyIsListed(es: seq<Entry>, k: Bytes)
    requires k in MapOf(es)
    ensures exists i :: 0 <= i < |es| && es[i].0 == k
  {
    var init, last := es[..|es| - 1], es[|es| - 1];
    if last.0 != k {
      BoundKeyIsListed(init, k);
      var i :| 0 <= i < |init| && init[i].0 == k;
      assert es[i].0 == k;
    }
  }

  lemma {:induction false} MapOfDistinct(es: seq<Entry>)
    requires DistinctKeys(es)
    ensures forall k, v :: (k, v) in es <==> k in MapOf(es) && MapOf(es)[k] == v
    ensures |MapOf(es)| == |es|
  {
    if es != [] {
      var init, last := es[..|es| - 1], es[|es| - 1];
      MapOfDistinct(init);
      assert es == init + [last];
      if last.0 in MapOf(init) {
        BoundKeyIsListed(init, last.0);
        assert false;
      }
      assert MapOf(es).Keys == MapOf(init).Keys + {last.0};
    }
  }

  /** Listing: each binding exactly once, and looking a key up in the map is what the descent does. */
  lemma ContentsAreLookups(h: Hash, keys: set<Bytes>, t: Trie, k: Bytes)
    requires NoCollisions(h, keys) && (t.root.Some? ==> Valid(h, keys, t.root.value, []))
    ensures DistinctKeys(Entries(t)) && |Contents(t)| == |Entries(t)|
    ensures forall v :: (k, v) in Entries(t) <==> k in Contents(t) && Contents(t)[k] == v
    ensures t.root.Some? ==> OnWay(h, keys, t.root.value, k, 0)
    ensures MapGet(Contents(t), k) == LookupIn(h, keys, t.root, k, 0)
    ensures Contents(t).Keys <= keys
  {
    assert Path(h, k, 0) == [];
    if t.root.Some? {
      LeavesDistinct(h, keys, t.root.value, []);
      forall v ensures (k, v) in Entries(t) <==> Lookup(h, keys, t.root.value, k, 0) == Some(v) {
        LeavesAreLookups(h, keys, t.root.value, 0, k, v);
      }
      MapOfDistinct(Entries(t));
      forall key | key in Contents(t) ensures key in keys {
        assert (key, Contents(t)[key]) in Entries(t);
        LeavesOnPath(h, keys, t.root.value, [], (key, Contents(t)[key]));
      }
      if k in Contents(t) { assert (k, Contents(t)[k]) in Entries(t); }
    }
  }

  function Empty(): Trie { Trie(None, 0) }

  /** The descent of `Hamt::get`, a loop over the current node. */
  method Get(h: Hash, ghost keys: set<Bytes>, t: Trie, key: Bytes) returns (r: Option<Bytes>)
    requires WellFormed(h, keys, t)
    ensures r == MapGet(Contents(t), key)
  {
    ContentsAreLookups(h, keys, t, key);
    if t.root.None? { return None; }
    var hash := h(key);
    var current, level := t.root.value, 0;
    while true
      invariant OnWay(h, keys, current, key, level)
      invariant Lookup(h, keys, current, key, level) == LookupIn(h, keys, t.root, key, 0)
      decreases current
    {
      match current
      case Leaf(_, k, value) =>
        if k == key { return Some(value); }
        return None;
      case Branch(bitmap, children) =>
        ChildFacts(h, keys, current, key, level);
        var bit := BitIndex(hash, level);
        if BitAnd(bitmap, Pow2(bit)) == 0 { return None; }
        current := children[SparseIndex(bitmap, bit)];
        level := level + 1;
    }
  }

  function Find(h: Hash, ghost keys: set<Bytes>, t: Trie, key: Bytes): (r: Option<Bytes>)
    requires WellFormed(h, keys, t)
    ensures r == MapGet(Contents(t), key)
  {
    ContentsAreLookups(h, keys, t, key);
    LookupIn(h, keys, t.root, key, 0)
  }

  /** `Hamt::put`: a new trie denoting the updated map; the old one is a value and cannot change. */
  function Put(h: Hash, ghost keys: set<Bytes>, t: Trie, key: Bytes, value: Bytes): (r: Trie)
    requires WellFormed(h, keys, t) && key in keys
    ensures WellFormed(h, keys, r)
    ensures Contents(r) == Contents(t)[key := value]
  {
    var existed := Find(h, keys, t, key).Some?;
    ContentsAreLookups(h, keys, t, key);
    var r := Trie(Some(InsertNode(h, keys, t.root, key, value, 0)), if existed then t.len else t.len + 1);
    PutContents(h, keys, t, key, value, r);
    r
  }

  lemma PutContents(h: Hash, keys: set<Bytes>, t: Trie, key: Bytes, value: Bytes, r: Trie)
    requires WellFormed(h, keys, t) && key in keys
    requires t.root.Some? ==> OnWay(h, keys, t.root.value, key, 0)
    requires r.root == Some(InsertNode(h, keys, t.root, key, value, 0))
    requires r.len == if key in Contents(t) then t.len else t.len + 1
    ensures WellFormed(h, keys, r) && Contents(r) == Contents(t)[key := value]
  {
    var m := Contents(t)[key := value];
    InsertValid(h, keys, t.root, key, value, 0);
    forall k ensures MapGet(Contents(r), k) == MapGet(m, k) {
      ContentsAreLookups(h, keys, t, k);
      ContentsAreLookups(h, keys, r, k);
      InsertLookup(h, keys, t.root, key, value, 0, k);
    }
    SameMap(Contents(r), m);
    assert m.Keys == Contents(t).Keys + {key};
  }

  lemma SameMap(a: map<Bytes, Bytes>, b: map<Bytes, Bytes>)
    requires forall k :: MapGet(a, k) == MapGet(b, k)
    ensures a == b
  {
    assert forall k :: k in a <==> k in b by {
      forall k ensures k in a <==> k in b { assert MapGet(a, k) == MapGet(b, k); }
    }
    forall k | k in a ensures a[k] == b[k] { assert MapGet(a, k) == MapGet(b, k); }
  }

  /** `Hamt::delete`: an absent key returns the trie itself. */
  function Delete(h: Hash, ghost keys: set<Bytes>, t: Trie, key: Bytes): (r: Trie)
    requires WellFormed(h, keys, t)
    ensures WellFormed(h, keys, r)
    ensures Contents(r) == Contents(t) - {key}
  {
    if Find(h, keys, t, key).None? then
      assert Contents(t) - {key} == Contents(t);
      t
    else
      ContentsAreLookups(h, keys, t, key);
      var r := Trie(RemoveNode(h, keys, t.root.value, key, 0), t.len - 1);
      DeleteContents(h, keys, t, key, r);
      r
  }

  lemma DeleteContents(h: Hash, keys: set<Bytes>, t: Trie, key: Bytes, r: Trie)
    requires WellFormed(h, keys, t) && key in Contents(t)
    requires t.root.Some? && OnWay(h, keys, t.root.value, key, 0)
    requires r.root == RemoveNode(h, keys, t.root.value, key, 0) && r.len == t.len - 1
    ensures WellFormed(h, keys, r) && Contents(r) == Contents(t) - {key}
  {
    var m := Contents(t) - {key};
    RemoveValid(h, keys, t.root.value, key, 0);
    forall k ensures MapGet(Contents(r), k) == MapGet(m, k) {
      ContentsAreLookups(h, keys, t, k);
      ContentsAreLookups(h, keys, r, k);
      RemoveLookup(h, keys, t.root.value, key, 0, k);
    }
    SameMap(Contents(r), m);
    assert m.Keys == Contents(t).Keys - {key};
  }
}
