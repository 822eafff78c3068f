/** Page files on disk. The pages directory is a map from file name to contents; names are bytes, and a directory
    listing sorted by name is sorted bytewise. */
module PageStore {
  import opened Common
  import opened Lex
  import opened Pages
  import opened Compaction
  import opened PageCodec
  import opened Decimals

  type Directory = map<Bytes, Bytes>

  const LETTER_L: Byte := 108
  const UNDERSCORE: Byte := 95
  const DOT: Byte := 46
  const PAGE_EXT: Bytes := [117, 108, 112, 103]

  // ---------------------------------------------------------------- file names

  /** The first position of `c`, or the length. */
  function FindFirst(s: Bytes, c: Byte): (i: nat)
    ensures i <= |s| && c !in s[..i] && (i < |s| ==> s[i] == c)
  {
    if s == [] || s[0] == c then 0 else 1 + FindFirst(s[1..], c)
  }

  /** The last position of `c`, or the length. */
  function FindLast(s: Bytes, c: Byte): (i: nat)
    ensures i <= |s| && (i < |s| ==> s[i] == c && c !in s[i + 1..]) && (i == |s| ==> c !in s)
  {
    if s == [] then 0
    else if s[|s| - 1] == c then |s| - 1
    else
      var i := FindLast(s[..|s| - 1], c);
      if i < |s| - 1 then i else |s|
  }

  /** `Path::extension`: what follows the last dot, unless that dot starts the name. */
  function Extension(name: Bytes): Option<Bytes> {
    var i := FindLast(name, DOT);
    if 0 < i < |name| then Some(name[i + 1..]) else None
  }

  /** `Path::file_stem` */
  function Stem(name: Bytes): Bytes {
    var i := FindLast(name, DOT);
    if 0 < i < |name| then name[..i] else name
  }

  function ParsePageFilename(stem: Bytes): Option<(nat, nat)> {
    if stem == [] || stem[0] != LETTER_L then None
    else
      var rest := stem[1..];
      var u := FindFirst(rest, UNDERSCORE);
      if u == |rest| then None
      else
        var level, index := ParseUsize(rest[..u]), ParseUsize(rest[u + 1..]);
        if level.None? || index.None? then None else Some((level.value, index.value))
  }

  function FileName(level: nat, index: nat): Bytes {
    [LETTER_L] + Decimal(level) + [UNDERSCORE] + Padded(index) + [DOT] + PAGE_EXT
  }

  predicate IsPageFile(name: Bytes) { Extension(name) == Some(PAGE_EXT) }

  lemma FirstAfter(a: Bytes, c: Byte, b: Bytes)
    requires c !in a
    ensures FindFirst(a + [c] + b, c) == |a|
  {
    var s := a + [c] + b;
    var i := FindFirst(s, c);
    assert s[|a|] == c;
  }

  lemma LastBefore(a: Bytes, c: Byte, b: Bytes)
    requires c !in b
    ensures FindLast(a + [c] + b, c) == |a|
  {
    var s := a + [c] + b;
    var i := FindLast(s, c);
    assert s[|a|] == c;
  }

  /** A name written for a level and an index is a page file and gives both back, whatever the number of digits. */
  lemma FileNameParses(level: nat, index: nat)
    requires level < U64_LIMIT && index < U64_LIMIT
    ensures IsPageFile(FileName(level, index))
    ensures ParsePageFilename(Stem(FileName(level, index))) == Some((level, index))
  {
    var l, n := Decimal(level), Padded(index);
    var stem := [LETTER_L] + l + [UNDERSCORE] + n;
    assert FileName(level, index) == stem + [DOT] + PAGE_EXT;
    LastBefore(stem, DOT, PAGE_EXT);
    assert (stem + [DOT] + PAGE_EXT)[|stem| + 1..] == PAGE_EXT;
    assert (stem + [DOT] + PAGE_EXT)[..|stem|] == stem;
    assert stem[1..] == l + [UNDERSCORE] + n;
    assert UNDERSCORE !in l;
    FirstAfter(l, UNDERSCORE, n);
    assert stem[1..][..|l|] == l && stem[1..][|l| + 1..] == n;
    ParsePadded(level);
    ParsePadded(index);
  }

  /** Past index 9999 the order of the names is no longer the order of the pages. */
  lemma NameOrderIsNotIndexOrder(level: nat)
    ensures Less(FileName(level, 10000), FileName(level, 9999))
  {
    var head := [LETTER_L] + Decimal(level) + [UNDERSCORE];
    assert Decimal(9999) == [57, 57, 57, 57];
    assert Decimal(10000) == [49, 48, 48, 48, 48];
    var a, b := [49, 48, 48, 48, 48] + [DOT] + PAGE_EXT, [57, 57, 57, 57] + [DOT] + PAGE_EXT;
    assert FileName(level, 10000) == head + a && FileName(level, 9999) == head + b;
    assert Less(a, b);
    LessUnderPrefix(head, a, b);
  }

  lemma {:induction false} LessUnderPrefix(p: Bytes, a: Bytes, b: Bytes)
    requires Less(a, b)
    ensures Less(p + a, p + b)
  {
    if p == [] {
      assert p + a == a && p + b == b;
    } else {
      assert (p + a)[1..] == p[1..] + a && (p + b)[1..] == p[1..] + b;
      LessUnderPrefix(p[1..], a, b);
    }
  }

  // ---------------------------------------------------------------- saving

  function PagesAt(lv: Levels, level: nat): seq<Page>
    requires level < 3
  {
    if level == 0 then lv.l0 else if level == 1 then lv.l1 else lv.l2
  }

  /** Vector lengths are 64-bit. */
  ghost predicate Countable(lv: Levels) { forall l: nat | l < 3 :: |PagesAt(lv, l)| <= U64_LIMIT }

  /** The file a name stands for among the pages of one level. */
  ghost predicate Names(name: Bytes, level: nat, count: nat) {
    exists i: nat :: i < count && name == FileName(level, i)
  }

  /** A directory that holds exactly the files of the first `upto` levels, next to the other files of `before`. */
  ghost predicate Written(deflate: Deflate, before: Directory, lv: Levels, upto: nat, dir: Directory)
    requires upto <= 3
  {
    && (forall name | !IsPageFile(name) :: MapGet(dir, name) == MapGet(before, name))
    && (forall name | name in dir && IsPageFile(name) :: exists l: nat :: l < upto && Names(name, l, |PagesAt(lv, l)|))
    && (forall l: nat | l < upto :: LevelWritten(deflate, l, PagesAt(lv, l), dir))
  }

  ghost predicate LevelWritten(deflate: Deflate, level: nat, pages: seq<Page>, dir: Directory) {
    forall i: nat | i < |pages| :: FileName(level, i) in dir && dir[FileName(level, i)] == FileOf(deflate, pages[i])
  }

  ghost predicate Saved(deflate: Deflate, before: Directory, lv: Levels, dir: Directory) {
    Written(deflate, before, lv, 3, dir)
  }

  /** Distinct pages get distinct names. */
  lemma NamesDiffer(l: nat, i: nat, m: nat, j: nat)
    requires l < 3 && m < 3 && i < U64_LIMIT && j < U64_LIMIT && (l != m || i != j)
    ensures FileName(l, i) != FileName(m, j)
  {
    FileNameParses(l, i);
    FileNameParses(m, j);
  }

  method SaveLevel(deflate: Deflate, before: Directory, level: nat, pages: seq<Page>) returns (dir: Directory)
    requires level < 3 && |pages| <= U64_LIMIT
    ensures forall name | !Names(name, level, |pages|) :: MapGet(dir, name) == MapGet(before, name)
    ensures LevelWritten(deflate, level, pages, dir)
  {
    hide FileName, FileOf;
    dir := before;
    for index := 0 to |pages|
      invariant forall name | !Names(name, level, index) :: MapGet(dir, name) == MapGet(before, name)
      invariant forall i: nat | i < index ::
        FileName(level, i) in dir && dir[FileName(level, i)] == FileOf(deflate, pages[i])
    {
      var name := FileName(level, index);
      var data := Serialize(deflate, pages[index]);
      forall i: nat | i < index ensures FileName(level, i) != name { NamesDiffer(level, i, level, index); }
      dir := dir[name := data];
    }
  }

  // ---------------------------------------------------------------- loading

  /** A page that was read: its index, the file it came from and its records. */
  datatype Entry = Entry(index: nat, name: Bytes, page: Page)

  /** The level and index of a page file that is not skipped for its name. */
  function Place(name: Bytes): Option<(nat, nat)> {
    if !IsPageFile(name) then None
    else
      var place := ParsePageFilename(Stem(name));
      if place.Some? && place.value.0 > 2 then None else place
  }

  ghost predicate Readable(inflate: Inflate, dir: Directory, level: nat, e: Entry) {
    e.name in dir && Place(e.name) == Some((level, e.index)) && Load(inflate, dir[e.name]) == Loaded(e.page)
  }

  ghost predicate Panics(inflate: Inflate, dir: Directory, name: Bytes) {
    name in dir && Place(name).Some? && Load(inflate, dir[name]).Aborted?
  }

  /** By index, files with the same index by name. */
  predicate Before(a: Entry, b: Entry) { a.index < b.index || (a.index == b.index && Less(a.name, b.name)) }

  ghost predicate InOrder(es: seq<Entry>) { forall i, j | 0 <= i < j < |es| :: Before(es[i], es[j]) }

  function PagesOf(es: seq<Entry>): seq<Page> { seq(|es|, i requires 0 <= i < |es| => es[i].page) }

  ghost predicate EntriesOf(inflate: Inflate, dir: Directory, level: nat, es: seq<Entry>) {
    InOrder(es) && forall e :: e in es <==> Readable(inflate, dir, level, e)
  }

  /** The pages of a level are those of all its readable files, in order. */
  ghost predicate LevelLoaded(inflate: Inflate, dir: Directory, level: nat, pages: seq<Page>) {
    exists es :: EntriesOf(inflate, dir, level, es) && pages == PagesOf(es)
  }

  ghost predicate IsLoad(inflate: Inflate, dir: Directory, lv: Levels) {
    forall level: nat | level < 3 :: LevelLoaded(inflate, dir, level, PagesAt(lv, level))
  }

  lemma {:induction false} OrderIsUnique(a: seq<Entry>, b: seq<Entry>)
    requires InOrder(a) && InOrder(b) && forall e :: e in a <==> e in b
    ensures a == b
  {
    assert b != [] ==> b[0] in a;
    if a != [] {
      assert a[0] in b;
      var i :| 0 <= i < |a| && a[i] == b[0];
      var j :| 0 <= j < |b| && b[j] == a[0];
      Trichotomy(a[0].name, b[0].name);
      assert i == 0;
      TailElements(a);
      TailElements(b);
      OrderIsUnique(a[1..], b[1..]);
      assert a == [a[0]] + a[1..] && b == [b[0]] + b[1..];
    }
  }

  lemma TailElements(a: seq<Entry>)
    requires InOrder(a) && a != []
    ensures InOrder(a[1..]) && forall e :: e in a[1..] <==> e in a && e != a[0]
  {
    Irreflexive(a[0].name);
    forall e | e in a && e != a[0] ensures e in a[1..] {
      var i :| 0 <= i < |a| && a[i] == e;
      assert a[1..][i - 1] == e;
    }
  }

  /** A directory has one load, whatever order its listing came in. */
  lemma LoadIsDeterministic(inflate: Inflate, dir: Directory, lv: Levels, lv2: Levels)
    requires IsLoad(inflate, dir, lv) && IsLoad(inflate, dir, lv2)
    ensures lv == lv2
  {
    forall level: nat | level < 3 ensures PagesAt(lv, level) == PagesAt(lv2, level) {
      assert LevelLoaded(inflate, dir, level, PagesAt(lv, level))
          && LevelLoaded(inflate, dir, level, PagesAt(lv2, level));
      var es :| EntriesOf(inflate, dir, level, es) && PagesAt(lv, level) == PagesOf(es);
      var es2 :| EntriesOf(inflate, dir, level, es2) && PagesAt(lv2, level) == PagesOf(es2);
      OrderIsUnique(es, es2);
    }
    assert PagesAt(lv, 0) == PagesAt(lv2, 0) && PagesAt(lv, 1) == PagesAt(lv2, 1) && PagesAt(lv, 2) == PagesAt(lv2, 2);
  }

  ghost predicate NamesAscend(es: seq<Entry>) { forall i, j | 0 <= i < j < |es| :: Less(es[i].name, es[j].name) }

  /** A stable sort by index of entries that come in name order. */
  method SortByIndex(es: seq<Entry>) returns (r: seq<Entry>)
    requires NamesAscend(es)
    ensures InOrder(r) && forall e :: e in r <==> e in es
  {
    r := [];
    for i := 0 to |es|
      invariant InOrder(r) && forall e :: e in r <==> e in es[..i]
    {
      var x := es[i];
      forall e | e in r ensures Less(e.name, x.name) { }
      var k: nat := |r|;
      while k > 0 && r[k - 1].index > x.index
        invariant k <= |r| && forall j | k <= j < |r| :: r[j].index > x.index
      {
        k := k - 1;
      }
      forall j | 0 <= j < k ensures Before(r[j], x) { assert r[j] in r && (j == k - 1 || Before(r[j], r[k - 1])); }
      InsertKeepsOrder(r, x, k);
      r := r[..k] + [x] + r[k..];
    }
    assert es[..|es|] == es;
  }

  lemma InsertKeepsOrder(r: seq<Entry>, x: Entry, k: nat)
    requires InOrder(r) && k <= |r|
    requires (forall j | 0 <= j < k :: Before(r[j], x)) && forall j | k <= j < |r| :: Before(x, r[j])
    ensures InOrder(r[..k] + [x] + r[k..]) && forall e :: e in r[..k] + [x] + r[k..] <==> e in r || e == x
  {
    assert r == r[..k] + r[k..];
  }

  /** What a level holds after the files `names` were visited. */
  ghost predicate Gathered(inflate: Inflate, dir: Directory, names: seq<Bytes>, level: nat, es: seq<Entry>) {
    NamesAscend(es) && forall e :: e in es <==> e.name in names && Readable(inflate, dir, level, e)
  }

  lemma GatherSkip(inflate: Inflate, dir: Directory, names: seq<Bytes>, name: Bytes, level: nat, es: seq<Entry>)
    requires Gathered(inflate, dir, names, level, es)
    requires forall e: Entry | e.name == name :: !Readable(inflate, dir, level, e)
    ensures Gathered(inflate, dir, names + [name], level, es)
  {
  }

  lemma GatherPush(inflate: Inflate, dir: Directory, names: seq<Bytes>, level: nat, es: seq<Entry>, x: Entry)
    requires Gathered(inflate, dir, names, level, es) && Readable(inflate, dir, level, x)
    requires forall n | n in names :: Less(n, x.name)
    ensures Gathered(inflate, dir, names + [x.name], level, es + [x])
  {
    hide Load, Place, Less;
    forall i | 0 <= i < |es| ensures Less(es[i].name, x.name) { assert es[i] in es; }
    forall e ensures e in es + [x] <==> e.name in names + [x.name] && Readable(inflate, dir, level, e) {
      if Readable(inflate, dir, level, e) && e.name == x.name { assert e == x; }
    }
  }

  /** The loop over the sorted page files. */
  method Gather(inflate: Inflate, dir: Directory, names: seq<Bytes>) returns (ok: bool, levels: seq<seq<Entry>>)
    requires Ascending(names) && forall n | n in names :: n in dir
    ensures ok <==> forall n | n in names :: !Panics(inflate, dir, n)
    ensures ok ==> |levels| == 3 && forall l: nat | l < 3 :: Gathered(inflate, dir, names, l, levels[l])
  {
    hide Load, Place, Less;
    levels := [[], [], []];
    for i := 0 to |names|
      invariant |levels| == 3 && forall l: nat | l < 3 :: Gathered(inflate, dir, names[..i], l, levels[l])
      invariant forall n | n in names[..i] :: !Panics(inflate, dir, n)
    {
      var name := names[i];
      assert name in names && names[..i + 1] == names[..i] + [name];
      var place, loading := Place(name), Load(inflate, dir[name]);
      if place.Some? && loading.Aborted? { assert Panics(inflate, dir, name); return false, levels; }
      ghost var was := levels;
      if place.Some? && loading.Loaded? {
        PlaceInRange(name);
        var level, x := place.value.0, Entry(place.value.1, name, loading.page);
        GatherPush(inflate, dir, names[..i], level, levels[level], x);
        levels := levels[level := levels[level] + [x]];
      }
      forall l: nat | l < 3 && levels[l] == was[l] && !(place.Some? && loading.Loaded? && place.value.0 == l)
        ensures Gathered(inflate, dir, names[..i + 1], l, levels[l])
      {
        GatherSkip(inflate, dir, names[..i], name, l, was[l]);
      }
    }
    assert names[..|names|] == names;
    ok := true;
  }

  lemma PlaceInRange(name: Bytes)
    ensures Place(name).Some? ==> Place(name).value.0 < 3
  {
  }

  lemma SortedIsLoaded(inflate: Inflate, dir: Directory, names: seq<Bytes>, level: nat, es: seq<Entry>, r: seq<Entry>)
    requires Gathered(inflate, dir, names, level, es) && (forall n :: n in names <==> n in dir && IsPageFile(n))
    requires InOrder(r) && forall e :: e in r <==> e in es
    ensures LevelLoaded(inflate, dir, level, PagesOf(r))
  {
    hide Load, IsPageFile, ParsePageFilename;
    assert EntriesOf(inflate, dir, level, r);
  }

  // ---------------------------------------------------------------- save, then load

  function Entries(level: nat, pages: seq<Page>): seq<Entry> {
    seq(|pages|, i requires 0 <= i < |pages| => Entry(i, FileName(level, i), pages[i]))
  }

  /** The entries of a saved level are exactly its readable files. */
  lemma SavedLevel(deflate: Deflate, inflate: Inflate, before: Directory, lv: Levels, dir: Directory, level: nat)
    requires Saved(deflate, before, lv, dir) && Countable(lv) && Lossless(deflate, inflate) && level < 3
    requires forall p | p in PagesAt(lv, level) :: Storable(deflate, p)
    ensures EntriesOf(inflate, dir, level, Entries(level, PagesAt(lv, level)))
  {
    hide Load, FileOf, FileName, Storable, Lossless, Place;
    var pages := PagesAt(lv, level);
    var es := Entries(level, pages);
    forall i: nat | i < |pages| ensures Readable(inflate, dir, level, es[i]) {
      PlaceOfName(level, i);
      assert pages[i] in pages;
      RoundTrip(deflate, inflate, pages[i]);
    }
    forall e | Readable(inflate, dir, level, e) ensures e in es {
      PageFilePlaced(e.name);
      var l: nat :| l < 3 && Names(e.name, l, |PagesAt(lv, l)|);
      var i: nat :| i < |PagesAt(lv, l)| && e.name == FileName(l, i);
      PlaceOfName(l, i);
      assert es[i] == e;
    }
  }

  lemma PlaceOfName(level: nat, index: nat)
    requires level < 3 && index < U64_LIMIT
    ensures Place(FileName(level, index)) == Some((level, index))
  {
    FileNameParses(level, index);
  }

  lemma PageFilePlaced(name: Bytes)
    ensures Place(name).Some? ==> IsPageFile(name)
  {
  }

  /** Loading a saved directory gives back the same pages in the same levels and order, for any number of pages, and
      does not panic; nothing left from an earlier save comes back. */
  lemma SaveThenLoad(deflate: Deflate, inflate: Inflate, before: Directory, lv: Levels, dir: Directory)
    requires Saved(deflate, before, lv, dir) && Countable(lv) && Lossless(deflate, inflate)
    requires forall l: nat, p | l < 3 && p in PagesAt(lv, l) :: Storable(deflate, p)
    ensures IsLoad(inflate, dir, lv) && (forall lv2 :: IsLoad(inflate, dir, lv2) ==> lv2 == lv)
    ensures forall name :: !Panics(inflate, dir, name)
  {
    hide Load, FileOf, FileName, Storable, Lossless, Place;
    forall l: nat | l < 3 ensures LevelLoaded(inflate, dir, l, PagesAt(lv, l)) {
      SavedLevel(deflate, inflate, before, lv, dir, l);
      assert PagesOf(Entries(l, PagesAt(lv, l))) == PagesAt(lv, l);
    }
    forall lv2 | IsLoad(inflate, dir, lv2) ensures lv2 == lv { LoadIsDeterministic(inflate, dir, lv, lv2); }
    forall name ensures !Panics(inflate, dir, name) {
      if Panics(inflate, dir, name) {
        PageFilePlaced(name);
        var l: nat :| l < 3 && Names(name, l, |PagesAt(lv, l)|);
        var i: nat :| i < |PagesAt(lv, l)| && name == FileName(l, i);
        RoundTrip(deflate, inflate, PagesAt(lv, l)[i]);
      }
    }
  }

  /** A page file cut short by a crash is skipped and every other file is read as before. */
  lemma TornFileIsSkipped(deflate: Deflate, inflate: Inflate, dir: Directory, name: Bytes, p: Page, cut: nat,
                          level: nat, e: Entry)
    requires |Stored(deflate, BodyOf(p))| < U32_LIMIT && cut < |FileOf(deflate, p)|
    ensures var torn := dir[name := FileOf(deflate, p)[..cut]];
            && (Readable(inflate, torn, level, e) <==> e.name != name && Readable(inflate, dir, level, e))
            && !Panics(inflate, torn, name)
  {
    TornFileRefused(deflate, inflate, p, cut);
  }

  class PageDirectory {
    var dir: Directory
    const deflate: Deflate
    const inflate: Inflate

    constructor (deflate: Deflate, inflate: Inflate)
      ensures dir == map[] && this.deflate == deflate && this.inflate == inflate
    {
      dir := map[];
      this.deflate, this.inflate := deflate, inflate;
    }

    /** `clear`, the first step of a save. */
    method Clear()
      modifies this
      ensures dir == map name | name in old(dir) && !IsPageFile(name) :: old(dir)[name]
    {
      var d := dir;
      dir := map name | name in d && !IsPageFile(name) :: d[name];
    }

    /** `save_all` */
    method SaveAll(lv: Levels)
      requires Countable(lv)
      modifies this
      ensures Saved(deflate, old(dir), lv, dir)
    {
      ghost var before := dir;
      Clear();
      hide IsPageFile, FileName, FileOf;
      var d := dir;
      for level := 0 to 3
        invariant Written(deflate, before, lv, level, d)
      {
        var pages := if level == 0 then lv.l0 else if level == 1 then lv.l1 else lv.l2;
        assert pages == PagesAt(lv, level);
        var next := SaveLevel(deflate, d, level, pages);
        WriteLevel(deflate, before, lv, level, d, next);
        d := next;
      }
      dir := d;
    }

    /** `load_all`; None is the panic of a page whose record count does not match. */
    method LoadAll() returns (r: Option<Levels>)
      ensures r.None? <==> exists name :: Panics(inflate, dir, name)
      ensures r.Some? ==> IsLoad(inflate, dir, r.value)
    {
      hide Load, Place, IsPageFile, Less, Gathered, InOrder, LevelLoaded, PagesOf;
      var d := dir;
      var names := SortKeys(set n | n in d && IsPageFile(n));
      forall n ensures Panics(inflate, d, n) ==> n in names { PageFilePlaced(n); }
      var ok, levels := Gather(inflate, d, names);
      if !ok { return None; }
      var l0 := SortGathered(inflate, d, names, 0, levels[0]);
      var l1 := SortGathered(inflate, d, names, 1, levels[1]);
      var l2 := SortGathered(inflate, d, names, 2, levels[2]);
      return Some(Levels(l0, l1, l2));
    }
  }

  method SortGathered(inflate: Inflate, dir: Directory, names: seq<Bytes>, level: nat, es: seq<Entry>)
      returns (pages: seq<Page>)
    requires Gathered(inflate, dir, names, level, es) && forall n :: n in names <==> n in dir && IsPageFile(n)
    ensures LevelLoaded(inflate, dir, level, pages)
  {
    var r := SortByIndex(es);
    SortedIsLoaded(inflate, dir, names, level, es, r);
    pages := PagesOf(r);
  }

  lemma WriteLevel(deflate: Deflate, before: Directory, lv: Levels, level: nat, d: Directory, next: Directory)
    requires Countable(lv) && level < 3 && Written(deflate, before, lv, level, d)
    requires forall name | !Names(name, level, |PagesAt(lv, level)|) :: MapGet(next, name) == MapGet(d, name)
    requires LevelWritten(deflate, level, PagesAt(lv, level), next)
    ensures Written(deflate, before, lv, level + 1, next)
  {
    hide FileName, FileOf, IsPageFile, Countable;
    var count := |PagesAt(lv, level)|;
    assert count <= U64_LIMIT by { CountableAt(lv, level); }
    forall name | !IsPageFile(name) ensures MapGet(next, name) == MapGet(before, name)
    {
      PageNamesOnly(name, level, count);
    }
    forall name | name in next && IsPageFile(name)
      ensures exists l: nat :: l < level + 1 && Names(name, l, |PagesAt(lv, l)|)
    {
      if !Names(name, level, count) { assert MapGet(next, name) == MapGet(d, name); }
    }
    forall l: nat | l < level ensures LevelWritten(deflate, l, PagesAt(lv, l), next) {
      CountableAt(lv, l);
      assert LevelWritten(deflate, l, PagesAt(lv, l), d);
      forall i: nat | i < |PagesAt(lv, l)| ensures MapGet(next, FileName(l, i)) == MapGet(d, FileName(l, i)) {
        NamedElsewhere(l, i, level, count);
      }
    }
  }

  lemma CountableAt(lv: Levels, level: nat)
    requires Countable(lv) && level < 3
    ensures |PagesAt(lv, level)| <= U64_LIMIT
  {
  }

  lemma NamedElsewhere(l: nat, i: nat, m: nat, count: nat)
    requires l < 3 && m < 3 && l != m && i < U64_LIMIT && count <= U64_LIMIT
    ensures !Names(FileName(l, i), m, count)
  {
    hide FileName;
    if Names(FileName(l, i), m, count) {
      var j: nat :| j < count && FileName(l, i) == FileName(m, j);
      NamesDiffer(l, i, m, j);
    }
  }

  lemma PageNamesOnly(name: Bytes, level: nat, count: nat)
    requires level < 3 && count <= U64_LIMIT && !IsPageFile(name)
    ensures !Names(name, level, count)
  {
    hide FileName, IsPageFile;
    if Names(name, level, count) {
      var i: nat :| i < count && name == FileName(level, i);
      FileNameParses(level, i);
    }
  }
}
