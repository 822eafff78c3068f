/** The BM25 inverted index with lazy deletion: posting lists against the token counts of every slot ever filled, one
    live slot per stored key, and a search that finds each live document holding a query term exactly once. */
module Bm25 {
  import opened Common
  import opened Tokens

  type TermIds = map<Bytes, nat>

  /** (term id, frequency) pairs of one document. */
  type Frequencies = seq<(nat, nat)>

  /** (slot, frequency) pairs of one term. */
  type Postings = map<nat, seq<(nat, nat)>>

  // ---------------------------------------------------------------- counting one document

  ghost predicate IdsOk(ids: TermIds, pool: nat) {
    && (forall w | w in ids :: ids[w] < pool)
    && (forall v, w | v in ids && w in ids && ids[v] == ids[w] :: v == w)
  }

  function FrequencyOf(tf: Frequencies, tid: nat): nat {
    if tf == [] then 0 else if tf[0].0 == tid then tf[0].1 else FrequencyOf(tf[1..], tid)
  }

  ghost predicate DistinctIds(tf: Frequencies) {
    forall i, j | 0 <= i < j < |tf| :: tf[i].0 != tf[j].0
  }

  /** `tf` holds the multiplicity of every token, under the term's id. */
  ghost predicate Counts(tf: Frequencies, ids: TermIds, tokens: seq<Bytes>) {
    && DistinctIds(tf)
    && (forall w | w in tokens :: w in ids)
    && (forall w | w in ids :: FrequencyOf(tf, ids[w]) == multiset(tokens)[w])
    && (forall i | 0 <= i < |tf| :: tf[i].1 > 0 && tf[i].0 in ids.Values)
  }

  lemma {:induction false} FrequencyAt(tf: Frequencies, i: nat)
    requires DistinctIds(tf) && i < |tf|
    ensures FrequencyOf(tf, tf[i].0) == tf[i].1
  {
    if i > 0 { FrequencyAt(tf[1..], i - 1); }
  }

  lemma {:induction false} FrequencyAbsent(tf: Frequencies, tid: nat)
    requires forall i | 0 <= i < |tf| :: tf[i].0 != tid
    ensures FrequencyOf(tf, tid) == 0
  {
    if tf != [] { FrequencyAbsent(tf[1..], tid); }
  }

  lemma {:induction false} FrequencyAfterPush(tf: Frequencies, e: (nat, nat), tid: nat)
    requires forall i | 0 <= i < |tf| :: tf[i].0 != e.0
    ensures FrequencyOf(tf + [e], tid) == if tid == e.0 then e.1 else FrequencyOf(tf, tid)
  {
    if tf == [] {
      assert (tf + [e])[1..] == [];
    } else {
      assert (tf + [e])[1..] == tf[1..] + [e];
      FrequencyAfterPush(tf[1..], e, tid);
    }
  }

  lemma {:induction false} FrequencyAfterBump(tf: Frequencies, i: nat, tid: nat)
    requires DistinctIds(tf) && i < |tf|
    ensures FrequencyOf(tf[i := (tf[i].0, tf[i].1 + 1)], tid)
        == FrequencyOf(tf, tid) + (if tid == tf[i].0 then 1 else 0)
  {
    var b := tf[i := (tf[i].0, tf[i].1 + 1)];
    if i == 0 {
      assert b[1..] == tf[1..];
    } else {
      assert b[1..] == tf[1..][i - 1 := (tf[i].0, tf[i].1 + 1)];
      FrequencyAfterBump(tf[1..], i - 1, tid);
    }
  }

  /** The id of a term, assigned on first sight. */
  method Intern(ids: TermIds, pool: nat, term: Bytes) returns (ids2: TermIds, pool2: nat, tid: nat)
    requires IdsOk(ids, pool)
    ensures IdsOk(ids2, pool2) && term in ids2 && ids2[term] == tid
    ensures ids2 == if term in ids then ids else ids[term := pool]
    ensures term !in ids ==> tid == pool
  {
    if term in ids { return ids, pool, ids[term]; }
    return ids[term := pool], pool + 1, pool;
  }

  /** Extending the ids keeps the counts, a fresh id counting zero. */
  lemma CountsNewId(tf: Frequencies, ids: TermIds, pool: nat, tokens: seq<Bytes>, term: Bytes)
    requires Counts(tf, ids, tokens) && IdsOk(ids, pool) && term !in ids
    ensures Counts(tf, ids[term := pool], tokens)
  {
    var ids2 := ids[term := pool];
    forall i | 0 <= i < |tf| ensures tf[i].0 in ids2.Values && tf[i].0 != pool {
      var w :| w in ids && ids[w] == tf[i].0;
      assert w in ids2 && ids2[w] == ids[w];
    }
    FrequencyAbsent(tf, pool);
  }

  lemma CountsBump(tf: Frequencies, ids: TermIds, pool: nat, tokens: seq<Bytes>, term: Bytes, i: nat)
    requires Counts(tf, ids, tokens) && IdsOk(ids, pool) && term in ids && i < |tf| && tf[i].0 == ids[term]
    ensures Counts(tf[i := (tf[i].0, tf[i].1 + 1)], ids, tokens + [term])
  {
    var b := tf[i := (tf[i].0, tf[i].1 + 1)];
    forall w | w in ids ensures FrequencyOf(b, ids[w]) == multiset(tokens + [term])[w] {
      FrequencyAfterBump(tf, i, ids[w]);
    }
  }

  lemma CountsPush(tf: Frequencies, ids: TermIds, pool: nat, tokens: seq<Bytes>, term: Bytes)
    requires Counts(tf, ids, tokens) && IdsOk(ids, pool) && term in ids
    requires forall i | 0 <= i < |tf| :: tf[i].0 != ids[term]
    ensures Counts(tf + [(ids[term], 1)], ids, tokens + [term])
  {
    FrequencyAbsent(tf, ids[term]);
    forall w | w in ids ensures FrequencyOf(tf + [(ids[term], 1)], ids[w]) == multiset(tokens + [term])[w] {
      FrequencyAfterPush(tf, (ids[term], 1), ids[w]);
    }
  }

  /** `intern_and_count` */
  method InternAndCount(ids: TermIds, pool: nat, tf: Frequencies, term: Bytes, ghost tokens: seq<Bytes>)
      returns (ids2: TermIds, pool2: nat, tf2: Frequencies)
    requires IdsOk(ids, pool) && Counts(tf, ids, tokens)
    ensures IdsOk(ids2, pool2) && Counts(tf2, ids2, tokens + [term])
    ensures forall w | w in ids :: w in ids2 && ids2[w] == ids[w]
  {
    hide Counts, IdsOk;
    if term !in ids { CountsNewId(tf, ids, pool, tokens, term); }
    var tid;
    ids2, pool2, tid := Intern(ids, pool, term);
    for i := 0 to |tf|
      invariant forall j | 0 <= j < i :: tf[j].0 != tid
    {
      if tf[i].0 == tid {
        CountsBump(tf, ids2, pool2, tokens, term, i);
        return ids2, pool2, tf[i := (tf[i].0, tf[i].1 + 1)];
      }
    }
    CountsPush(tf, ids2, pool2, tokens, term);
    tf2 := tf + [(tid, 1)];
  }

  /** The tokenizing loop of `add_document_direct` on one text: it counts exactly the tokens `tokenize` would list. */
  method CountText(ids0: TermIds, pool0: nat, tf0: Frequencies, text: Bytes, ghost before: seq<Bytes>)
      returns (ids: TermIds, pool: nat, tf: Frequencies, n: nat)
    requires IdsOk(ids0, pool0) && Counts(tf0, ids0, before)
    ensures IdsOk(ids, pool) && Counts(tf, ids, before + TokensOf(text)) && n == |TokensOf(text)|
    ensures forall w | w in ids0 :: w in ids && ids[w] == ids0[w]
  {
    hide Counts, IdsOk;
    ids, pool, tf, n := ids0, pool0, tf0, 0;
    var buf: Bytes, inToken, i := [], false, 0;
    ghost var from, tokens := 0, [];
    assert before + [] == before;
    while i < |text|
      invariant i <= |text| && LoopState(text, from, i, buf, inToken)
      invariant tokens + TokensFrom(text, from, i) == TokensOf(text) && n == |tokens|
      invariant IdsOk(ids, pool) && Counts(tf, ids, before + tokens)
      invariant forall w | w in ids0 :: w in ids && ids[w] == ids0[w]
    {
      var b := text[i];
      if IsUpper(b) && inToken && i > 0 && IsLower(text[i - 1]) && buf != [] {
        n := n + 1;
        ids, pool, tf := InternAndCount(ids, pool, tf, buf, before + tokens);
        assert before + tokens + [buf] == before + (tokens + [buf]);
        tokens := tokens + [buf];
        from, buf := i, [];
      }
      if IsAlnum(b) {
        LowerSnoc(text, from, i);
        buf, inToken := buf + [Lower(b)], true;
      } else {
        if inToken && buf != [] {
          n := n + 1;
          ids, pool, tf := InternAndCount(ids, pool, tf, buf, before + tokens);
          assert before + tokens + [buf] == before + (tokens + [buf]);
          tokens := tokens + [buf];
        }
        inToken, buf, from := false, [], i + 1;
      }
      i := i + 1;
    }
    if buf != [] {
      n := n + 1;
      ids, pool, tf := InternAndCount(ids, pool, tf, buf, before + tokens);
      assert before + tokens + [buf] == before + (tokens + [buf]);
      tokens := tokens + [buf];
    }
    assert tokens == TokensOf(text);
  }

  // ---------------------------------------------------------------- posting lists

  /** The posting list a term should have, given the tokens of every slot. */
  ghost function Expected(slots: seq<seq<Bytes>>, w: Bytes): seq<(nat, nat)> {
    if slots == [] then []
    else
      var init, last := slots[..|slots| - 1], slots[|slots| - 1];
      Expected(init, w) + (if w in last then [(|slots| - 1, multiset(last)[w])] else [])
  }

  /** The list names exactly the slots that hold the term, with their counts. */
  lemma {:induction false} ExpectedSound(slots: seq<seq<Bytes>>, w: Bytes, i: nat)
    requires i < |Expected(slots, w)|
    ensures var e := Expected(slots, w)[i]; e.0 < |slots| && w in slots[e.0] && e.1 == multiset(slots[e.0])[w]
  {
    var init, last := slots[..|slots| - 1], slots[|slots| - 1];
    assert Expected(slots, w) == Expected(init, w) + (if w in last then [(|slots| - 1, multiset(last)[w])] else []);
    if i < |Expected(init, w)| {
      ExpectedSound(init, w, i);
      assert Expected(slots, w)[i] == Expected(init, w)[i];
    } else {
      assert Expected(slots, w)[i] == (|slots| - 1, multiset(last)[w]);
    }
  }

  lemma {:induction false} ExpectedComplete(slots: seq<seq<Bytes>>, w: Bytes, d: nat) returns (i: nat)
    requires d < |slots| && w in slots[d]
    ensures i < |Expected(slots, w)| && Expected(slots, w)[i].0 == d
  {
    var init := slots[..|slots| - 1];
    if d < |init| { i := ExpectedComplete(init, w, d); } else { i := |Expected(init, w)|; }
  }

  /** So a document frequency never exceeds the number of slots. */
  lemma {:induction false} ExpectedShort(slots: seq<seq<Bytes>>, w: Bytes)
    ensures |Expected(slots, w)| <= |slots|
  {
    if slots != [] { ExpectedShort(slots[..|slots| - 1], w); }
  }

  function ListOf(postings: Postings, tid: nat): seq<(nat, nat)> {
    if tid in postings then postings[tid] else []
  }

  ghost predicate PostingsOk(ids: TermIds, postings: Postings, df: map<nat, nat>, slots: seq<seq<Bytes>>) {
    && (forall w | w in ids :: ListOf(postings, ids[w]) == Expected(slots, w))
    && (forall w | w !in ids :: Expected(slots, w) == [])
    && DfMatches(postings, df)
  }

  /** One document's entry, if it holds the term. */
  function Entry(tf: Frequencies, tid: nat, doc: nat): seq<(nat, nat)> {
    if FrequencyOf(tf, tid) > 0 then [(doc, FrequencyOf(tf, tid))] else []
  }

  ghost predicate DfMatches(postings: Postings, df: map<nat, nat>) {
    df.Keys == postings.Keys && forall t | t in postings :: df[t] == |postings[t]|
  }

  lemma EntryStep(tf: Frequencies, i: nat, doc: nat, t: nat)
    requires DistinctIds(tf) && i < |tf| && tf[i].1 > 0
    ensures Entry(tf[..i + 1], t, doc) == if t == tf[i].0 then [(doc, tf[i].1)] else Entry(tf[..i], t, doc)
    ensures t == tf[i].0 ==> Entry(tf[..i], t, doc) == []
  {
    assert tf[..i + 1] == tf[..i] + [tf[i]];
    FrequencyAfterPush(tf[..i], tf[i], t);
    if t == tf[i].0 { FrequencyAbsent(tf[..i], t); }
  }

  /** The posting lists with the entries of one document added. */
  ghost predicate EntriesAdded(postings0: Postings, postings: Postings, tf: Frequencies, doc: nat) {
    && (forall t | t in postings :: t in postings0 || Entry(tf, t, doc) != [])
    && (forall t :: ListOf(postings, t) == ListOf(postings0, t) + Entry(tf, t, doc))
  }

  lemma DfAdded(postings: Postings, df: map<nat, nat>, tid: nat, e: (nat, nat))
    requires DfMatches(postings, df)
    ensures DfMatches(postings[tid := ListOf(postings, tid) + [e]], df[tid := (if tid in df then df[tid] else 0) + 1])
  {
  }

  lemma EntryAdded(postings0: Postings, postings: Postings, tf: Frequencies, i: nat, doc: nat)
    requires DistinctIds(tf) && i < |tf| && tf[i].1 > 0 && EntriesAdded(postings0, postings, tf[..i], doc)
    ensures EntriesAdded(postings0, postings[tf[i].0 := ListOf(postings, tf[i].0) + [(doc, tf[i].1)]], tf[..i + 1], doc)
  {
    hide Entry, FrequencyOf, DistinctIds;
    var next := postings[tf[i].0 := ListOf(postings, tf[i].0) + [(doc, tf[i].1)]];
    forall t
      ensures ListOf(next, t) == ListOf(postings0, t) + Entry(tf[..i + 1], t, doc)
      ensures t in next ==> t in postings0 || Entry(tf[..i + 1], t, doc) != []
    {
      EntryStep(tf, i, doc, t);
      var was := ListOf(postings0, t);
      assert ListOf(postings, t) == was + Entry(tf[..i], t, doc);
      if t == tf[i].0 { assert was + [] == was; }
    }
  }

  /** The update loop over one document's frequencies. */
  method AddPostings(postings0: Postings, df0: map<nat, nat>, tf: Frequencies, doc: nat)
      returns (postings: Postings, df: map<nat, nat>)
    requires DistinctIds(tf) && (forall i | 0 <= i < |tf| :: tf[i].1 > 0) && DfMatches(postings0, df0)
    ensures DfMatches(postings, df) && EntriesAdded(postings0, postings, tf, doc)
  {
    postings, df := postings0, df0;
    assert EntriesAdded(postings0, postings, tf[..0], doc);
    hide EntriesAdded, DfMatches, DistinctIds;
    for i := 0 to |tf|
      invariant DfMatches(postings, df) && EntriesAdded(postings0, postings, tf[..i], doc)
    {
      var (tid, freq) := tf[i];
      EntryAdded(postings0, postings, tf, i, doc);
      DfAdded(postings, df, tid, (doc, freq));
      df := df[tid := (if tid in df then df[tid] else 0) + 1];
      postings := postings[tid := ListOf(postings, tid) + [(doc, freq)]];
    }
    assert tf[..|tf|] == tf;
  }

  /** Posting lists exist only for interned terms. */
  ghost predicate PostingsKnown(ids: TermIds, postings: Postings) {
    forall t | t in postings :: t in ids.Values
  }

  lemma ExpectedAfterAdd(slots: seq<seq<Bytes>>, tokens: seq<Bytes>, w: Bytes)
    ensures Expected(slots + [tokens], w) == Expected(slots, w)
        + (if w in tokens then [(|slots|, multiset(tokens)[w])] else [])
  {
    assert (slots + [tokens])[..|slots|] == slots;
  }

  /** A term interned only now had no list. */
  lemma OldListOf(ids0: TermIds, ids: TermIds, pool: nat, postings0: Postings, df0: map<nat, nat>,
                  slots: seq<seq<Bytes>>, w: Bytes)
    requires PostingsOk(ids0, postings0, df0, slots) && PostingsKnown(ids0, postings0) && IdsOk(ids, pool)
    requires forall v | v in ids0 :: v in ids && ids[v] == ids0[v]
    requires w in ids
    ensures ListOf(postings0, ids[w]) == Expected(slots, w)
  {
    if w !in ids0 && ids[w] in postings0 { assert false; }
  }

  lemma PostingsAfterAdd(ids0: TermIds, ids: TermIds, postings0: Postings, postings: Postings, df0: map<nat, nat>,
                         df: map<nat, nat>, slots: seq<seq<Bytes>>, tf: Frequencies, tokens: seq<Bytes>, pool: nat)
    requires PostingsOk(ids0, postings0, df0, slots) && PostingsKnown(ids0, postings0)
    requires Counts(tf, ids, tokens) && IdsOk(ids, pool)
    requires forall w | w in ids0 :: w in ids && ids[w] == ids0[w]
    requires DfMatches(postings, df)
    requires forall t :: ListOf(postings, t) == ListOf(postings0, t) + Entry(tf, t, |slots|)
    ensures PostingsOk(ids, postings, df, slots + [tokens])
  {
    forall w
      ensures w in ids ==> ListOf(postings, ids[w]) == Expected(slots + [tokens], w)
      ensures w !in ids ==> Expected(slots + [tokens], w) == []
    {
      ExpectedAfterAdd(slots, tokens, w);
      if w in ids {
        OldListOf(ids0, ids, pool, postings0, df0, slots, w);
        assert FrequencyOf(tf, ids[w]) == multiset(tokens)[w];
      }
    }
  }

  lemma KnownAfterAdd(ids0: TermIds, ids: TermIds, postings0: Postings, postings: Postings, tf: Frequencies,
                      tokens: seq<Bytes>)
    requires PostingsKnown(ids0, postings0) && Counts(tf, ids, tokens)
    requires forall w | w in ids0 :: w in ids && ids[w] == ids0[w]
    requires forall t | t in postings :: t in postings0 || Entry(tf, t, 0) != []
    ensures PostingsKnown(ids, postings)
  {
    forall t | t in postings ensures t in ids.Values {
      if t in postings0 {
        var v :| v in ids0 && ids0[v] == t;
        assert v in ids && ids[v] == t;
      } else if forall i | 0 <= i < |tf| :: tf[i].0 != t {
        FrequencyAbsent(tf, t);
      }
    }
  }
}
