/** The BM25 index object, driven by writes and deletes, and its search. */
module KeywordIndex {
  import opened Common
  import opened Tokens
  import opened Bm25
  import opened Relevance

  // ---------------------------------------------------------------- accumulating scores

  /** A slot is touched exactly when its score is positive, and then it is live; no slot is listed twice. */
  ghost predicate ScoresOk(docs: seq<Bytes>, scores: seq<real>, touched: seq<nat>) {
    && |scores| == |docs| && NoRepeats(touched)
    && (forall d | 0 <= d < |docs| :: scores[d] >= 0.0 && (d in touched <==> scores[d] > 0.0))
    && (forall d: nat | d in touched :: d < |docs| && docs[d] != [])
  }

  ghost predicate Lists(list: seq<(nat, nat)>, d: nat, upTo: nat)
    requires upTo <= |list|
  {
    exists i :: 0 <= i < upTo && list[i].0 == d
  }

  lemma AddScore(docs: seq<Bytes>, scores: seq<real>, touched: seq<nat>, d: nat, s: real)
    requires ScoresOk(docs, scores, touched) && d < |docs| && docs[d] != [] && s > 0.0
    ensures ScoresOk(docs, scores[d := scores[d] + s], if scores[d] == 0.0 then touched + [d] else touched)
    ensures forall e :: e in (if scores[d] == 0.0 then touched + [d] else touched) <==> e in touched || e == d
  {
  }

  /** The frequency the first `n` postings give for a slot. */
  function TfIn(list: seq<(nat, nat)>, n: nat, d: nat): nat
    requires n <= |list|
  {
    if n == 0 then 0 else if list[n - 1].0 == d then list[n - 1].1 else TfIn(list, n - 1, d)
  }

  ghost predicate OnePerSlot(list: seq<(nat, nat)>) { forall i, j | 0 <= i < j < |list| :: list[i].0 != list[j].0 }

  lemma {:induction false} NoTfYet(list: seq<(nat, nat)>, n: nat, d: nat)
    requires n <= |list| && forall i | 0 <= i < n :: list[i].0 != d
    ensures TfIn(list, n, d) == 0
  {
    if n > 0 { NoTfYet(list, n - 1, d); }
  }

  /** The posting list of a term gives every slot its number of occurrences. */
  lemma {:induction false} TfOfExpected(slots: seq<seq<Bytes>>, w: Bytes, n: nat, d: nat)
    requires n <= |Expected(slots, w)| && d < |slots|
    requires forall i | n <= i < |Expected(slots, w)| :: Expected(slots, w)[i].0 != d
    ensures TfIn(Expected(slots, w), n, d) == multiset(slots[d])[w]
  {
    var list := Expected(slots, w);
    if n == 0 {
      if w in slots[d] { var i := ExpectedComplete(slots, w, d); }
    } else {
      ExpectedSound(slots, w, n - 1);
      if list[n - 1].0 != d { TfOfExpected(slots, w, n - 1, d); }
    }
  }

  lemma {:induction false} ExpectedOnePerSlot(slots: seq<seq<Bytes>>, w: Bytes)
    ensures OnePerSlot(Expected(slots, w))
  {
    if slots != [] {
      var init := slots[..|slots| - 1];
      ExpectedOnePerSlot(init, w);
      forall i | 0 <= i < |Expected(init, w)| ensures Expected(init, w)[i].0 < |slots| - 1
      {
        ExpectedSound(init, w, i);
      }
    }
  }

  /** The scores after the first `n` postings of a list: live slots gain what the list gives them. */
  ghost predicate Gained(sc: Scoring, docs: seq<Bytes>, docLen: seq<nat>, list: seq<(nat, nat)>, n: nat,
                         scores0: seq<real>, scores: seq<real>)
    requires |docLen| == |docs| && n <= |list|
  {
    && |scores0| == |scores| == |docs|
    && forall d: nat | d < |docs| && docs[d] != [] ::
         scores[d] == scores0[d] + Contribution(sc, |docs|, |list|, TfIn(list, n, d), docLen[d])
  }

  lemma GainStep(sc: Scoring, docs: seq<Bytes>, docLen: seq<nat>, list: seq<(nat, nat)>, n: nat,
                 scores0: seq<real>, scores: seq<real>, next: seq<real>)
    requires |docLen| == |docs| && n < |list| && OnePerSlot(list) && Gained(sc, docs, docLen, list, n, scores0, scores)
    requires var (d, tf) := list[n];
             d < |docs| && next == if docs[d] == [] then scores
                                   else scores[d := scores[d] + Contribution(sc, |docs|, |list|, tf, docLen[d])]
    ensures Gained(sc, docs, docLen, list, n + 1, scores0, next)
  {
    hide Score, Idf;
    NoTfYet(list, n, list[n].0);
  }

  /** The loop over one term's postings. Deleted slots are skipped. */
  method AddTerm(docs: seq<Bytes>, docLen: seq<nat>, list: seq<(nat, nat)>, df: nat, sc: Scoring,
                 scores0: seq<real>, touched0: seq<nat>) returns (scores: seq<real>, touched: seq<nat>)
    requires ScoresOk(docs, scores0, touched0) && |docLen| == |docs| && df == |list| <= |docs| && ScoringOk(sc)
    requires OnePerSlot(list) && forall i | 0 <= i < |list| :: list[i].0 < |docs| && list[i].1 > 0
    ensures ScoresOk(docs, scores, touched) && Gained(sc, docs, docLen, list, |list|, scores0, scores)
    ensures forall d: nat :: d in touched <==> d in touched0 || (d < |docs| && docs[d] != [] && Lists(list, d, |list|))
  {
    ScoresShape(docs, scores0, touched0);
    hide Score, Idf;
    assert Gained(sc, docs, docLen, list, 0, scores0, scores0);
    hide ScoresOk, ScoringOk, Gained, Contribution, OnePerSlot;
    scores, touched := scores0, touched0;
    for i := 0 to |list|
      invariant ScoresOk(docs, scores, touched) && |scores| == |docs|
      invariant Gained(sc, docs, docLen, list, i, scores0, scores)
      invariant forall d: nat :: d in touched <==> d in touched0 || (d < |docs| && docs[d] != [] && Lists(list, d, i))
    {
      var (doc, tf) := list[i];
      ghost var was := scores;
      if docs[doc] != [] {
        ContributionPositive(sc, |docs|, df, tf, docLen[doc]);
        var s := Contribution(sc, |docs|, df, tf, docLen[doc]);
        AddScore(docs, scores, touched, doc, s);
        if scores[doc] == 0.0 { touched := touched + [doc]; }
        scores := scores[doc := scores[doc] + s];
      }
      GainStep(sc, docs, docLen, list, i, scores0, was, scores);
      forall d: nat ensures Lists(list, d, i + 1) <==> Lists(list, d, i) || d == doc { ListsStep(list, d, i); }
    }
  }

  lemma ListsStep(list: seq<(nat, nat)>, d: nat, i: nat)
    requires i < |list|
    ensures Lists(list, d, i + 1) <==> Lists(list, d, i) || d == list[i].0
  {
  }

  lemma ScoresShape(docs: seq<Bytes>, scores: seq<real>, touched: seq<nat>)
    requires ScoresOk(docs, scores, touched)
    ensures |scores| == |docs| && NoRepeats(touched) && forall d: nat | d in touched :: d < |docs| && docs[d] != []
  {
  }

  // ---------------------------------------------------------------- ranking

  ghost predicate Ranked(scores: seq<real>, s: seq<nat>) {
    && (forall i | 0 <= i < |s| :: s[i] < |scores|)
    && (forall i, j | 0 <= i < j < |s| :: s[i] != s[j] && scores[s[i]] >= scores[s[j]])
  }

  lemma {:induction false} BestExists(scores: seq<real>, s: set<nat>) returns (best: nat)
    requires s != {} && forall d | d in s :: d < |scores|
    ensures best in s && forall d | d in s :: scores[d] <= scores[best]
    decreases |s|
  {
    var d :| d in s;
    if s == {d} {
      best := d;
    } else {
      var rest := BestExists(scores, s - {d});
      best := if scores[rest] >= scores[d] then rest else d;
      forall e | e in s ensures scores[e] <= scores[best] { assert e == d || e in s - {d}; }
    }
  }

  /** Selection and sort of the best `k` touched slots: none left out scores higher than one returned. */
  method TopK(scores: seq<real>, touched: set<nat>, k: nat) returns (ranked: seq<nat>)
    requires forall d | d in touched :: d < |scores|
    ensures Ranked(scores, ranked) && (forall d | d in ranked :: d in touched)
    ensures |ranked| == if |touched| <= k then |touched| else k
    ensures forall d, r | d in touched && d !in ranked && r in ranked :: scores[d] <= scores[r]
    ensures |touched| <= k ==> forall d | d in touched :: d in ranked
  {
    ranked := [];
    var rest := touched;
    while rest != {} && |ranked| < k
      invariant rest <= touched && Ranked(scores, ranked) && |ranked| + |rest| == |touched| && |ranked| <= k
      invariant forall d :: d in ranked <==> d in touched && d !in rest
      invariant forall d, r | d in rest && r in ranked :: scores[d] <= scores[r]
      decreases |rest|
    {
      ghost var best := BestExists(scores, rest);
      var d :| d in rest && forall e | e in rest :: scores[e] <= scores[d];
      ranked := ranked + [d];
      rest := rest - {d};
    }
  }

  // ---------------------------------------------------------------- slots

  ghost function Sum(lens: seq<nat>): nat {
    if lens == [] then 0 else Sum(lens[..|lens| - 1]) + lens[|lens| - 1]
  }

  lemma {:induction false} SumUpdate(lens: seq<nat>, i: nat, n: nat)
    requires i < |lens|
    ensures Sum(lens[i := n]) == Sum(lens) - lens[i] + n && Sum(lens) >= lens[i]
  {
    var init := lens[..|lens| - 1];
    if i == |lens| - 1 {
      assert lens[i := n][..i] == init;
    } else {
      SumUpdate(init, i, n);
      assert lens[i := n][..|lens| - 1] == init[i := n];
    }
  }

  /** A stored key maps to a slot that holds it and is in use. */
  ghost predicate SlotsOk(docs: seq<Bytes>, keyToDoc: map<Bytes, nat>, used: set<nat>) {
    && (forall k | k in keyToDoc :: keyToDoc[k] < |docs| && docs[keyToDoc[k]] == k && keyToDoc[k] in used)
    && (forall j, k | j in keyToDoc && k in keyToDoc && j != k :: keyToDoc[j] != keyToDoc[k])
    && (forall d | d in used :: d < |docs|)
  }

  /** A slot whose key was not blanked is the one its key maps to: one live slot per stored key. */
  ghost predicate OneEach(docs: seq<Bytes>, keyToDoc: map<Bytes, nat>) {
    forall d | 0 <= d < |docs| && docs[d] != [] :: docs[d] in keyToDoc && keyToDoc[docs[d]] == d
  }

  /** A new slot keeps one live slot per key exactly when the key had none, or can have none because it is empty. */
  lemma SlotAdded(docs: seq<Bytes>, keyToDoc: map<Bytes, nat>, used: set<nat>, key: Bytes)
    requires SlotsOk(docs, keyToDoc, used)
    ensures SlotsOk(docs + [key], keyToDoc[key := |docs|], used + {|docs|}) && |used + {|docs|}| == |used| + 1
    ensures OneEach(docs, keyToDoc) ==>
              (OneEach(docs + [key], keyToDoc[key := |docs|]) <==> key == [] || key !in keyToDoc)
  {
    var docs2, map2 := docs + [key], keyToDoc[key := |docs|];
    assert |docs| !in used;
    if key != [] && key in keyToDoc { assert docs2[keyToDoc[key]] == key && map2[key] != keyToDoc[key]; }
  }

  lemma SlotBlanked(docs: seq<Bytes>, keyToDoc: map<Bytes, nat>, used: set<nat>, key: Bytes)
    requires SlotsOk(docs, keyToDoc, used) && key in keyToDoc
    ensures keyToDoc[key] < |docs| && |used - {keyToDoc[key]}| == |used| - 1
    ensures SlotsOk(docs[keyToDoc[key] := []], keyToDoc - {key}, used - {keyToDoc[key]})
    ensures OneEach(docs, keyToDoc) ==> OneEach(docs[keyToDoc[key] := []], keyToDoc - {key})
  {
  }

  /** The lengths of slots in use count their tokens, and live slots are in use. */
  ghost predicate LengthsOk(docs: seq<Bytes>, used: set<nat>, docLen: seq<nat>, slots: seq<seq<Bytes>>) {
    && |docs| == |docLen| == |slots|
    && (forall d | 0 <= d < |docs| && docs[d] != [] :: d in used)
    && (forall d | d in used && d < |docs| :: docLen[d] == |slots[d]|)
  }

  ghost function TotalTokens(m: map<Bytes, seq<Bytes>>): nat
    decreases |m|
  {
    if m == map[] then 0
    else
      var k :| k in m;
      |m[k]| + TotalTokens(m - {k})
  }

  lemma {:induction false} TotalTokensSplit(m: map<Bytes, seq<Bytes>>, k: Bytes)
    requires k in m
    ensures TotalTokens(m) == |m[k]| + TotalTokens(m - {k})
    decreases |m|
  {
    var j :| j in m && TotalTokens(m) == |m[j]| + TotalTokens(m - {j});
    if j != k {
      TotalTokensSplit(m - {j}, k);
      TotalTokensSplit(m - {k}, j);
      assert m - {j} - {k} == m - {k} - {j};
    }
  }

  ghost function Live(keyToDoc: map<Bytes, nat>, slots: seq<seq<Bytes>>): map<Bytes, seq<Bytes>> {
    map k | k in keyToDoc && keyToDoc[k] < |slots| :: slots[keyToDoc[k]]
  }

  /** Whether a document holds one of the query's terms. */
  ghost predicate Matches(tokens: seq<Bytes>, query: seq<Bytes>) {
    exists i :: 0 <= i < |query| && query[i] in tokens
  }

  lemma ContentsAdded(keyToDoc: map<Bytes, nat>, used: set<nat>, docs: seq<Bytes>, slots: seq<seq<Bytes>>, key: Bytes,
                      tokens: seq<Bytes>)
    requires |docs| == |slots| && SlotsOk(docs, keyToDoc, used)
    ensures Live(keyToDoc[key := |docs|], slots + [tokens]) == Live(keyToDoc, slots)[key := tokens]
  {
  }

  /** Both texts of a document, counted together. */
  method CountBoth(ids0: TermIds, pool0: nat, keyText: Bytes, valueText: Bytes)
      returns (ids: TermIds, pool: nat, tf: Frequencies, n: nat)
    requires IdsOk(ids0, pool0)
    ensures IdsOk(ids, pool) && Counts(tf, ids, TokensOf(keyText) + TokensOf(valueText))
    ensures n == |TokensOf(keyText)| + |TokensOf(valueText)|
    ensures forall w | w in ids0 :: w in ids && ids[w] == ids0[w]
  {
    var n2;
    ids, pool, tf, n := CountText(ids0, pool0, [], keyText, []);
    assert [] + TokensOf(keyText) == TokensOf(keyText);
    ids, pool, tf, n2 := CountText(ids, pool, tf, valueText, TokensOf(keyText));
    n := n + n2;
  }

  lemma ListFacts(ids: TermIds, postings: Postings, df: map<nat, nat>, slots: seq<seq<Bytes>>, w: Bytes)
    requires PostingsOk(ids, postings, df, slots) && w in ids
    ensures var list := ListOf(postings, ids[w]);
            && |list| <= |slots| && (forall i | 0 <= i < |list| :: list[i].0 < |slots| && list[i].1 > 0)
            && (forall d: nat | d < |slots| :: Lists(list, d, |list|) <==> w in slots[d])
            && OnePerSlot(list)
  {
    ExpectedOnePerSlot(slots, w);
    var list := Expected(slots, w);
    ExpectedShort(slots, w);
    forall i | 0 <= i < |list| ensures list[i].0 < |slots| && list[i].1 > 0 && w in slots[list[i].0]
    {
      ExpectedSound(slots, w, i);
    }
    forall d: nat | d < |slots| && w in slots[d] ensures Lists(list, d, |list|)
    {
      var i := ExpectedComplete(slots, w, d);
    }
  }

  lemma UnknownTerm(slots: seq<seq<Bytes>>, w: Bytes, d: nat)
    requires Expected(slots, w) == [] && d < |slots|
    ensures w !in slots[d]
  {
    if w in slots[d] {
      var i := ExpectedComplete(slots, w, d);
      assert false;
    }
  }

  lemma MatchesMore(tokens: seq<Bytes>, terms: seq<Bytes>, i: nat)
    requires i < |terms|
    ensures Matches(tokens, terms[..i + 1]) <==> Matches(tokens, terms[..i]) || terms[i] in tokens
  {
    assert terms[..i + 1] == terms[..i] + [terms[i]];
    if Matches(tokens, terms[..i]) {
      var j :| 0 <= j < i && terms[..i][j] in tokens;
      assert terms[..i + 1][j] in tokens;
    }
    if terms[i] in tokens { assert terms[..i + 1][i] in tokens; }
  }

  /** Every live slot has the score of the terms so far. */
  ghost predicate Scored(sc: Scoring, docs: seq<Bytes>, docLen: seq<nat>, slots: seq<seq<Bytes>>, terms: seq<Bytes>,
                         scores: seq<real>) {
    && |docs| == |docLen| == |slots| == |scores|
    && forall d: nat | d < |docs| && docs[d] != [] :: scores[d] == QueryScore(sc, slots, d, docLen[d], terms)
  }

  /** One more term, whose posting list is the expected one. */
  lemma ScoredMore(sc: Scoring, docs: seq<Bytes>, docLen: seq<nat>, slots: seq<seq<Bytes>>, terms: seq<Bytes>, i: nat,
                   scores: seq<real>, next: seq<real>)
    requires i < |terms| && Scored(sc, docs, docLen, slots, terms[..i], scores)
    requires var list := Expected(slots, terms[i]); Gained(sc, docs, docLen, list, |list|, scores, next)
    ensures Scored(sc, docs, docLen, slots, terms[..i + 1], next)
  {
    hide Contribution;
    var w, list := terms[i], Expected(slots, terms[i]);
    assert terms[..i + 1][..i] == terms[..i] && terms[..i + 1][i] == w;
    forall d: nat | d < |docs| && docs[d] != [] ensures next[d] == QueryScore(sc, slots, d, docLen[d], terms[..i + 1]) {
      TfOfExpected(slots, w, |list|, d);
    }
  }

  lemma NothingGained(sc: Scoring, docs: seq<Bytes>, docLen: seq<nat>, scores: seq<real>)
    requires |docLen| == |docs| == |scores|
    ensures Gained(sc, docs, docLen, [], 0, scores, scores)
  {
  }

  /** The loop over query terms: in the end exactly the live slots that hold one of them are touched, each with its
      score. */
  method Accumulate(docs: seq<Bytes>, docLen: seq<nat>, ids: TermIds, postings: Postings, df: map<nat, nat>,
                    ghost slots: seq<seq<Bytes>>, sc: Scoring, terms: seq<Bytes>)
      returns (scores: seq<real>, touched: seq<nat>)
    requires |docs| == |docLen| == |slots| && PostingsOk(ids, postings, df, slots) && ScoringOk(sc)
    ensures ScoresOk(docs, scores, touched) && Scored(sc, docs, docLen, slots, terms, scores)
    ensures forall d: nat :: d in touched <==> d < |docs| && docs[d] != [] && Matches(slots[d], terms)
  {
    scores, touched := seq(|docs|, _ => 0.0), [];
    assert ScoresOk(docs, scores, touched);
    assert terms[..0] == [];
    assert Scored(sc, docs, docLen, slots, terms[..0], scores);
    hide ScoresOk, ScoringOk, PostingsOk, Lists, Matches, Scored, Gained, OnePerSlot, QueryScore, Contribution;
    forall d: nat | d < |docs| ensures !Matches(slots[d], terms[..0]) { NothingMatches(slots[d]); }
    for i := 0 to |terms|
      invariant ScoresOk(docs, scores, touched) && Scored(sc, docs, docLen, slots, terms[..i], scores)
      invariant forall d: nat :: d in touched <==> d < |docs| && docs[d] != [] && Matches(slots[d], terms[..i])
    {
      forall d: nat | d < |docs|
        ensures Matches(slots[d], terms[..i + 1]) <==> Matches(slots[d], terms[..i]) || terms[i] in slots[d]
      {
        MatchesMore(slots[d], terms, i);
      }
      ghost var was := scores;
      ScoresShape(docs, scores, touched);
      TermList(ids, postings, df, slots, terms[i]);
      if terms[i] in ids && ids[terms[i]] in df {
        var tid := ids[terms[i]];
        ListFacts(ids, postings, df, slots, terms[i]);
        scores, touched := AddTerm(docs, docLen, ListOf(postings, tid), df[tid], sc, scores, touched);
      } else {
        forall d: nat | d < |docs| ensures terms[i] !in slots[d] { UnknownTerm(slots, terms[i], d); }
        NothingGained(sc, docs, docLen, scores);
      }
      ScoredMore(sc, docs, docLen, slots, terms, i, was, scores);
    }
    assert terms[..|terms|] == terms;
  }

  lemma TermList(ids: TermIds, postings: Postings, df: map<nat, nat>, slots: seq<seq<Bytes>>, w: Bytes)
    requires PostingsOk(ids, postings, df, slots)
    ensures Expected(slots, w) == if w in ids && ids[w] in df then ListOf(postings, ids[w]) else []
    ensures w in ids && ids[w] in df ==> df[ids[w]] == |Expected(slots, w)|
  {
  }

  lemma NothingMatches(tokens: seq<Bytes>)
    ensures !Matches(tokens, [])
  {
  }

  lemma ContentsRemoved(keyToDoc: map<Bytes, nat>, slots: seq<seq<Bytes>>, key: Bytes)
    ensures Live(keyToDoc - {key}, slots) == Live(keyToDoc, slots) - {key}
  {
  }

  lemma LengthsAdded(docs: seq<Bytes>, used: set<nat>, docLen: seq<nat>, slots: seq<seq<Bytes>>, key: Bytes,
                     tokens: seq<Bytes>)
    requires LengthsOk(docs, used, docLen, slots)
    ensures |docs| == |slots|
    ensures LengthsOk(docs + [key], used + {|docs|}, docLen + [|tokens|], slots + [tokens])
        && Sum(docLen + [|tokens|]) == Sum(docLen) + |tokens|
  {
    assert (docLen + [|tokens|])[..|docLen|] == docLen;
  }

  lemma LengthsBlanked(docs: seq<Bytes>, used: set<nat>, docLen: seq<nat>, slots: seq<seq<Bytes>>, d: nat)
    requires LengthsOk(docs, used, docLen, slots) && d < |docs|
    ensures |docLen| == |docs| && LengthsOk(docs[d := []], used - {d}, docLen[d := 0], slots)
  {
  }

  /** The document tables agree with one another. */
  ghost predicate TablesOk(docs: seq<Bytes>, keyToDoc: map<Bytes, nat>, used: set<nat>, docLen: seq<nat>,
                           slots: seq<seq<Bytes>>, totalLen: nat, active: nat) {
    SlotsOk(docs, keyToDoc, used) && LengthsOk(docs, used, docLen, slots) && totalLen == Sum(docLen) && active == |used|
  }

  /** The running totals are those of the stored documents. */
  ghost predicate Counted(keyToDoc: map<Bytes, nat>, slots: seq<seq<Bytes>>, totalLen: nat, active: nat) {
    totalLen == TotalTokens(Live(keyToDoc, slots)) && active == |Live(keyToDoc, slots)|
  }

  lemma CountedMore(m: map<Bytes, seq<Bytes>>, key: Bytes, tokens: seq<Bytes>)
    requires key !in m
    ensures TotalTokens(m[key := tokens]) == TotalTokens(m) + |tokens| && |m[key := tokens]| == |m| + 1
  {
    TotalTokensSplit(m[key := tokens], key);
    assert m[key := tokens] - {key} == m;
    assert m[key := tokens].Keys == m.Keys + {key};
  }

  lemma CountedLess(m: map<Bytes, seq<Bytes>>, key: Bytes)
    requires key in m
    ensures TotalTokens(m - {key}) == TotalTokens(m) - |m[key]| && |m - {key}| == |m| - 1
  {
    TotalTokensSplit(m, key);
    assert (m - {key}).Keys == m.Keys - {key};
  }

  /** The mean length of the stored documents. */
  ghost function MeanLength(m: map<Bytes, seq<Bytes>>): real {
    if m == map[] then 0.0 else TotalTokens(m) as real / |m| as real
  }

  lemma DocumentAdded(docs: seq<Bytes>, keyToDoc: map<Bytes, nat>, used: set<nat>, docLen: seq<nat>,
                      slots: seq<seq<Bytes>>, totalLen: nat, active: nat, key: Bytes, tokens: seq<Bytes>)
    requires TablesOk(docs, keyToDoc, used, docLen, slots, totalLen, active)
    ensures |docs| == |slots|
    ensures TablesOk(docs + [key], keyToDoc[key := |docs|], used + {|docs|}, docLen + [|tokens|], slots + [tokens],
                     totalLen + |tokens|, active + 1)
    ensures Live(keyToDoc[key := |docs|], slots + [tokens]) == Live(keyToDoc, slots)[key := tokens]
    ensures OneEach(docs, keyToDoc) ==>
              (OneEach(docs + [key], keyToDoc[key := |docs|]) <==> key == [] || key !in keyToDoc)
    ensures Counted(keyToDoc, slots, totalLen, active) && key !in keyToDoc ==>
              Counted(keyToDoc[key := |docs|], slots + [tokens], totalLen + |tokens|, active + 1)
  {
    if key !in keyToDoc {
      assert key !in Live(keyToDoc, slots);
      CountedMore(Live(keyToDoc, slots), key, tokens);
    }
    hide SlotsOk, LengthsOk, Sum, Live, OneEach, TotalTokens;
    LengthsAdded(docs, used, docLen, slots, key, tokens);
    ContentsAdded(keyToDoc, used, docs, slots, key, tokens);
    SlotAdded(docs, keyToDoc, used, key);
  }

  lemma DocumentRemoved(docs: seq<Bytes>, keyToDoc: map<Bytes, nat>, used: set<nat>, docLen: seq<nat>,
                        slots: seq<seq<Bytes>>, totalLen: nat, active: nat, key: Bytes)
    requires TablesOk(docs, keyToDoc, used, docLen, slots, totalLen, active) && key in keyToDoc
    ensures var d := keyToDoc[key];
            && d < |docs| == |docLen|
            && TablesOk(docs[d := []], keyToDoc - {key}, used - {d}, docLen[d := 0], slots,
                        SaturatingSub(totalLen, docLen[d]), SaturatingSub(active, 1))
            && (OneEach(docs, keyToDoc) ==> OneEach(docs[d := []], keyToDoc - {key}))
            && (Counted(keyToDoc, slots, totalLen, active) ==>
                  Counted(keyToDoc - {key}, slots, SaturatingSub(totalLen, docLen[d]), SaturatingSub(active, 1)))
  {
    var live := Live(keyToDoc, slots);
    assert key in live && |live[key]| == docLen[keyToDoc[key]];
    ContentsRemoved(keyToDoc, slots, key);
    CountedLess(live, key);
    hide SlotsOk, LengthsOk, Sum, OneEach, Live, TotalTokens;
    SlotBlanked(docs, keyToDoc, used, key);
    LengthsBlanked(docs, used, docLen, slots, keyToDoc[key]);
    SumUpdate(docLen, keyToDoc[key], 0);
  }

  /** The whole of indexing one document, on the index tables. */
  method IndexText(ids0: TermIds, pool0: nat, postings0: Postings, df0: map<nat, nat>, ghost slots: seq<seq<Bytes>>,
                   keyText: Bytes, valueText: Bytes, doc: nat)
      returns (ids: TermIds, pool: nat, postings: Postings, df: map<nat, nat>, n: nat)
    requires IdsOk(ids0, pool0) && PostingsOk(ids0, postings0, df0, slots) && PostingsKnown(ids0, postings0)
        && doc == |slots|
    ensures IdsOk(ids, pool) && PostingsKnown(ids, postings)
    ensures PostingsOk(ids, postings, df, slots + [TokensOf(keyText) + TokensOf(valueText)])
    ensures n == |TokensOf(keyText) + TokensOf(valueText)|
  {
    ghost var tokens := TokensOf(keyText) + TokensOf(valueText);
    var tf;
    ids, pool, tf, n := CountBoth(ids0, pool0, keyText, valueText);
    postings, df := AddPostings(postings0, df0, tf, doc);
    hide PostingsOk, IdsOk, TokensOf;
    PostingsAfterAdd(ids0, ids, postings0, postings, df0, df, slots, tf, tokens, pool);
    KnownAfterAdd(ids0, ids, postings0, postings, tf, tokens);
  }

  datatype Hit = Hit(key: Bytes, score: real, rank: nat)

  method MakeHits(docs: seq<Bytes>, scores: seq<real>, ranked: seq<nat>) returns (hits: seq<Hit>)
    requires |docs| == |scores| && forall i | 0 <= i < |ranked| :: ranked[i] < |docs|
    ensures |hits| == |ranked| && forall i | 0 <= i < |hits| :: hits[i] == Hit(docs[ranked[i]], scores[ranked[i]], i)
  {
    hits := [];
    for i := 0 to |ranked|
      invariant |hits| == i && forall j | 0 <= j < i :: hits[j] == Hit(docs[ranked[j]], scores[ranked[j]], j)
    {
      hits := hits + [Hit(docs[ranked[i]], scores[ranked[i]], i)];
    }
  }

  // ---------------------------------------------------------------- what a search returns

  ghost predicate LiveMatch(docs: seq<Bytes>, slots: seq<seq<Bytes>>, terms: seq<Bytes>, d: nat) {
    d < |docs| && d < |slots| && docs[d] != [] && Matches(slots[d], terms)
  }

  ghost function SlotScore(sc: Scoring, slots: seq<seq<Bytes>>, terms: seq<Bytes>, d: nat): real {
    if d < |slots| then QueryScore(sc, slots, d, |slots[d]|, terms) else 0.0
  }

  /** The hits are those of the slots `ranked`: distinct live slots that match, best first, each with its score and
      rank; none that matches and is left out scores higher, and none is left out while there is room. */
  ghost predicate RankedHits(sc: Scoring, docs: seq<Bytes>, slots: seq<seq<Bytes>>, terms: seq<Bytes>, topK: nat,
                             hits: seq<Hit>, ranked: seq<nat>) {
    && |hits| == |ranked| <= topK
    && (forall i | 0 <= i < |hits| ::
          && LiveMatch(docs, slots, terms, ranked[i])
          && hits[i] == Hit(docs[ranked[i]], SlotScore(sc, slots, terms, ranked[i]), i))
    && (forall i, j | 0 <= i < j < |hits| :: ranked[i] != ranked[j] && hits[i].score >= hits[j].score)
    && (forall d: nat | LiveMatch(docs, slots, terms, d) && d !in ranked ::
          |hits| == topK && forall i | 0 <= i < |hits| :: SlotScore(sc, slots, terms, d) <= hits[i].score)
  }

  ghost predicate SlotHits(sc: Scoring, docs: seq<Bytes>, slots: seq<seq<Bytes>>, terms: seq<Bytes>, topK: nat,
                           hits: seq<Hit>) {
    exists ranked :: RankedHits(sc, docs, slots, terms, topK, hits, ranked)
  }

  /** The score a stored key has for a query. */
  ghost function KeyScore(sc: Scoring, keyToDoc: map<Bytes, nat>, slots: seq<seq<Bytes>>, key: Bytes,
                          terms: seq<Bytes>): real {
    if key in keyToDoc then SlotScore(sc, slots, terms, keyToDoc[key]) else 0.0
  }

  /** Distinct stored keys that match, best first, each with its score and rank; no non-empty key that matches and is
      left out scores higher, and none is left out while there is room. */
  ghost predicate RightHits(sc: Scoring, keyToDoc: map<Bytes, nat>, slots: seq<seq<Bytes>>, terms: seq<Bytes>,
                            topK: nat, hits: seq<Hit>) {
    var live := Live(keyToDoc, slots);
    && (forall i, j | 0 <= i < j < |hits| :: hits[i].key != hits[j].key && hits[i].score >= hits[j].score)
    && |hits| <= topK
    && (forall i | 0 <= i < |hits| ::
          && hits[i].rank == i && hits[i].key != [] && hits[i].key in live && Matches(live[hits[i].key], terms)
          && hits[i].score == KeyScore(sc, keyToDoc, slots, hits[i].key, terms))
    && (forall k | k in live && k != [] && Matches(live[k], terms) && !HasHit(hits, k) ::
          |hits| == topK && forall i | 0 <= i < |hits| :: KeyScore(sc, keyToDoc, slots, k, terms) <= hits[i].score)
  }

  ghost predicate HasHit(hits: seq<Hit>, key: Bytes) { exists i :: 0 <= i < |hits| && hits[i].key == key }

  /** With one live slot per key the hits are right by key. */
  lemma HitsAreRight(sc: Scoring, docs: seq<Bytes>, keyToDoc: map<Bytes, nat>, used: set<nat>, slots: seq<seq<Bytes>>,
                     terms: seq<Bytes>, topK: nat, hits: seq<Hit>, ranked: seq<nat>)
    requires SlotsOk(docs, keyToDoc, used) && OneEach(docs, keyToDoc) && |docs| == |slots|
    requires RankedHits(sc, docs, slots, terms, topK, hits, ranked)
    ensures RightHits(sc, keyToDoc, slots, terms, topK, hits)
  {
    hide Matches, SlotScore;
    var live := Live(keyToDoc, slots);
    forall k | k in live && k != [] && Matches(live[k], terms) && !HasHit(hits, k)
      ensures |hits| == topK && forall i | 0 <= i < |hits| :: KeyScore(sc, keyToDoc, slots, k, terms) <= hits[i].score
    {
      var d := keyToDoc[k];
      assert LiveMatch(docs, slots, terms, d);
      assert forall i | 0 <= i < |hits| :: hits[i].key == docs[ranked[i]];
      assert d !in ranked;
    }
  }

  lemma HitOfSlot(sc: Scoring, docs: seq<Bytes>, slots: seq<seq<Bytes>>, terms: seq<Bytes>, topK: nat, hits: seq<Hit>,
                  ranked: seq<nat>, d: nat) returns (i: nat)
    requires RankedHits(sc, docs, slots, terms, topK, hits, ranked) && |hits| < topK && LiveMatch(docs, slots, terms, d)
    ensures i < |hits| == |ranked| && ranked[i] == d && d < |docs| && hits[i].key == docs[d]
  {
    hide Matches, SlotScore;
    assert d in ranked;
    i :| 0 <= i < |ranked| && ranked[i] == d;
  }

  /** Of two stored documents of one length, each holding one query term once, the one with the rarer term is first. */
  lemma RarerTermFirst(sc: Scoring, keyToDoc: map<Bytes, nat>, slots: seq<seq<Bytes>>, terms: seq<Bytes>, topK: nat,
                       hits: seq<Hit>, j: Bytes, k: Bytes, v: Bytes, w: Bytes)
    requires RightHits(sc, keyToDoc, slots, terms, topK, hits) && ScoringOk(sc) && Increasing(sc.ln) && NoRepeats(terms)
    requires var live := Live(keyToDoc, slots);
             && j in live && k in live && j != [] && |live[j]| == |live[k]|
             && HoldsOnly(live[j], terms, v) && HoldsOnly(live[k], terms, w)
    requires |Holders(slots, v)| < |Holders(slots, w)|
    ensures HasHit(hits, k) ==> HasHit(hits, j)
    ensures forall a, b | 0 <= a < |hits| && 0 <= b < |hits| && hits[a].key == j && hits[b].key == k :: a < b
  {
    RarerTermScoresHigher(sc, slots, terms, keyToDoc[j], keyToDoc[k], v, w);
    assert Matches(slots[keyToDoc[j]], terms) by {
      var i :| 0 <= i < |terms| && terms[i] == v;
      assert v in slots[keyToDoc[j]];
    }
    hide QueryScore, Matches, Contribution, HoldsOnly, Holders;
    assert KeyScore(sc, keyToDoc, slots, j, terms) > KeyScore(sc, keyToDoc, slots, k, terms);
  }

  /** Two live slots with one key, which indexing a known key again leaves behind, make a search with room list the key
      twice. */
  lemma TwoSlotsShowTwice(sc: Scoring, docs: seq<Bytes>, slots: seq<seq<Bytes>>, terms: seq<Bytes>, topK: nat,
                          hits: seq<Hit>, key: Bytes, c: nat, d: nat)
    requires SlotHits(sc, docs, slots, terms, topK, hits) && |hits| < topK && c != d
    requires LiveMatch(docs, slots, terms, c) && LiveMatch(docs, slots, terms, d) && docs[c] == docs[d] == key
    ensures exists i, j :: 0 <= i < j < |hits| && hits[i].key == key && hits[j].key == key
  {
    hide RankedHits, Matches;
    var ranked :| RankedHits(sc, docs, slots, terms, topK, hits, ranked);
    var i := HitOfSlot(sc, docs, slots, terms, topK, hits, ranked, c);
    var j := HitOfSlot(sc, docs, slots, terms, topK, hits, ranked, d);
    var first, second := if i < j then i else j, if i < j then j else i;
    assert hits[first].key == key && hits[second].key == key;
  }

  lemma RankingAnswers(sc: Scoring, docs: seq<Bytes>, used: set<nat>, docLen: seq<nat>, slots: seq<seq<Bytes>>,
                       scores: seq<real>,
                       touched: seq<nat>, terms: seq<Bytes>, ranked: seq<nat>, topK: nat, hits: seq<Hit>)
    requires |docs| == |scores| && LengthsOk(docs, used, docLen, slots)
        && Scored(sc, docs, docLen, slots, terms, scores)
    requires forall d: nat :: d in touched <==> d < |docs| && docs[d] != [] && Matches(slots[d], terms)
    requires Ranked(scores, ranked) && |ranked| <= topK && forall d | d in ranked :: d in touched
    requires |ranked| < topK ==> forall d | d in touched :: d in ranked
    requires forall d, r | d in touched && d !in ranked && r in ranked :: scores[d] <= scores[r]
    requires |hits| == |ranked| && forall i | 0 <= i < |hits| :: hits[i] == Hit(docs[ranked[i]], scores[ranked[i]], i)
    ensures RankedHits(sc, docs, slots, terms, topK, hits, ranked)
  {
    hide Matches, QueryScore;
    forall d: nat ensures d in touched <==> LiveMatch(docs, slots, terms, d) { }
    forall d: nat | d in touched ensures scores[d] == SlotScore(sc, slots, terms, d) { }
    forall i | 0 <= i < |ranked| ensures ranked[i] in touched { assert ranked[i] in ranked; }
    forall d: nat, i | d in touched && d !in ranked && 0 <= i < |hits| ensures scores[d] <= hits[i].score {
      assert ranked[i] in ranked;
    }
  }

  lemma MeanOfContents(keyToDoc: map<Bytes, nat>, slots: seq<seq<Bytes>>, totalLen: nat, active: nat)
    ensures Counted(keyToDoc, slots, totalLen, active) ==>
              MeanLength(Live(keyToDoc, slots)) == if active > 0 then totalLen as real / active as real else 0.0
  {
  }

  lemma NoHits(sc: Scoring, docs: seq<Bytes>, slots: seq<seq<Bytes>>, terms: seq<Bytes>, topK: nat)
    requires topK == 0 || terms == [] || docs == []
    ensures RankedHits(sc, docs, slots, terms, topK, [], [])
  {
  }

  class KeywordSearch {
    var docs: seq<Bytes>
    var keyToDoc: map<Bytes, nat>
    var ids: TermIds
    var pool: nat
    var df: map<nat, nat>
    var postings: Postings
    var docLen: seq<nat>
    var totalLen: nat
    var active: nat
    const k1: real
    const b: real
    const ln: real -> real
    /** The tokens of every slot as it was filled. */
    ghost var slots: seq<seq<Bytes>>
    /** The slots filled and not removed since. */
    ghost var used: set<nat>

    ghost predicate Valid() reads this {
      && TablesOk(docs, keyToDoc, used, docLen, slots, totalLen, active)
      && IdsOk(ids, pool) && PostingsOk(ids, postings, df, slots) && PostingsKnown(ids, postings)
      && ScoringOk(Scoring(ln, 0.0, k1, b))
    }

    /** Every stored key has one live document. */
    ghost predicate OneDocumentEach() reads this { OneEach(docs, keyToDoc) }

    /** The totals are those of the stored documents. */
    ghost predicate Averaged() reads this { Counted(keyToDoc, slots, totalLen, active) }

    /** Average length of the live documents. */
    function AverageLength(): real reads this { if active > 0 then totalLen as real / active as real else 0.0 }

    /** The stored keys and the tokens indexed for each. */
    ghost function Contents(): map<Bytes, seq<Bytes>> reads this { Live(keyToDoc, slots) }

    constructor (k1: real, b: real, ln: real -> real)
      requires PositiveAboveOne(ln) && k1 >= 0.0 && 0.0 <= b <= 1.0
      ensures Valid() && OneDocumentEach() && Averaged() && Contents() == map[]
    {
      docs, keyToDoc, ids, pool, df, postings := [], map[], map[], 0, map[], map[];
      docLen, totalLen, active, slots, used := [], 0, 0, [], {};
      this.k1, this.b, this.ln := k1, b, ln;
    }

    /** `add_document_direct`: one new slot with exactly the tokens of both texts. A key indexed already keeps its older
        slot alive beside the new one. */
    method AddDocument(key: Bytes, keyText: Bytes, valueText: Bytes)
      requires Valid()
      modifies this
      ensures Valid() && Contents() == old(Contents())[key := TokensOf(keyText) + TokensOf(valueText)]
      ensures docs == old(docs) + [key] && docLen == old(docLen) + [|TokensOf(keyText)| + |TokensOf(valueText)|]
      ensures slots == old(slots) + [TokensOf(keyText) + TokensOf(valueText)] && |docs| == |slots|
      ensures old(OneDocumentEach()) ==> (OneDocumentEach() <==> key == [] || key !in old(keyToDoc))
      ensures keyToDoc == old(keyToDoc)[key := |old(docs)|]
      ensures old(Averaged()) && key !in old(keyToDoc) ==> Averaged()
    {
      hide PostingsOk, PostingsKnown, IdsOk, ScoringOk, TablesOk, Live, TokensOf, OneEach, Counted;
      ghost var tokens := TokensOf(keyText) + TokensOf(valueText);
      DocumentAdded(docs, keyToDoc, used, docLen, slots, totalLen, active, key, tokens);
      var ids1, pool1, postings1, df1, n := IndexText(ids, pool, postings, df, slots, keyText, valueText, |docs|);
      ids, pool, postings, df := ids1, pool1, postings1, df1;
      used, keyToDoc, docs := used + {|docs|}, keyToDoc[key := |docs|], docs + [key];
      docLen, slots, totalLen, active := docLen + [n], slots + [tokens], totalLen + n, active + 1;
    }

    /** `remove_document`: the slot is blanked, the posting lists are left alone. */
    method RemoveDocument(key: Bytes)
      requires Valid()
      modifies this
      ensures Valid() && Contents() == old(Contents()) - {key} && postings == old(postings) && |docs| == |old(docs)|
      ensures keyToDoc == old(keyToDoc) - {key} && (old(OneDocumentEach()) ==> OneDocumentEach())
      ensures old(Averaged()) ==> Averaged()
    {
      hide PostingsOk, PostingsKnown, IdsOk, ScoringOk, TablesOk, Live, OneEach, Counted;
      ContentsRemoved(keyToDoc, slots, key);
      if key !in keyToDoc {
        assert keyToDoc - {key} == keyToDoc;
        return;
      }
      DocumentRemoved(docs, keyToDoc, used, docLen, slots, totalLen, active, key);
      var doc := keyToDoc[key];
      used, docs, keyToDoc := used - {doc}, docs[doc := []], keyToDoc - {key};
      totalLen, active := SaturatingSub(totalLen, docLen[doc]), SaturatingSub(active, 1);
      docLen := docLen[doc := 0];
    }

    /** `on_put` */
    method OnPut(key: Bytes, value: Bytes)
      requires Valid()
      modifies this
      ensures Valid() && Contents() == old(Contents())[key := TokensOf(key) + TokensOf(value)]
      ensures old(OneDocumentEach()) ==> OneDocumentEach()
      ensures old(Averaged()) ==> Averaged()
    {
      hide PostingsOk, PostingsKnown, IdsOk, ScoringOk, TablesOk, Live, TokensOf, OneEach, Counted;
      if key in keyToDoc { RemoveDocument(key); }
      AddDocument(key, key, value);
    }

    /** `on_delete` */
    method OnDelete(key: Bytes)
      requires Valid()
      modifies this
      ensures Valid() && Contents() == old(Contents()) - {key}
      ensures old(OneDocumentEach()) ==> OneDocumentEach()
      ensures old(Averaged()) ==> Averaged()
    {
      hide Live, OneEach, Counted;
      RemoveDocument(key);
    }

    /** `search`: the best `topK` live slots that hold a query term, and with one document per key the best `topK`
        stored keys; the empty key marks a blanked slot and is never returned. */
    method Search(query: Bytes, topK: nat) returns (hits: seq<Hit>)
      requires Valid()
      ensures SlotHits(Scoring(ln, AverageLength(), k1, b), docs, slots, TokensOf(query), topK, hits)
      ensures OneDocumentEach() ==>
        RightHits(Scoring(ln, AverageLength(), k1, b), keyToDoc, slots, TokensOf(query), topK, hits)
      ensures Averaged() ==> AverageLength() == MeanLength(Contents())
    {
      MeanOfContents(keyToDoc, slots, totalLen, active);
      hide TotalTokens, Live, Counted, MeanLength;
      var sc := Scoring(ln, AverageLength(), k1, b);
      assert |docs| == |docLen| == |slots|;
      assert ScoringOk(sc);
      hide PostingsOk, PostingsKnown, IdsOk, ScoringOk, ScoresOk, Matches, Scored, SlotsOk, RightHits, RankedHits;
      hide TokensOf, Sum, PositiveAboveOne, OneEach, LengthsOk;
      hits := [];
      ghost var order: seq<nat> := [];
      var terms := Tokenize(query);
      if docs == [] || topK == 0 || terms == [] {
        NoHits(sc, docs, slots, terms, topK);
      } else {
        var scores, touched := Accumulate(docs, docLen, ids, postings, df, slots, sc, terms);
        ScoresShape(docs, scores, touched);
        var ranked := TopK(scores, (set d | d in touched), topK);
        hits := MakeHits(docs, scores, ranked);
        order := ranked;
        RankingAnswers(sc, docs, used, docLen, slots, scores, touched, terms, ranked, topK, hits);
      }
      if OneDocumentEach() { HitsAreRight(sc, docs, keyToDoc, used, slots, terms, topK, hits, order); }
    }
  }

  /** Two log records for one key, indexed as replay does without removing the first: a search with room for a term both
      hold lists the key twice. */
  method IndexReplayed(index: KeywordSearch, key: Bytes, older: Bytes, newer: Bytes, query: Bytes, topK: nat)
      returns (hits: seq<Hit>)
    requires index.Valid() && key != []
    requires Matches(TokensOf(key) + TokensOf(older), TokensOf(query))
    requires Matches(TokensOf(key) + TokensOf(newer), TokensOf(query))
    modifies index
    ensures index.Valid() && !index.OneDocumentEach()
    ensures |hits| < topK ==> exists i, j :: 0 <= i < j < |hits| && hits[i].key == key && hits[j].key == key
  {
    hide KeywordSearch.Valid, TokensOf, Matches, OneEach, SlotHits, RightHits, Live, QueryScore, PostingsOk;
    ghost var c := |index.docs|;
    index.AddDocument(key, key, older);
    index.AddDocument(key, key, newer);
    assert index.docs[c] == key && index.docs[c + 1] == key;
    assert LiveMatch(index.docs, index.slots, TokensOf(query), c);
    assert LiveMatch(index.docs, index.slots, TokensOf(query), c + 1);
    hits := index.Search(query, topK);
    TwoSlotsNotOne(index.docs, index.keyToDoc, c, c + 1);
    ghost var sc := Scoring(index.ln, index.AverageLength(), index.k1, index.b);
    if |hits| < topK {
      TwoSlotsShowTwice(sc, index.docs, index.slots, TokensOf(query), topK, hits, key, c, c + 1);
    }
  }

  lemma TwoSlotsNotOne(docs: seq<Bytes>, keyToDoc: map<Bytes, nat>, c: nat, d: nat)
    requires c < d < |docs| && docs[c] == docs[d] != []
    ensures !OneEach(docs, keyToDoc)
  {
  }
}
