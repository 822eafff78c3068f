/** BM25 scores: their parts, and the laws that make them rank. Scores are reals, and the logarithm is any function
    that is positive above one; the laws of order ask for an increasing one. */
module Relevance {
  import opened Common
  import opened Bm25

  /** The only fact used about the natural logarithm. */
  ghost predicate PositiveAboveOne(ln: real -> real) {
    forall x: real :: x > 1.0 ==> ln(x) > 0.0
  }

  function Max(x: real, y: real): real { if x >= y then x else y }

  function Idf(ln: real -> real, slots: nat, df: nat): real {
    ln((slots as real - df as real + 0.5) / (df as real + 0.5) + 1.0)
  }

  function Score(idf: real, tf: nat, len: nat, avg: real, k1: real, b: real): real
    requires tf > 0 && k1 >= 0.0 && 0.0 <= b <= 1.0
  {
    var denom := tf as real + k1 * (1.0 - b + b * (len as real) / Max(avg, 0.000000001));
    DenominatorPositive(tf, len, avg, k1, b);
    idf * (tf as real * (k1 + 1.0)) / denom
  }

  lemma QuotientNonNegative(x: real, y: real)
    requires x >= 0.0 && y > 0.0
    ensures x / y >= 0.0
    ensures x > 0.0 ==> x / y > 0.0
  {
    var q := x / y;
    assert x == q * y;
    ProductSign(q, y);
  }

  lemma ProductSign(x: real, y: real)
    requires y > 0.0
    ensures x < 0.0 ==> x * y < 0.0
    ensures x >= 0.0 ==> x * y >= 0.0
    ensures x > 0.0 ==> x * y > 0.0
  {
  }

  lemma DenominatorPositive(tf: nat, len: nat, avg: real, k1: real, b: real)
    requires tf > 0 && k1 >= 0.0 && 0.0 <= b <= 1.0
    ensures tf as real + k1 * (1.0 - b + b * (len as real) / Max(avg, 0.000000001)) > 0.0
  {
    assert b * (len as real) >= 0.0;
    QuotientNonNegative(b * (len as real), Max(avg, 0.000000001));
    var x := 1.0 - b + b * (len as real) / Max(avg, 0.000000001);
    assert x >= 0.0;
    assert k1 * x >= 0.0;
  }

  /** What a query's scores depend on besides the documents. */
  datatype Scoring = Scoring(ln: real -> real, avg: real, k1: real, b: real)

  ghost predicate ScoringOk(sc: Scoring) { PositiveAboveOne(sc.ln) && sc.k1 >= 0.0 && 0.0 <= sc.b <= 1.0 }

  /** One term's part of a document's score, nothing if the document does not hold the term. */
  function Contribution(sc: Scoring, slots: nat, df: nat, tf: nat, len: nat): real {
    if tf > 0 && sc.k1 >= 0.0 && 0.0 <= sc.b <= 1.0
    then Score(Idf(sc.ln, slots, df), tf, len, sc.avg, sc.k1, sc.b) else 0.0
  }

  /** Every contribution is positive because a document frequency never exceeds the number of slots. */
  lemma ContributionPositive(sc: Scoring, slots: nat, df: nat, tf: nat, len: nat)
    requires ScoringOk(sc) && df <= slots && tf > 0
    ensures Contribution(sc, slots, df, tf, len) > 0.0
  {
    IdfPositive(sc.ln, slots, df);
    ScorePositive(Idf(sc.ln, slots, df), tf, len, sc.avg, sc.k1, sc.b);
  }

  lemma IdfPositive(ln: real -> real, slots: nat, df: nat)
    requires PositiveAboveOne(ln) && df <= slots
    ensures Idf(ln, slots, df) > 0.0
  {
    QuotientNonNegative(slots as real - df as real + 0.5, df as real + 0.5);
  }

  lemma ScorePositive(idf: real, tf: nat, len: nat, avg: real, k1: real, b: real)
    requires idf > 0.0 && tf > 0 && k1 >= 0.0 && 0.0 <= b <= 1.0
    ensures Score(idf, tf, len, avg, k1, b) > 0.0
  {
    var x := tf as real * (k1 + 1.0);
    assert x > 0.0 by { ProductSign(tf as real, k1 + 1.0); }
    ProductSign(idf, x);
    DenominatorPositive(tf, len, avg, k1, b);
    var denom := tf as real + k1 * (1.0 - b + b * (len as real) / Max(avg, 0.000000001));
    QuotientNonNegative(idf * x, denom);
    assert Score(idf, tf, len, avg, k1, b) == idf * x / denom;
  }

  /** The BM25 score of a slot: the sum over the query's terms, repeated terms counted again. */
  ghost function QueryScore(sc: Scoring, slots: seq<seq<Bytes>>, d: nat, len: nat, terms: seq<Bytes>): real
    requires d < |slots|
  {
    if terms == [] then 0.0
    else
      var w := terms[|terms| - 1];
      QueryScore(sc, slots, d, len, terms[..|terms| - 1])
      + Contribution(sc, |slots|, |Expected(slots, w)|, multiset(slots[d])[w], len)
  }

  /** Parts of a query score apart, so the order of its terms does not matter. */
  lemma {:induction false} QueryScoreAdds(sc: Scoring, slots: seq<seq<Bytes>>, d: nat, len: nat, a: seq<Bytes>,
                                          b: seq<Bytes>)
    requires d < |slots|
    ensures QueryScore(sc, slots, d, len, a + b)
            == QueryScore(sc, slots, d, len, a) + QueryScore(sc, slots, d, len, b)
  {
    hide Contribution, Expected;
    if b == [] {
      assert a + b == a;
    } else {
      assert (a + b)[..|a + b| - 1] == a + b[..|b| - 1];
      QueryScoreAdds(sc, slots, d, len, a, b[..|b| - 1]);
    }
  }

  // ---------------------------------------------------------------- laws of order

  ghost predicate Increasing(ln: real -> real) {
    forall x: real, y: real | 0.0 < x < y :: ln(x) < ln(y)
  }

  /** A product by name, for proofs that are not to multiply out. */
  function Times(x: real, y: real): real { x * y }

  lemma TimesGrows(x1: real, x2: real, y: real)
    requires x1 < x2 && y > 0.0
    ensures Times(x1, y) < Times(x2, y) && Times(y, x1) < Times(y, x2)
  {
    ProductSign(x2 - x1, y);
  }

  lemma TimesPositive(x: real, y: real)
    requires x > 0.0 && y > 0.0
    ensures Times(x, y) > 0.0
  {
    ProductSign(x, y);
  }

  /** Quotients compare like cross products. */
  lemma QuotientOrder(x1: real, y1: real, x2: real, y2: real)
    requires y1 > 0.0 && y2 > 0.0 && Times(x1, y2) < Times(x2, y1)
    ensures x1 / y1 < x2 / y2
  {
    var q1, q2, y := x1 / y1, x2 / y2, y1 * y2;
    assert x1 == q1 * y1 && x2 == q2 * y2;
    assert y > 0.0 by { ProductSign(y1, y2); }
    assert x1 * y2 == q1 * y && x2 * y1 == q2 * y;
    assert (q2 - q1) * y > 0.0;
    ProductSign(q2 - q1, y);
  }

  /** A rarer term weighs more. */
  lemma RarerWeighsMore(ln: real -> real, slots: nat, df1: nat, df2: nat)
    requires Increasing(ln) && df1 < df2 <= slots
    ensures Idf(ln, slots, df1) > Idf(ln, slots, df2)
  {
    hide Times;
    var x1, y1 := slots as real - df1 as real + 0.5, df1 as real + 0.5;
    var x2, y2 := slots as real - df2 as real + 0.5, df2 as real + 0.5;
    TimesGrows(x2, x1, y1);
    TimesGrows(y1, y2, x1);
    QuotientOrder(x2, y2, x1, y1);
    QuotientNonNegative(x2, y2);
  }

  /** What the length of a document adds to the denominator. */
  function Damping(len: nat, avg: real, k1: real, b: real): real {
    Times(k1, 1.0 - b + Times(b, len as real) / Max(avg, 0.000000001))
  }

  /** The score as weight times occurrences over occurrences plus damping. */
  lemma ScoreForm(idf: real, tf: nat, len: nat, avg: real, k1: real, b: real)
    requires tf > 0 && k1 >= 0.0 && 0.0 <= b <= 1.0
    ensures var t, damp := tf as real, Damping(len, avg, k1, b);
            && t + damp > 0.0
            && Score(idf, tf, len, avg, k1, b) == Times(idf, Times(t, k1 + 1.0)) / (t + damp)
            && Times(idf, Times(t, k1 + 1.0)) == Times(Times(idf, k1 + 1.0), t)
  {
    DenominatorPositive(tf, len, avg, k1, b);
    Regroup(idf, tf as real, k1 + 1.0);
  }

  lemma Regroup(x: real, y: real, z: real)
    ensures x * (y * z) == (x * z) * y
  {
  }

  /** A longer document is damped more, and a document that holds anything is damped. */
  lemma DampingGrows(len1: nat, len2: nat, avg: real, k1: real, b: real)
    requires len1 < len2 && k1 > 0.0 && 0.0 <= b <= 1.0
    ensures b > 0.0 ==> Damping(len1, avg, k1, b) < Damping(len2, avg, k1, b)
    ensures Damping(len2, avg, k1, b) > 0.0
  {
    var a := Max(avg, 0.000000001);
    var x1, x2 := Times(b, len1 as real), Times(b, len2 as real);
    assert b == 0.0 ==> x2 == 0.0;
    hide Times;
    if b > 0.0 {
      TimesGrows(len1 as real, len2 as real, b);
      TimesGrows(x1, x2, a);
      QuotientOrder(x1, a, x2, a);
      TimesGrows(1.0 - b + x1 / a, 1.0 - b + x2 / a, k1);
      TimesPositive(b, len2 as real);
    }
    QuotientNonNegative(x2, a);
    TimesPositive(k1, 1.0 - b + x2 / a);
  }

  /** With more weight to the term the score is higher. */
  lemma ScoreGrowsWithIdf(idf1: real, idf2: real, tf: nat, len: nat, avg: real, k1: real, b: real)
    requires idf1 < idf2 && tf > 0 && k1 >= 0.0 && 0.0 <= b <= 1.0
    ensures Score(idf1, tf, len, avg, k1, b) < Score(idf2, tf, len, avg, k1, b)
  {
    hide Times, Score, Damping;
    var t := tf as real;
    var x, y := Times(t, k1 + 1.0), t + Damping(len, avg, k1, b);
    ScoreForm(idf1, tf, len, avg, k1, b);
    ScoreForm(idf2, tf, len, avg, k1, b);
    TimesPositive(t, k1 + 1.0);
    TimesGrows(idf1, idf2, x);
    TimesGrows(Times(idf1, x), Times(idf2, x), y);
    QuotientOrder(Times(idf1, x), y, Times(idf2, x), y);
  }

  lemma CrossGap(c: real, t1: real, t2: real, damp: real)
    requires c > 0.0 && t1 < t2 && damp > 0.0
    ensures Times(Times(c, t1), t2 + damp) < Times(Times(c, t2), t1 + damp)
  {
    var gap := (t2 - t1) * damp;
    assert gap > 0.0 by { ProductSign(t2 - t1, damp); }
    assert gap * c > 0.0 by { ProductSign(gap, c); }
    assert t2 * (t1 + damp) == t1 * (t2 + damp) + gap;
    assert (c * t2) * (t1 + damp) == c * (t2 * (t1 + damp));
    assert (c * t1) * (t2 + damp) == c * (t1 * (t2 + damp));
  }

  /** More occurrences score higher. */
  lemma ScoreGrowsWithTf(idf: real, tf1: nat, tf2: nat, len: nat, avg: real, k1: real, b: real)
    requires idf > 0.0 && 0 < tf1 < tf2 && len > 0 && k1 > 0.0 && 0.0 <= b <= 1.0
    ensures Score(idf, tf1, len, avg, k1, b) < Score(idf, tf2, len, avg, k1, b)
  {
    hide Times, Score, Damping;
    var t1, t2, damp, c := tf1 as real, tf2 as real, Damping(len, avg, k1, b), Times(idf, k1 + 1.0);
    TimesPositive(idf, k1 + 1.0);
    DampingGrows(0, len, avg, k1, b);
    ScoreForm(idf, tf1, len, avg, k1, b);
    ScoreForm(idf, tf2, len, avg, k1, b);
    CrossGap(c, t1, t2, damp);
    QuotientOrder(Times(c, t1), t1 + damp, Times(c, t2), t2 + damp);
  }

  /** The same occurrences in a longer document score lower. */
  lemma ScoreFallsWithLength(idf: real, tf: nat, len1: nat, len2: nat, avg: real, k1: real, b: real)
    requires idf > 0.0 && tf > 0 && len1 < len2 && k1 > 0.0 && 0.0 < b <= 1.0
    ensures Score(idf, tf, len1, avg, k1, b) > Score(idf, tf, len2, avg, k1, b)
  {
    hide Times, Score, Damping;
    var t, d1, d2 := tf as real, Damping(len1, avg, k1, b), Damping(len2, avg, k1, b);
    ScoreForm(idf, tf, len1, avg, k1, b);
    ScoreForm(idf, tf, len2, avg, k1, b);
    DampingGrows(len1, len2, avg, k1, b);
    var x := Times(idf, Times(t, k1 + 1.0));
    TimesPositive(t, k1 + 1.0);
    TimesPositive(idf, Times(t, k1 + 1.0));
    TimesGrows(t + d1, t + d2, x);
    QuotientOrder(x, t + d2, x, t + d1);
  }

  /** The laws for what a term contributes: it falls with the document frequency, grows with the occurrences and falls
      with the length. */
  lemma ContributionOrder(sc: Scoring, slots: nat, df1: nat, df2: nat, tf1: nat, tf2: nat, len1: nat, len2: nat)
    requires ScoringOk(sc) && df2 <= slots && 0 < tf1 && 0 < len1
    ensures Increasing(sc.ln) && df1 < df2 ==>
              Contribution(sc, slots, df1, tf1, len1) > Contribution(sc, slots, df2, tf1, len1)
    ensures sc.k1 > 0.0 && tf1 < tf2 ==>
              Contribution(sc, slots, df2, tf1, len1) < Contribution(sc, slots, df2, tf2, len1)
    ensures sc.k1 > 0.0 && sc.b > 0.0 && len1 < len2 ==>
              Contribution(sc, slots, df2, tf1, len1) > Contribution(sc, slots, df2, tf1, len2)
  {
    hide Score, Idf;
    if Increasing(sc.ln) && df1 < df2 {
      RarerWeighsMore(sc.ln, slots, df1, df2);
      ScoreGrowsWithIdf(Idf(sc.ln, slots, df2), Idf(sc.ln, slots, df1), tf1, len1, sc.avg, sc.k1, sc.b);
    }
    IdfPositive(sc.ln, slots, df2);
    var idf := Idf(sc.ln, slots, df2);
    if sc.k1 > 0.0 && tf1 < tf2 { ScoreGrowsWithTf(idf, tf1, tf2, len1, sc.avg, sc.k1, sc.b); }
    if sc.k1 > 0.0 && sc.b > 0.0 && len1 < len2 { ScoreFallsWithLength(idf, tf1, len1, len2, sc.avg, sc.k1, sc.b); }
  }

  // ---------------------------------------------------------------- documents with one query term

  /** The slots that hold a term. */
  ghost function Holders(slots: seq<seq<Bytes>>, w: Bytes): set<nat> {
    set d: nat | d < |slots| && w in slots[d]
  }

  /** The document frequency is the number of slots that hold the term. */
  lemma {:induction false} FrequencyCountsHolders(slots: seq<seq<Bytes>>, w: Bytes)
    ensures |Expected(slots, w)| == |Holders(slots, w)|
  {
    if slots == [] {
      assert Holders(slots, w) == {};
    } else {
      var init, d := slots[..|slots| - 1], |slots| - 1;
      FrequencyCountsHolders(init, w);
      assert |Expected(slots, w)| == |Expected(init, w)| + (if w in slots[d] then 1 else 0);
      hide Expected;
      assert Holders(slots, w) == Holders(init, w) + (if w in slots[d] then {d} else {});
      assert d !in Holders(init, w);
    }
  }

  /** The document holds `w` once and no other term of the query. */
  ghost predicate HoldsOnly(tokens: seq<Bytes>, terms: seq<Bytes>, w: Bytes) {
    w in terms && multiset(tokens)[w] == 1 && forall t | t in terms && t != w :: t !in tokens
  }

  lemma NoTermNoScore(sc: Scoring, slots: nat, df: nat, len: nat)
    ensures Contribution(sc, slots, df, 0, len) == 0.0
  {
  }

  lemma {:induction false} ScoreWithoutTerms(sc: Scoring, slots: seq<seq<Bytes>>, d: nat, len: nat, terms: seq<Bytes>)
    requires d < |slots| && forall t | t in terms :: t !in slots[d]
    ensures QueryScore(sc, slots, d, len, terms) == 0.0
  {
    hide Contribution;
    if terms != [] {
      var w := terms[|terms| - 1];
      assert w in terms;
      ScoreWithoutTerms(sc, slots, d, len, terms[..|terms| - 1]);
      NoTermNoScore(sc, |slots|, |Expected(slots, w)|, len);
    }
  }

  /** Then its score is what that term contributes. */
  lemma {:induction false} ScoreOfOneTerm(sc: Scoring, slots: seq<seq<Bytes>>, d: nat, len: nat, terms: seq<Bytes>,
                                          w: Bytes)
    requires d < |slots| && NoRepeats(terms) && HoldsOnly(slots[d], terms, w)
    ensures QueryScore(sc, slots, d, len, terms) == Contribution(sc, |slots|, |Expected(slots, w)|, 1, len)
  {
    hide Contribution;
    var init, last := terms[..|terms| - 1], terms[|terms| - 1];
    if last == w {
      forall t | t in init ensures t !in slots[d] { assert t in terms && t != w; }
      ScoreWithoutTerms(sc, slots, d, len, init);
    } else {
      assert last in terms && w in init;
      ScoreOfOneTerm(sc, slots, d, len, init, w);
      NoTermNoScore(sc, |slots|, |Expected(slots, last)|, len);
    }
  }

  /** Of two documents of one length, each holding one query term once, the one with the rarer term scores higher. */
  lemma RarerTermScoresHigher(sc: Scoring, slots: seq<seq<Bytes>>, terms: seq<Bytes>, c: nat, d: nat, v: Bytes,
                              w: Bytes)
    requires ScoringOk(sc) && Increasing(sc.ln) && NoRepeats(terms) && c < |slots| && d < |slots|
    requires HoldsOnly(slots[c], terms, v) && HoldsOnly(slots[d], terms, w) && |slots[c]| == |slots[d]|
    requires |Holders(slots, v)| < |Holders(slots, w)|
    ensures QueryScore(sc, slots, c, |slots[c]|, terms) > QueryScore(sc, slots, d, |slots[d]|, terms)
  {
    hide Contribution, QueryScore;
    ScoreOfOneTerm(sc, slots, c, |slots[c]|, terms, v);
    ScoreOfOneTerm(sc, slots, d, |slots[d]|, terms, w);
    FrequencyCountsHolders(slots, v);
    FrequencyCountsHolders(slots, w);
    ExpectedShort(slots, w);
    assert v in slots[c];
    ContributionOrder(sc, |slots|, |Expected(slots, v)|, |Expected(slots, w)|, 1, 1, |slots[c]|, |slots[c]|);
  }
}
