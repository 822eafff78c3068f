/** The tokenizer of the keyword index: lower-cased runs of ASCII letters and digits, split at camelCase boundaries. */
module Tokens {
  import opened Common

  predicate IsUpper(b: Byte) { 65 <= b <= 90 }

  predicate IsLower(b: Byte) { 97 <= b <= 122 }

  predicate IsAlnum(b: Byte) { IsUpper(b) || IsLower(b) || 48 <= b <= 57 }

  function Lower(b: Byte): Byte { if IsUpper(b) then b + 32 else b }

  /** The characters of a token as they stand in the text form a maximal run between boundaries: a boundary lies
      before `i` when the run of letters and digits starts or ends there, or when a lower-case letter is followed by an
      upper-case one. */
  predicate Boundary(text: Bytes, i: nat)
    requires i <= |text|
  {
    i == 0 || i == |text| || !IsAlnum(text[i - 1]) || !IsAlnum(text[i]) || (IsLower(text[i - 1]) && IsUpper(text[i]))
  }

  function LowerAll(s: Bytes): (r: Bytes)
    ensures |r| == |s|
  {
    seq(|s|, i requires 0 <= i < |s| => Lower(s[i]))
  }

  /** The tokens of `text`, given that one has been open since `from`, reading on at `i`: the definition by
      boundaries. */
  function TokensFrom(text: Bytes, from: nat, i: nat): seq<Bytes>
    requires from <= i <= |text|
    decreases |text| - i
  {
    if i == |text| then (if from < i then [LowerAll(text[from..i])] else [])
    else if !IsAlnum(text[i]) then
      (if from < i then [LowerAll(text[from..i])] else []) + TokensFrom(text, i + 1, i + 1)
    else if from < i && IsLower(text[i - 1]) && IsUpper(text[i]) then
      [LowerAll(text[from..i])] + TokensFrom(text, i, i + 1)
    else TokensFrom(text, from, i + 1)
  }

  function TokensOf(text: Bytes): seq<Bytes> { TokensFrom(text, 0, 0) }

  /** A maximal stretch of letters and digits between two boundaries. */
  ghost predicate IsCut(text: Bytes, a: nat, b: nat) {
    && a < b <= |text| && Boundary(text, a) && Boundary(text, b) && (forall i | a < i < b :: !Boundary(text, i))
    && (forall i | a <= i < b :: IsAlnum(text[i]))
  }

  /** The token is the lower-cased text of a stretch that starts at or behind `from`. */
  ghost predicate TokenAt(text: Bytes, token: Bytes, span: (nat, nat), from: nat) {
    from <= span.0 && IsCut(text, span.0, span.1) && token == LowerAll(text[span.0..span.1])
  }

  /** The stretches in `spans` follow one another from `from` on, and the tokens are their lower-cased texts. */
  ghost predicate CutAt(text: Bytes, tokens: seq<Bytes>, spans: seq<(nat, nat)>, from: nat) {
    && |tokens| == |spans|
    && (forall n | 0 <= n < |spans| :: TokenAt(text, tokens[n], spans[n], from))
    && (forall m, n | 0 <= m < n < |spans| :: spans[m].1 <= spans[n].0)
  }

  /** A token has been open since `from`. */
  ghost predicate OpenSince(text: Bytes, from: nat, i: nat) {
    && from <= i <= |text| && Boundary(text, from)
    && (forall j | from < j < i :: !Boundary(text, j)) && forall j | from <= j < i :: IsAlnum(text[j])
  }

  lemma CutEarlier(text: Bytes, tokens: seq<Bytes>, spans: seq<(nat, nat)>, from: nat, earlier: nat)
    requires CutAt(text, tokens, spans, from) && earlier <= from
    ensures CutAt(text, tokens, spans, earlier)
  {
    hide IsCut, LowerAll;
  }

  lemma CutFirst(text: Bytes, from: nat, i: nat, tokens: seq<Bytes>, spans: seq<(nat, nat)>)
    requires IsCut(text, from, i) && CutAt(text, tokens, spans, i)
    ensures CutAt(text, [LowerAll(text[from..i])] + tokens, [(from, i)] + spans, from)
  {
    CutEarlier(text, tokens, spans, i, from);
    var more, all := [LowerAll(text[from..i])] + tokens, [(from, i)] + spans;
    assert TokenAt(text, more[0], all[0], from);
    forall n | 0 <= n < |spans| ensures i <= spans[n].0 { assert TokenAt(text, tokens[n], spans[n], i); }
    hide IsCut, LowerAll, TokenAt;
    forall n | 0 <= n < |all| ensures TokenAt(text, more[n], all[n], from) {
      if n > 0 { assert TokenAt(text, tokens[n - 1], spans[n - 1], from); }
    }
  }

  /** Where the token open after byte `i` starts, and what is completed by then. */
  ghost function OpenAfter(text: Bytes, from: nat, i: nat): (n: nat)
    requires from <= i < |text|
    ensures n <= i + 1
  {
    if !IsAlnum(text[i]) then i + 1 else if from < i && IsLower(text[i - 1]) && IsUpper(text[i]) then i else from
  }

  ghost function ClosedBy(text: Bytes, from: nat, i: nat): seq<Bytes>
    requires from <= i < |text|
  {
    if from < i && OpenAfter(text, from, i) != from then [LowerAll(text[from..i])] else []
  }

  lemma TokensStep(text: Bytes, from: nat, i: nat)
    requires from <= i < |text|
    ensures TokensFrom(text, from, i) == ClosedBy(text, from, i) + TokensFrom(text, OpenAfter(text, from, i), i + 1)
  {
  }

  /** One byte on: a token ends here or stays open, and no other stretch ends at this place. */
  lemma OpenStep(text: Bytes, from: nat, i: nat)
    requires OpenSince(text, from, i) && i < |text|
    ensures OpenSince(text, OpenAfter(text, from, i), i + 1) && from <= OpenAfter(text, from, i)
    ensures from <= i && (ClosedBy(text, from, i) != [] ==>
              && ClosedBy(text, from, i) == [LowerAll(text[from..i])]
              && IsCut(text, from, i) && i <= OpenAfter(text, from, i))
    ensures forall a: nat, b: nat | from <= a && i <= b && IsCut(text, a, b) ::
      (ClosedBy(text, from, i) != [] && a == from && b == i) || (OpenAfter(text, from, i) <= a && i < b)
  {
    hide IsAlnum, IsLower, IsUpper;
    assert forall a: nat | from < a < i :: !Boundary(text, a);
    assert forall b: nat :: IsCut(text, i, b) ==> IsAlnum(text[i]);
    assert forall a: nat, b: nat | IsCut(text, a, b) && a < i <= b :: b == i || (i < b && !Boundary(text, i));
  }

  /** No stretch from `from` on that ends at `i` or later is missing. */
  ghost predicate Covers(text: Bytes, spans: seq<(nat, nat)>, from: nat, i: nat) {
    forall a: nat, b: nat | from <= a && i <= b && IsCut(text, a, b) :: (a, b) in spans
  }

  lemma LastSpan(text: Bytes, from: nat) returns (spans: seq<(nat, nat)>)
    requires OpenSince(text, from, |text|)
    ensures CutAt(text, TokensFrom(text, from, |text|), spans, from) && Covers(text, spans, from, |text|)
  {
    hide IsAlnum, IsLower, IsUpper, LowerAll;
    spans := if from < |text| then [(from, |text|)] else [];
    assert from < |text| ==> IsCut(text, from, |text|);
  }

  lemma CoversStep(text: Bytes, from: nat, i: nat, rest: seq<(nat, nat)>)
    requires OpenSince(text, from, i) && i < |text| && Covers(text, rest, OpenAfter(text, from, i), i + 1)
    ensures Covers(text, if ClosedBy(text, from, i) != [] then [(from, i)] + rest else rest, from, i)
  {
    OpenStep(text, from, i);
    hide OpenSince, OpenAfter, ClosedBy, IsCut;
  }

  lemma {:induction false} SpansFrom(text: Bytes, from: nat, i: nat) returns (spans: seq<(nat, nat)>)
    requires OpenSince(text, from, i)
    ensures CutAt(text, TokensFrom(text, from, i), spans, from) && Covers(text, spans, from, i)
    decreases |text| - i
  {
    assert from <= i <= |text|;
    hide *;
    if i == |text| {
      spans := LastSpan(text, from);
    } else {
      OpenStep(text, from, i);
      TokensStep(text, from, i);
      var next := OpenAfter(text, from, i);
      var rest := SpansFrom(text, next, i + 1);
      CoversStep(text, from, i, rest);
      if ClosedBy(text, from, i) != [] {
        spans := [(from, i)] + rest;
        CutEarlier(text, TokensFrom(text, next, i + 1), rest, next, i);
        CutFirst(text, from, i, TokensFrom(text, next, i + 1), rest);
      } else {
        spans := rest;
        CutEarlier(text, TokensFrom(text, next, i + 1), rest, next, from);
      }
    }
  }

  /** The tokens of a text are its maximal stretches between boundaries, each once and in the order of the text. */
  lemma TokensExact(text: Bytes)
    ensures exists spans :: CutAt(text, TokensOf(text), spans, 0) && AllCuts(text, spans)
  {
    var spans := SpansFrom(text, 0, 0);
    forall a: nat, b: nat | (a, b) in spans ensures IsCut(text, a, b) {
      var n :| 0 <= n < |spans| && spans[n] == (a, b);
    }
    assert AllCuts(text, spans);
  }

  ghost predicate AllCuts(text: Bytes, spans: seq<(nat, nat)>) {
    forall a: nat, b: nat :: (a, b) in spans <==> IsCut(text, a, b)
  }

  // ---------------------------------------------------------------- laws of splitting

  lemma StepBehind(front: Bytes, text: Bytes, from: nat, i: nat)
    requires from <= i < |text|
    ensures OpenAfter(front + text, |front| + from, |front| + i) == |front| + OpenAfter(text, from, i)
    ensures ClosedBy(front + text, |front| + from, |front| + i) == ClosedBy(text, from, i)
  {
    var all, n := front + text, |front|;
    assert all[n + from..n + i] == text[from..i];
    assert all[n + i] == text[i] && (from < i ==> all[n + i - 1] == text[i - 1]);
    hide IsAlnum, IsLower, IsUpper, LowerAll;
  }

  lemma LastBehind(front: Bytes, text: Bytes, from: nat)
    requires from <= |text|
    ensures TokensFrom(front + text, |front| + from, |front| + |text|) == TokensFrom(text, from, |text|)
  {
    assert (front + text)[|front| + from..|front| + |text|] == text[from..|text|];
    hide LowerAll;
  }

  /** Text in front changes nothing for a token that starts behind it. */
  lemma {:induction false} TokensBehind(front: Bytes, text: Bytes, from: nat, i: nat)
    requires from <= i <= |text|
    ensures TokensFrom(front + text, |front| + from, |front| + i) == TokensFrom(text, from, i)
    decreases |text| - i
  {
    hide *;
    if i == |text| {
      LastBehind(front, text, from);
    } else {
      StepBehind(front, text, from, i);
      TokensStep(text, from, i);
      TokensStep(front + text, |front| + from, |front| + i);
      TokensBehind(front, text, OpenAfter(text, from, i), i + 1);
    }
  }

  /** Two texts whose tokens stay apart when they are joined: a separator begins the second, or a lower-case letter
      meets an upper-case one. */
  ghost predicate StaysApart(a: Bytes, b: Bytes) {
    b != [] && (!IsAlnum(b[0]) || (a != [] && IsLower(a[|a| - 1]) && IsUpper(b[0])))
  }

  lemma TokensAtSeam(a: Bytes, b: Bytes, from: nat)
    requires StaysApart(a, b) && from <= |a|
    requires from == |a| && a != [] ==> !IsAlnum(a[|a| - 1])
    ensures TokensFrom(a + b, from, |a|) == TokensFrom(a, from, |a|) + TokensOf(b)
  {
    var all, n := a + b, |a|;
    assert all[from..n] == a[from..n] && all[n] == b[0] && (n > 0 ==> all[n - 1] == a[n - 1]);
    TokensStep(all, from, n);
    TokensStep(b, 0, 0);
    TokensBehind(a, b, if IsAlnum(b[0]) then 0 else 1, 1);
  }

  lemma SameStep(a: Bytes, b: Bytes, from: nat, i: nat)
    requires from <= i < |a|
    ensures OpenAfter(a + b, from, i) == OpenAfter(a, from, i) && ClosedBy(a + b, from, i) == ClosedBy(a, from, i)
  {
    assert (a + b)[from..i] == a[from..i];
  }

  lemma {:induction false} TokensJoin(a: Bytes, b: Bytes, from: nat, i: nat)
    requires StaysApart(a, b) && from <= i <= |a|
    requires from == i && i > 0 ==> !IsAlnum(a[i - 1])
    ensures TokensFrom(a + b, from, i) == TokensFrom(a, from, i) + TokensOf(b)
    decreases |a| - i
  {
    if i == |a| {
      TokensAtSeam(a, b, from);
    } else {
      SameStep(a, b, from, i);
      TokensStep(a, from, i);
      TokensStep(a + b, from, i);
      var next := OpenAfter(a, from, i);
      assert next == i + 1 ==> !IsAlnum(a[i]);
      hide *;
      TokensJoin(a, b, next, i + 1);
    }
  }

  /** Any byte that is neither letter nor digit separates tokens. */
  lemma SeparatorSplits(a: Bytes, sep: Byte, b: Bytes)
    requires !(48 <= sep <= 57) && !(65 <= sep <= 90) && !(97 <= sep <= 122)
    ensures TokensOf(a + [sep] + b) == TokensOf(a) + TokensOf(b)
  {
    assert a + [sep] + b == a + ([sep] + b);
    TokensJoin(a, [sep] + b, 0, 0);
    TokensBehind([sep], b, 0, 0);
    assert TokensOf([sep] + b) == TokensOf(b);
  }

  /** So does the place where a capital follows a lower-case letter. */
  lemma CamelCaseSplits(a: Bytes, b: Bytes)
    requires a != [] && b != [] && 97 <= a[|a| - 1] <= 122 && 65 <= b[0] <= 90
    ensures TokensOf(a + b) == TokensOf(a) + TokensOf(b)
  {
    TokensJoin(a, b, 0, 0);
  }

  /** Letters and digits without such a place. */
  ghost predicate Solid(text: Bytes) {
    && (forall i | 0 <= i < |text| :: 48 <= text[i] <= 57 || 65 <= text[i] <= 90 || 97 <= text[i] <= 122)
    && forall i | 0 < i < |text| :: !(97 <= text[i - 1] <= 122 && 65 <= text[i] <= 90)
  }

  lemma {:induction false} SolidFrom(text: Bytes, i: nat)
    requires Solid(text) && i <= |text|
    ensures TokensFrom(text, 0, i) == if text == [] then [] else [LowerAll(text)]
    decreases |text| - i
  {
    if i < |text| { SolidFrom(text, i + 1); } else { assert text[0..i] == text; }
  }

  /** Nothing else separates, and capitals count as their lower-case letters. */
  lemma SolidIsOneToken(text: Bytes, other: Bytes)
    requires Solid(text) && text != []
    ensures TokensOf(text) == [LowerAll(text)]
    ensures Solid(other) && |other| == |text| && (forall i | 0 <= i < |text| :: SameLetter(text[i], other[i])) ==>
              TokensOf(other) == TokensOf(text)
  {
    SolidFrom(text, 0);
    if Solid(other) && |other| == |text| && forall i | 0 <= i < |text| :: SameLetter(text[i], other[i]) {
      SolidFrom(other, 0);
      assert LowerAll(other) == LowerAll(text);
    }
  }

  /** Equal, or the capital and the small form of one letter. */
  ghost predicate SameLetter(a: Byte, b: Byte) {
    a == b || (97 <= a <= 122 && b == a - 32) || (97 <= b <= 122 && a == b - 32)
  }

  /** The loop state of the code between two bytes: the open token's lower-cased text, and whether one is open. */
  ghost predicate LoopState(text: Bytes, from: nat, i: nat, buf: Bytes, inToken: bool) {
    from <= i <= |text| && buf == LowerAll(text[from..i]) && (inToken <==> from < i)
  }

  lemma LowerSnoc(text: Bytes, from: nat, i: nat)
    requires from <= i < |text|
    ensures LowerAll(text[from..i]) + [Lower(text[i])] == LowerAll(text[from..i + 1])
  {
  }

  /** `tokenize` */
  method Tokenize(text: Bytes) returns (tokens: seq<Bytes>)
    ensures tokens == TokensOf(text)
  {
    tokens := [];
    var buf: Bytes, inToken, i := [], false, 0;
    ghost var from := 0;
    while i < |text|
      invariant i <= |text| && LoopState(text, from, i, buf, inToken)
      invariant tokens + TokensFrom(text, from, i) == TokensOf(text)
    {
      var b := text[i];
      if IsUpper(b) && inToken && i > 0 && IsLower(text[i - 1]) && buf != [] {
        tokens, buf := tokens + [buf], [];
        from := i;
      }
      if IsAlnum(b) {
        LowerSnoc(text, from, i);
        buf, inToken := buf + [Lower(b)], true;
      } else if inToken {
        if buf != [] { tokens, buf := tokens + [buf], []; }
        inToken := false;
        from := i + 1;
      } else {
        from := i + 1;
      }
      i := i + 1;
    }
    if buf != [] { tokens := tokens + [buf]; }
  }
}
