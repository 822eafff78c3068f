/** The bounded Levenshtein distance behind fuzzy symbol lookup: the table the code fills against the minimum
    number of single-character edits, with its operand swap, length-gap cut and row-minimum exit. */
module EditDistance {

  // ---------------------------------------------------------------- edits, the reference meaning

  datatype Edit = Insert(at: nat, c: char) | Delete(at: nat) | Replace(at: nat, c: char)

  predicate Applies(e: Edit, s: string) {
    if e.Insert? then e.at <= |s| else e.at < |s|
  }

  function Apply(e: Edit, s: string): string
    requires Applies(e, s)
  {
    match e
    case Insert(at, c) => s[..at] + [c] + s[at..]
    case Delete(at) => s[..at] + s[at + 1..]
    case Replace(at, c) => s[..at] + [c] + s[at + 1..]
  }

  /** `script` turns `s` into `t`, one edit after another. */
  ghost predicate Turns(s: string, script: seq<Edit>, t: string)
    decreases |script|
  {
    if script == [] then s == t
    else Applies(script[0], s) && Turns(Apply(script[0], s), script[1..], t)
  }

  // ---------------------------------------------------------------- the recurrence

  function Min(x: nat, y: nat): nat { if x <= y then x else y }

  function Cost(c: char, d: char): nat { if c == d then 0 else 1 }

  /** The recurrence whose table the code fills, on prefixes. */
  function Lev(a: string, b: string): nat
    decreases |a| + |b|
  {
    if a == [] then |b|
    else if b == [] then |a|
    else
      var a', b' := a[..|a| - 1], b[..|b| - 1];
      Min(Min(Lev(a', b) + 1, Lev(a, b') + 1), Lev(a', b') + Cost(a[|a| - 1], b[|b| - 1]))
  }

  // ---------------------------------------------------------------- no script is shorter

  predicate Within1(x: nat, y: nat) { x <= y + 1 && y <= x + 1 }

  /** The recurrence read at a string extended by one character. */
  lemma LevSnoc(s: string, c: char, u: string)
    ensures u == [] ==> Lev(s + [c], u) == |s| + 1
    ensures u != [] ==>
              var u' := u[..|u| - 1];
              Lev(s + [c], u) == Min(Min(Lev(s, u) + 1, Lev(s + [c], u') + 1), Lev(s, u') + Cost(c, u[|u| - 1]))
  {
    assert (s + [c])[..|s|] == s;
  }

  /** Growing the target by one character moves the distance by at most one. */
  lemma TargetSnoc(s: string, u: string)
    requires u != []
    ensures Lev(s, u) <= Lev(s, u[..|u| - 1]) + 1
  {
  }

  lemma {:induction false} DropLast(s: string, c: char, u: string)
    ensures Within1(Lev(s + [c], u), Lev(s, u))
    decreases |u|
  {
    hide Lev;
    LevSnoc(s, c, u);
    if u != [] {
      TargetSnoc(s, u);
      DropLast(s, c, u[..|u| - 1]);
    } else {
      EmptyTarget(s);
    }
  }

  lemma EmptyTarget(s: string)
    ensures Lev(s, []) == |s|
  {
  }

  lemma {:induction false} ChangeLast(s: string, c: char, d: char, u: string)
    ensures Within1(Lev(s + [c], u), Lev(s + [d], u))
    decreases |u|
  {
    hide Lev;
    LevSnoc(s, c, u);
    LevSnoc(s, d, u);
    if u != [] { ChangeLast(s, c, d, u[..|u| - 1]); }
  }

  /** Strings that are close to every target stay close when the same suffix is appended to both. */
  lemma {:induction false} CloseWithSuffix(s: string, t: string, y: string, u: string)
    requires forall v: string :: Within1(Lev(s, v), Lev(t, v))
    requires Within1(|s|, |t|)
    ensures Within1(Lev(s + y, u), Lev(t + y, u))
    decreases |y| + |u|
  {
    hide Lev;
    if y == [] {
      assert s + y == s && t + y == t;
      assert Within1(Lev(s, u), Lev(t, u));
    } else {
      var y', z := y[..|y| - 1], y[|y| - 1];
      assert s + y == s + y' + [z] && t + y == t + y' + [z];
      LevSnoc(s + y', z, u);
      LevSnoc(t + y', z, u);
      if u != [] {
        CloseWithSuffix(s, t, y', u);
        CloseWithSuffix(s, t, y, u[..|u| - 1]);
        CloseWithSuffix(s, t, y', u[..|u| - 1]);
      }
    }
  }

  lemma InsertMovesByOne(at: nat, c: char, s: string, u: string)
    requires at <= |s|
    ensures Within1(Lev(s, u), Lev(s[..at] + [c] + s[at..], u))
  {
    hide Lev;
    var x := s[..at];
    forall v ensures Within1(Lev(x + [c], v), Lev(x, v)) { DropLast(x, c, v); }
    CloseWithSuffix(x + [c], x, s[at..], u);
    assert x + s[at..] == s;
  }

  lemma DeleteMovesByOne(at: nat, s: string, u: string)
    requires at < |s|
    ensures Within1(Lev(s, u), Lev(s[..at] + s[at + 1..], u))
  {
    hide Lev;
    var x := s[..at];
    forall v ensures Within1(Lev(x + [s[at]], v), Lev(x, v)) { DropLast(x, s[at], v); }
    CloseWithSuffix(x + [s[at]], x, s[at + 1..], u);
    assert x + [s[at]] + s[at + 1..] == s;
  }

  lemma ReplaceMovesByOne(at: nat, c: char, s: string, u: string)
    requires at < |s|
    ensures Within1(Lev(s, u), Lev(s[..at] + [c] + s[at + 1..], u))
  {
    hide Lev;
    var x := s[..at];
    forall v ensures Within1(Lev(x + [s[at]], v), Lev(x + [c], v)) { ChangeLast(x, s[at], c, v); }
    CloseWithSuffix(x + [s[at]], x + [c], s[at + 1..], u);
    assert x + [s[at]] + s[at + 1..] == s;
  }

  /** One edit moves the distance to any target by at most one. */
  lemma EditMovesByOne(e: Edit, s: string, u: string)
    requires Applies(e, s)
    ensures Within1(Lev(s, u), Lev(Apply(e, s), u))
  {
    hide Lev;
    match e
    case Insert(at, c) => InsertMovesByOne(at, c, s, u);
    case Delete(at) => DeleteMovesByOne(at, s, u);
    case Replace(at, c) => ReplaceMovesByOne(at, c, s, u);
  }

  /** Every script is at least as long as the recurrence says. */
  lemma {:induction false} NoShorterScript(s: string, script: seq<Edit>, t: string)
    requires Turns(s, script, t)
    ensures Lev(s, t) <= |script|
    decreases |script|
  {
    if script == [] {
      SelfDistance(s);
    } else {
      NoShorterScript(Apply(script[0], s), script[1..], t);
      EditMovesByOne(script[0], s, t);
    }
  }

  lemma {:induction false} SelfDistance(s: string)
    ensures Lev(s, s) == 0
  {
    if s != [] { SelfDistance(s[..|s| - 1]); }
  }

  // ---------------------------------------------------------------- a script that long exists

  lemma {:induction false} TurnsThen(s: string, p: seq<Edit>, t: string, e: Edit)
    requires Turns(s, p, t) && Applies(e, t)
    ensures Turns(s, p + [e], Apply(e, t))
    decreases |p|
  {
    if p == [] {
      assert (p + [e])[1..] == [];
    } else {
      assert (p + [e])[1..] == p[1..] + [e];
      TurnsThen(Apply(p[0], s), p[1..], t, e);
    }
  }

  lemma ApplyUnderSuffix(e: Edit, s: string, c: char)
    requires Applies(e, s)
    ensures Applies(e, s + [c]) && Apply(e, s + [c]) == Apply(e, s) + [c]
  {
    var at := e.at;
    assert (s + [c])[..at] == s[..at] && (s + [c])[at..] == s[at..] + [c];
    if !e.Insert? { assert (s + [c])[at + 1..] == s[at + 1..] + [c]; }
  }

  /** A script for a prefix works with a common last character left alone. */
  lemma {:induction false} TurnsUnderSuffix(s: string, p: seq<Edit>, t: string, c: char)
    requires Turns(s, p, t)
    ensures Turns(s + [c], p, t + [c])
    decreases |p|
  {
    if p != [] {
      ApplyUnderSuffix(p[0], s, c);
      hide Apply;
      TurnsUnderSuffix(Apply(p[0], s), p[1..], t, c);
    }
  }

  lemma DeleteLastThen(a: string, p: seq<Edit>, b: string)
    requires a != [] && Turns(a[..|a| - 1], p, b)
    ensures Turns(a, [Delete(|a| - 1)] + p, b)
  {
    assert a[..|a| - 1] + a[|a|..] == a[..|a| - 1];
    assert ([Delete(|a| - 1)] + p)[1..] == p;
  }

  lemma InsertLastAfter(a: string, p: seq<Edit>, b: string)
    requires b != [] && Turns(a, p, b[..|b| - 1])
    ensures Turns(a, p + [Insert(|b| - 1, b[|b| - 1])], b)
  {
    var b' := b[..|b| - 1];
    TurnsThen(a, p, b', Insert(|b'|, b[|b| - 1]));
    assert Apply(Insert(|b'|, b[|b| - 1]), b') == b;
  }

  /** The last pair of characters is kept or replaced. */
  lemma MatchLastAfter(a: string, p: seq<Edit>, b: string) returns (q: seq<Edit>)
    requires a != [] && b != [] && Turns(a[..|a| - 1], p, b[..|b| - 1])
    ensures Turns(a, q, b) && |q| == |p| + Cost(a[|a| - 1], b[|b| - 1])
  {
    hide Turns;
    var a', b', c, d := a[..|a| - 1], b[..|b| - 1], a[|a| - 1], b[|b| - 1];
    TurnsUnderSuffix(a', p, b', c);
    assert a' + [c] == a;
    if c == d {
      assert b' + [c] == b;
      q := p;
    } else {
      TurnsThen(a, p, b' + [c], Replace(|b'|, d));
      assert Apply(Replace(|b'|, d), b' + [c]) == b;
      q := p + [Replace(|b'|, d)];
    }
  }

  lemma {:induction false} BestScript(a: string, b: string) returns (p: seq<Edit>)
    ensures Turns(a, p, b) && |p| == Lev(a, b)
    decreases |a| + |b|
  {
    hide Turns, Apply;
    if a == [] && b == [] {
      p := [];
      Nothing();
    } else if b != [] && (a == [] || Lev(a, b) == Lev(a, b[..|b| - 1]) + 1) {
      var q := BestScript(a, b[..|b| - 1]);
      InsertLastAfter(a, q, b);
      p := q + [Insert(|b| - 1, b[|b| - 1])];
    } else if b == [] || Lev(a, b) == Lev(a[..|a| - 1], b) + 1 {
      EmptyTarget(a[..|a| - 1]);
      var q := BestScript(a[..|a| - 1], b);
      DeleteLastThen(a, q, b);
      p := [Delete(|a| - 1)] + q;
    } else {
      var q := BestScript(a[..|a| - 1], b[..|b| - 1]);
      p := MatchLastAfter(a, q, b);
    }
  }

  lemma Nothing()
    ensures Turns("", [], "")
  {
  }

  /** The recurrence is the minimum number of single-character inserts, deletes and substitutions. */
  lemma LevIsMinimum(a: string, b: string)
    ensures exists p :: Turns(a, p, b) && |p| == Lev(a, b)
    ensures forall p | Turns(a, p, b) :: Lev(a, b) <= |p|
  {
    var p := BestScript(a, b);
    forall p | Turns(a, p, b) ensures Lev(a, b) <= |p| { NoShorterScript(a, p, b); }
  }

  // ---------------------------------------------------------------- the shortcuts

  lemma {:induction false} Symmetric(a: string, b: string)
    ensures Lev(a, b) == Lev(b, a)
    decreases |a| + |b|
  {
    if a != [] && b != [] {
      Symmetric(a[..|a| - 1], b);
      Symmetric(a, b[..|b| - 1]);
      Symmetric(a[..|a| - 1], b[..|b| - 1]);
    }
  }

  lemma {:induction false} AtLeastLengthGap(a: string, b: string)
    ensures Lev(a, b) >= |a| - |b| && Lev(a, b) >= |b| - |a|
    decreases |a| + |b|
  {
    if a != [] && b != [] {
      AtLeastLengthGap(a[..|a| - 1], b);
      AtLeastLengthGap(a, b[..|b| - 1]);
      AtLeastLengthGap(a[..|a| - 1], b[..|b| - 1]);
    }
  }

  /** The final distance is never below the minimum of any row. */
  lemma {:induction false} AtLeastRowMinimum(a: string, b: string, i: nat, least: nat)
    requires i <= |a| && forall j | 0 <= j <= |b| :: least <= Lev(a[..i], b[..j])
    ensures least <= Lev(a, b)
    decreases |a| + |b|
  {
    if i == |a| {
      assert a[..i] == a && b[..|b|] == b;
    } else if b == [] {
      assert least <= Lev(a[..i], b[..0]);
      EmptyTarget(a[..i]);
    } else {
      var a', b' := a[..|a| - 1], b[..|b| - 1];
      assert a'[..i] == a[..i];
      forall j | 0 <= j <= |b'| ensures least <= Lev(a[..i], b'[..j]) { assert b'[..j] == b[..j]; }
      AtLeastRowMinimum(a', b, i, least);
      AtLeastRowMinimum(a, b', i, least);
      AtLeastRowMinimum(a', b', i, least);
    }
  }

  // ---------------------------------------------------------------- the code

  /** Bytes a character takes in UTF-8, the unit in which the code measures a string before comparing. */
  function Width(c: char): nat {
    if c as int < 0x80 then 1 else if c as int < 0x800 then 2 else if c as int < 0x1_0000 then 3 else 4
  }

  function ByteLen(s: string): nat {
    if s == [] then 0 else ByteLen(s[..|s| - 1]) + Width(s[|s| - 1])
  }

  function ByteGap(a: string, b: string): nat {
    if ByteLen(a) <= ByteLen(b) then ByteLen(b) - ByteLen(a) else ByteLen(a) - ByteLen(b)
  }

  predicate Ascii(s: string) {
    forall i | 0 <= i < |s| :: s[i] as int < 0x80
  }

  lemma {:induction false} AsciiByteLen(s: string)
    requires Ascii(s)
    ensures ByteLen(s) == |s|
  {
    if s != [] { AsciiByteLen(s[..|s| - 1]); }
  }

  /** What a bounded distance has to answer. */
  ghost predicate Answers(r: nat, a: string, b: string, maxDist: nat) {
    if Lev(a, b) <= maxDist then r == Lev(a, b) else r > maxDist
  }

  /** What the code's own comment promises: one more than the bound when the bound is exceeded. */
  ghost predicate AnswersAsDocumented(r: nat, a: string, b: string, maxDist: nat) {
    r == if Lev(a, b) <= maxDist then Lev(a, b) else maxDist + 1
  }

  /** Every entry of row `i` is above the bound. */
  ghost predicate RowExceeds(a: string, b: string, i: nat, maxDist: nat)
    requires i <= |a|
  {
    forall j | 0 <= j <= |b| :: Lev(a[..i], b[..j]) > maxDist
  }

  /** Some row makes the table loop stop early. */
  ghost predicate StopsEarly(a: string, b: string, maxDist: nat) {
    exists i: nat :: 1 <= i <= |a| && RowExceeds(a, b, i, maxDist)
  }

  function Shorter(a: string, b: string): string { if ByteLen(a) > ByteLen(b) then b else a }

  function Longer(a: string, b: string): string { if ByteLen(a) > ByteLen(b) then a else b }

  /** What `levenshtein` returns. */
  ghost function Returned(first: string, second: string, maxDist: nat): nat {
    if ByteGap(first, second) > maxDist || StopsEarly(Shorter(first, second), Longer(first, second), maxDist)
    then maxDist + 1 else Lev(first, second)
  }

  /** `levenshtein`. The bounded answer is right exactly when the byte-length cut does not fire or the distance really
      exceeds the bound; for ASCII that is always. The documented answer takes more: an exceeded bound gives
      `max_dist + 1` only if the cut fires, a row stops the loop, or the distance is just that. */
  method Levenshtein(first: string, second: string, maxDist: nat) returns (r: nat)
    ensures r == Returned(first, second, maxDist)
    ensures Answers(r, first, second, maxDist) <==>
              ByteGap(first, second) <= maxDist || Lev(first, second) > maxDist
    ensures AnswersAsDocumented(r, first, second, maxDist) <==>
              if ByteGap(first, second) > maxDist then Lev(first, second) > maxDist
              else
                || Lev(first, second) <= maxDist + 1
                || StopsEarly(Shorter(first, second), Longer(first, second), maxDist)
    ensures Ascii(first) && Ascii(second) ==> Answers(r, first, second, maxDist)
  {
    hide Lev;
    var a, b := first, second;
    if ByteLen(a) > ByteLen(b) { a, b := b, a; }
    Symmetric(first, second);
    AtLeastLengthGap(first, second);
    if Ascii(first) && Ascii(second) { AsciiByteLen(first); AsciiByteLen(second); }

    if ByteLen(b) - ByteLen(a) > maxDist { return maxDist + 1; }

    r := Table(a, b, maxDist);
  }

  /** The table, two rows at a time: the distance, or one more than the bound if a whole row exceeds it. */
  method Table(a: string, b: string, maxDist: nat) returns (r: nat)
    ensures r == if StopsEarly(a, b, maxDist) then maxDist + 1 else Lev(a, b)
    ensures StopsEarly(a, b, maxDist) ==> Lev(a, b) > maxDist
    ensures Answers(r, a, b, maxDist)
  {
    var la, lb := |a|, |b|;
    var prev := new nat[lb + 1](j => j);
    assert a[..0] == "";
    for i := 0 to la
      invariant IsRow(prev, a, b, i)
      invariant forall l: nat | 1 <= l <= i :: !RowExceeds(a, b, l, maxDist)
    {
      hide Lev;
      var curr, rowMin := Row(a, b, i, prev);
      if rowMin > maxDist {
        AtLeastRowMinimum(a, b, i + 1, maxDist + 1);
        assert RowExceeds(a, b, i + 1, maxDist);
        return maxDist + 1;
      }
      prev := curr;
    }
    assert a[..la] == a && b[..lb] == b;
    return prev[lb];
  }

  /** `row` holds the distances from the first `i` characters of `a` to every prefix of `b`. */
  ghost predicate IsRow(row: array<nat>, a: string, b: string, i: nat)
    reads row
  {
    && i <= |a| && row.Length == |b| + 1
    && forall j | 0 <= j <= |b| :: row[j] == Lev(a[..i], b[..j])
  }

  /** The inner loop: one row from the one above, with its minimum. */
  method Row(a: string, b: string, i: nat, prev: array<nat>) returns (curr: array<nat>, rowMin: nat)
    requires i < |a| && IsRow(prev, a, b, i)
    ensures fresh(curr) && IsRow(curr, a, b, i + 1)
    ensures forall j | 0 <= j <= |b| :: rowMin <= Lev(a[..i + 1], b[..j])
    ensures exists j :: 0 <= j <= |b| && rowMin == Lev(a[..i + 1], b[..j])
  {
    hide Lev;
    var lb := |b|;
    curr := new nat[lb + 1](_ => i + 1);
    EmptyTarget(a[..i + 1]);
    rowMin := curr[0];
    for j := 0 to lb
      invariant forall l | 0 <= l <= j :: curr[l] == Lev(a[..i + 1], b[..l])
      invariant forall l | 0 <= l <= j :: rowMin <= Lev(a[..i + 1], b[..l])
      invariant exists l :: 0 <= l <= j && rowMin == Lev(a[..i + 1], b[..l])
    {
      Cell(a, b, i, j);
      var cost := Cost(a[i], b[j]);
      curr[j + 1] := Min(Min(prev[j + 1] + 1, curr[j] + 1), prev[j] + cost);
      rowMin := Min(rowMin, curr[j + 1]);
    }
  }

  lemma Cell(a: string, b: string, i: nat, j: nat)
    requires i < |a| && j < |b|
    ensures Lev(a[..i + 1], b[..j + 1])
            == Min(Min(Lev(a[..i], b[..j + 1]) + 1, Lev(a[..i + 1], b[..j]) + 1),
                   Lev(a[..i], b[..j]) + Cost(a[i], b[j]))
  {
    assert a[..i + 1][..i] == a[..i] && b[..j + 1][..j] == b[..j];
  }

  /** Outside ASCII the cut can fire wrongly: one two-byte character is one insertion away from nothing. */
  lemma ByteCutCanBeWrong()
    ensures ByteGap("", "\U{E9}") == 2 && Lev("", "\U{E9}") == 1
  {
    assert ByteLen("\U{E9}"[..0]) == 0;
  }

  lemma EmptySource(b: string)
    ensures Lev("", b) == |b|
  {
  }

  /** One row of a four-column table, cell by cell. */
  lemma RowOfFour(a: string, b: string, i: nat, d0: nat, d1: nat, d2: nat, d3: nat, d4: nat)
    requires i < |a| && |b| == 4
    requires Lev(a[..i], b[..0]) == d0 && Lev(a[..i], b[..1]) == d1 && Lev(a[..i], b[..2]) == d2
    requires Lev(a[..i], b[..3]) == d3 && Lev(a[..i], b[..4]) == d4
    ensures var e0 := i + 1;
            var e1 := Min(Min(d1 + 1, e0 + 1), d0 + Cost(a[i], b[0]));
            var e2 := Min(Min(d2 + 1, e1 + 1), d1 + Cost(a[i], b[1]));
            var e3 := Min(Min(d3 + 1, e2 + 1), d2 + Cost(a[i], b[2]));
            var e4 := Min(Min(d4 + 1, e3 + 1), d3 + Cost(a[i], b[3]));
            && Lev(a[..i + 1], b[..0]) == e0 && Lev(a[..i + 1], b[..1]) == e1 && Lev(a[..i + 1], b[..2]) == e2
            && Lev(a[..i + 1], b[..3]) == e3 && Lev(a[..i + 1], b[..4]) == e4
  {
    hide Lev;
    EmptyTarget(a[..i + 1]);
    Cell(a, b, i, 0);
    Cell(a, b, i, 1);
    Cell(a, b, i, 2);
    Cell(a, b, i, 3);
  }

  /** Three distinct letters against the last two of them and two foreign ones. */
  predicate Shifted(a: string, b: string) {
    && |a| == 3 && |b| == 4 && a[1] == b[0] && a[2] == b[1] && Ascii(a) && Ascii(b)
    && a[0] != a[1] && a[0] != a[2] && a[1] != a[2] && b[2] !in a && b[3] !in a
  }

  lemma ShiftedTable(a: string, b: string)
    requires Shifted(a, b)
    ensures Lev(a[..1], b[..1]) == 1 && Lev(a[..2], b[..1]) == 1 && Lev(a[..3], b[..2]) == 1
    ensures Lev(a[..3], b[..4]) == 3
  {
    hide Lev, Ascii;
    forall j | 0 <= j <= 4 ensures Lev(a[..0], b[..j]) == j { EmptySource(b[..j]); }
    RowOfFour(a, b, 0, 0, 1, 2, 3, 4);
    RowOfFour(a, b, 1, 1, 1, 2, 3, 4);
    RowOfFour(a, b, 2, 2, 1, 2, 3, 4);
  }

  /** The documented result is missed on every such pair: at bound one every row keeps an entry at the bound, so the
      loop runs through and the distance, three, comes back. */
  lemma ReturnsMoreThanDocumented(a: string, b: string)
    requires Shifted(a, b)
    ensures Returned(a, b, 1) == 3 && !AnswersAsDocumented(3, a, b, 1)
  {
    AsciiByteLen(a);
    AsciiByteLen(b);
    ShiftedTable(a, b);
    assert a[..3] == a && b[..4] == b;
    hide Lev, ByteLen, Ascii;
    forall i: nat | 1 <= i <= 3 ensures !RowExceeds(a, b, i, 1) {
      assert Lev(a[..i], b[..if i == 3 then 2 else 1]) == 1;
    }
  }

  lemma DocumentedResultMissed()
    ensures Returned("xyz", "yzqq", 1) == 3 && !AnswersAsDocumented(3, "xyz", "yzqq", 1)
  {
    hide Returned, AnswersAsDocumented;
    assert Shifted("xyz", "yzqq");
    ReturnsMoreThanDocumented("xyz", "yzqq");
  }
}
