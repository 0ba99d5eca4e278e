/** The fixed row pattern of `get_queue` (src/main.rs:98-112), written out
    as a sequence of tokens, and a recogniser for it.

    A row is `<tr>`, one arbitrary character, five cells and `</tr>`. A cell
    is `<td style=`, one arbitrary character, `background-color: `, a colour,
    `; text-align:  ` (two spaces), an alignment, `;`, one arbitrary
    character, `>`, the captured field, `</td>` and one arbitrary character.
    The pattern runs with the `s` flag, so "arbitrary" includes a newline.

    The recogniser never backtracks. That is exact for this pattern: the two
    alternations have options that differ in their first letter, and every
    captured field is followed by `</td>`, whose `<` is in no field class, so
    the greedy run of field characters is the only one that can succeed. */
module Rows {
  import opened Outcomes
  import opened Chars

  /** One element of the pattern. */
  datatype Token =
    | Lit(text: string)            // the text itself
    | Any                          // `.` under the `s` flag: any one character
    | OneOf(options: seq<string>)  // an alternation `(a|b|…)`
    | Field(kind: FieldClass)     // a capture group `[…]+`

  /** What one token matched. */
  datatype Piece = Fixed | Char(c: char) | Choice(index: nat) | Text(t: string)

  /** A field the pattern can capture: one or more characters of its class. */
  predicate FieldOk(t: string, k: FieldClass) {
    |t| > 0 && forall j :: 0 <= j < |t| ==> InClass(t[j], k)
  }

  predicate Fits(tok: Token, pc: Piece) {
    match tok
    case Lit(_) => pc.Fixed?
    case Any => pc.Char?
    case OneOf(opts) => pc.Choice? && pc.index < |opts|
    case Field(k) => pc.Text? && FieldOk(pc.t, k)
  }

  /** Each piece fits its token. */
  predicate FitsAll(pat: seq<Token>, ps: seq<Piece>)
    decreases |pat|
  {
    |pat| == |ps| && (|pat| == 0 || (Fits(pat[0], ps[0]) && FitsAll(pat[1..], ps[1..])))
  }

  lemma {:induction false} FitsAllIndex(pat: seq<Token>, ps: seq<Piece>)
    ensures FitsAll(pat, ps) <==> |pat| == |ps| && forall j :: 0 <= j < |pat| ==> Fits(pat[j], ps[j])
    decreases |pat|
  {
    if |pat| > 0 && |pat| == |ps| {
      FitsAllIndex(pat[1..], ps[1..]);
      assert forall j :: 1 <= j < |pat| ==> pat[1..][j - 1] == pat[j] && ps[1..][j - 1] == ps[j];
    }
  }

  /** The text a token stands for once its piece is chosen. */
  function Spell(tok: Token, pc: Piece): string
    requires Fits(tok, pc)
  {
    match tok
    case Lit(t) => t
    case Any => [pc.c]
    case OneOf(opts) => opts[pc.index]
    case Field(_) => pc.t
  }

  /** The text a pattern stands for once all its pieces are chosen. */
  function Render(pat: seq<Token>, ps: seq<Piece>): string
    requires FitsAll(pat, ps)
    decreases |pat|
  {
    if |pat| == 0 then [] else Spell(pat[0], ps[0]) + Render(pat[1..], ps[1..])
  }

  /** The captured fields, in pattern order. */
  function Captures(pat: seq<Token>, ps: seq<Piece>): seq<string>
    requires FitsAll(pat, ps)
    decreases |pat|
  {
    if |pat| == 0 then []
    else (if pat[0].Field? then [ps[0].t] else []) + Captures(pat[1..], ps[1..])
  }

  /** The classes of the pattern's capture groups, in pattern order. */
  function FieldClasses(pat: seq<Token>): seq<FieldClass>
    decreases |pat|
  {
    if |pat| == 0 then []
    else (if pat[0].Field? then [pat[0].kind] else []) + FieldClasses(pat[1..])
  }

  // ---------------------------------------------------------------------
  // The pattern of src/main.rs:98-112

  const TrOpen: string := "<tr>"
  const TrClose: string := "</tr>"
  const TdOpen: string := "<td style="
  const ColourKey: string := "background-color: "
  const AlignKey: string := "; text-align:  "
  const TdClose: string := "</td>"
  const Colours: seq<string> := ["yellow", "white"]
  const Aligns: seq<string> := ["left", "center", "right"]

  /** The class of each of a row's five capture groups: host, ud, uptime, users, load. */
  const RowClasses: seq<FieldClass> := [NameClass, NameClass, UptimeClass, DigitClass, LoadClass]

  function CellPattern(k: FieldClass): seq<Token> {
    [ Lit(TdOpen), Any, Lit(ColourKey), OneOf(Colours), Lit(AlignKey), OneOf(Aligns),
      Lit(";"), Any, Lit(">"), Field(k), Lit(TdClose), Any ]
  }

  function CellsPattern(ks: seq<FieldClass>): seq<Token>
    decreases |ks|
  {
    if |ks| == 0 then [] else CellPattern(ks[0]) + CellsPattern(ks[1..])
  }

  /** A row of cells of the given classes. */
  function RowShape(ks: seq<FieldClass>): seq<Token> {
    [Lit(TrOpen), Any] + CellsPattern(ks) + [Lit(TrClose)]
  }

  function RowPattern(): seq<Token> {
    RowShape(RowClasses)
  }

  // ---------------------------------------------------------------------
  // Text positions

  /** `t` occurs in `s` starting at index `i`. */
  predicate Occurs(t: string, s: string, i: nat)
    decreases |s| - i
  {
    i + |t| <= |s| && (|t| == 0 || (s[i] == t[0] && Occurs(t[1..], s, i + 1)))
  }

  lemma {:induction false} OccursSlice(t: string, s: string, i: nat)
    ensures Occurs(t, s, i) <==> i + |t| <= |s| && s[i..i + |t|] == t
    decreases |t|
  {
    if |t| > 0 && i + |t| <= |s| {
      OccursSlice(t[1..], s, i + 1);
      if s[i..i + |t|] == t {
        assert s[i + 1..i + |t|] == t[1..];
      }
      if s[i] == t[0] && s[i + 1..i + |t|] == t[1..] {
        assert s[i..i + |t|] == [t[0]] + t[1..];
      }
    }
  }

  lemma {:induction false} OccursConcat(a: string, b: string, s: string, i: nat)
    ensures Occurs(a + b, s, i) <==> Occurs(a, s, i) && Occurs(b, s, i + |a|)
    decreases |a|
  {
    if |a| == 0 {
      assert a + b == b;
    } else {
      assert (a + b)[0] == a[0];
      assert (a + b)[1..] == a[1..] + b;
      OccursConcat(a[1..], b, s, i + 1);
    }
  }

  /** End of the longest run of class-`k` characters starting at `i`: the
      greedy `[…]+` of the pattern. */
  function RunEnd(s: string, i: nat, k: FieldClass): (j: nat)
    requires i <= |s|
    ensures i <= j <= |s|
    ensures forall m :: i <= m < j ==> InClass(s[m], k)
    ensures j == |s| || !InClass(s[j], k)
    decreases |s| - i
  {
    if i == |s| || !InClass(s[i], k) then i else RunEnd(s, i + 1, k)
  }

  /** Index of the first option, from `j` on, that occurs at `i`. */
  function FirstOption(s: string, i: nat, opts: seq<string>, j: nat): (r: Option<nat>)
    requires j <= |opts|
    ensures r.Some? ==> j <= r.value < |opts| && Occurs(opts[r.value], s, i)
    ensures r.None? ==> forall a :: j <= a < |opts| ==> !Occurs(opts[a], s, i)
    decreases |opts| - j
  {
    if j == |opts| then None
    else if Occurs(opts[j], s, i) then Some(j)
    else FirstOption(s, i, opts, j + 1)
  }

  // ---------------------------------------------------------------------
  // The recogniser

  /** Matches one token at `i`; what it matched spells the token out. */
  function MatchToken(s: string, i: nat, tok: Token): (r: Option<(Piece, nat)>)
    requires i <= |s|
    ensures r.Some? ==> Fits(tok, r.value.0) && Occurs(Spell(tok, r.value.0), s, i)
    ensures r.Some? ==> r.value.1 == i + |Spell(tok, r.value.0)| <= |s|
  {
    match tok
    case Lit(t) => if Occurs(t, s, i) then Some((Fixed, i + |t|)) else None
    case Any => if i < |s| then Some((Char(s[i]), i + 1)) else None
    case OneOf(opts) =>
      (match FirstOption(s, i, opts, 0)
       case None => None
       case Some(j) => Some((Choice(j), i + |opts[j]|)))
    case Field(k) =>
      var q := RunEnd(s, i, k);
      if q == i then None
      else
        OccursSlice(s[i..q], s, i);
        Some((Text(s[i..q]), q))
  }

  /** Matches the tokens of `pat` one after another from `i`; returns the
      pieces and the index after the last one. A match is sound: the
      pieces fit the pattern and spell out the text from `i` to the end. */
  function MatchTokens(s: string, i: nat, pat: seq<Token>): (r: Option<(seq<Piece>, nat)>)
    requires i <= |s|
    ensures r.Some? ==> FitsAll(pat, r.value.0) && Occurs(Render(pat, r.value.0), s, i)
    ensures r.Some? ==> r.value.1 == i + |Render(pat, r.value.0)| <= |s|
    decreases |s| - i, |pat|
  {
    if |pat| == 0 then Some(([], i))
    else match MatchToken(s, i, pat[0])
    case None => None
    case Some((pc, q)) =>
      match MatchTokens(s, q, pat[1..])
      case None => None
      case Some((ps, e)) =>
        FitsCons(pat, pc, ps);
        OccursConcat(Spell(pat[0], pc), Render(pat[1..], ps), s, i);
        Some(([pc] + ps, e))
  }

  /** Pieces fit a pattern when the first fits its token and the rest fit the rest. */
  lemma FitsCons(pat: seq<Token>, pc: Piece, ps: seq<Piece>)
    requires |pat| > 0 && Fits(pat[0], pc) && FitsAll(pat[1..], ps)
    ensures FitsAll(pat, [pc] + ps)
    ensures Render(pat, [pc] + ps) == Spell(pat[0], pc) + Render(pat[1..], ps)
  {
    var all := [pc] + ps;
    assert all[0] == pc && all[1..] == ps;
  }

  // ---------------------------------------------------------------------
  // When the greedy, non-backtracking recogniser is exact

  /** Options that are non-empty and pairwise differ in their first letter. */
  predicate DistinctStarts(opts: seq<string>) {
    (forall a :: 0 <= a < |opts| ==> |opts[a]| > 0) &&
    (forall a, b :: 0 <= a < b < |opts| ==> opts[a][0] != opts[b][0])
  }

  /** Token `j` cannot make the recogniser miss a match: an alternation has
      distinct first letters, and a field is followed by a literal whose
      first letter is outside the field's class. */
  predicate GuardedAt(pat: seq<Token>, j: nat)
    requires j < |pat|
  {
    match pat[j]
    case OneOf(opts) => DistinctStarts(opts)
    case Field(k) =>
      j + 1 < |pat| && pat[j + 1].Lit? && |pat[j + 1].text| > 0 && !InClass(pat[j + 1].text[0], k)
    case _ => true
  }

  predicate Deterministic(pat: seq<Token>)
    decreases |pat|
  {
    |pat| == 0 || (GuardedAt(pat, 0) && Deterministic(pat[1..]))
  }

  lemma {:induction false} DeterministicIndex(pat: seq<Token>)
    ensures Deterministic(pat) <==> forall j :: 0 <= j < |pat| ==> GuardedAt(pat, j)
    decreases |pat|
  {
    if |pat| > 0 {
      DeterministicIndex(pat[1..]);
      forall j | 0 <= j < |pat| - 1
        ensures GuardedAt(pat[1..], j) <==> GuardedAt(pat, j + 1)
      {
        assert pat[1..][j] == pat[j + 1];
        if j + 2 < |pat| {
          assert pat[1..][j + 1] == pat[j + 2];
        }
      }
      if forall j :: 0 <= j < |pat| ==> GuardedAt(pat, j) {
        assert GuardedAt(pat, 0);
      }
      if Deterministic(pat) {
        forall j | 0 <= j < |pat| ensures GuardedAt(pat, j) {
          if j > 0 {
            assert GuardedAt(pat[1..], j - 1);
          }
        }
      }
    }
  }

  lemma MatchTokenComplete(s: string, i: nat, tok: Token, pc: Piece, q: nat)
    requires i <= |s| && Fits(tok, pc) && Occurs(Spell(tok, pc), s, i) && q == i + |Spell(tok, pc)|
    requires tok.OneOf? ==> DistinctStarts(tok.options)
    requires tok.Field? ==> q == |s| || !InClass(s[q], tok.kind)
    ensures MatchToken(s, i, tok) == Some((pc, q))
  {
    match tok
    case Lit(_) =>
    case Any =>
    case OneOf(opts) =>
    case Field(k) =>
      OccursSlice(pc.t, s, i);
      assert forall m :: i <= m < q ==> s[m] == pc.t[m - i];
  }

  /** After a field, the text continues with a letter outside the field's class. */
  lemma FieldFollowed(s: string, pat: seq<Token>, ps: seq<Piece>, q: nat)
    requires |pat| > 0 && pat[0].Field? && GuardedAt(pat, 0) && FitsAll(pat, ps)
    requires Occurs(Render(pat[1..], ps[1..]), s, q)
    ensures q < |s| && !InClass(s[q], pat[0].kind)
  {
    var l := pat[1].text;
    assert Fits(pat[1..][0], ps[1..][0]);
    assert Render(pat[1..], ps[1..]) == l + Render(pat[2..], ps[2..]);
    OccursConcat(l, Render(pat[2..], ps[2..]), s, q);
  }

  /** One step of the recogniser: a token followed by the rest of the pattern. */
  lemma MatchTokensCons(s: string, i: nat, pat: seq<Token>, pc: Piece, q: nat, ps: seq<Piece>, e: nat)
    requires i <= |s| && |pat| > 0
    requires MatchToken(s, i, pat[0]) == Some((pc, q)) && MatchTokens(s, q, pat[1..]) == Some((ps, e))
    ensures MatchTokens(s, i, pat) == Some(([pc] + ps, e))
  {
  }

  /** The first token of a spelled-out deterministic pattern is recognised,
      and the rest of the pattern is spelled out after it. */
  lemma CompleteStep(s: string, i: nat, pat: seq<Token>, ps: seq<Piece>)
    requires i <= |s| && |pat| > 0 && Deterministic(pat) && FitsAll(pat, ps)
    requires Occurs(Render(pat, ps), s, i)
    ensures MatchToken(s, i, pat[0]) == Some((ps[0], i + |Spell(pat[0], ps[0])|))
    ensures Deterministic(pat[1..]) && FitsAll(pat[1..], ps[1..])
    ensures Occurs(Render(pat[1..], ps[1..]), s, i + |Spell(pat[0], ps[0])|)
    ensures |Render(pat, ps)| == |Spell(pat[0], ps[0])| + |Render(pat[1..], ps[1..])|
  {
    var w := Spell(pat[0], ps[0]);
    var q := i + |w|;
    OccursConcat(w, Render(pat[1..], ps[1..]), s, i);
    if pat[0].Field? {
      FieldFollowed(s, pat, ps, q);
    }
    MatchTokenComplete(s, i, pat[0], ps[0], q);
  }

  lemma {:induction false} MatchTokensComplete(s: string, i: nat, pat: seq<Token>, ps: seq<Piece>, e: nat)
    requires i <= |s| && Deterministic(pat) && FitsAll(pat, ps)
    requires Occurs(Render(pat, ps), s, i) && e == i + |Render(pat, ps)|
    ensures MatchTokens(s, i, pat) == Some((ps, e))
    decreases |pat|
  {
    if |pat| > 0 {
      CompleteStep(s, i, pat, ps);
      var q := i + |Spell(pat[0], ps[0])|;
      MatchTokensComplete(s, q, pat[1..], ps[1..], e);
      MatchTokensCons(s, i, pat, ps[0], q, ps[1..], e);
      assert [ps[0]] + ps[1..] == ps;
    }
  }

  // ---------------------------------------------------------------------
  // The row pattern is deterministic, and its captures are its five fields

  lemma DeterministicConcat(a: seq<Token>, b: seq<Token>)
    requires Deterministic(a) && Deterministic(b)
    requires |a| > 0 ==> !a[|a| - 1].Field?
    ensures Deterministic(a + b)
  {
    var ab := a + b;
    DeterministicIndex(a);
    DeterministicIndex(b);
    DeterministicIndex(ab);
    forall j | 0 <= j < |ab|
      ensures GuardedAt(ab, j)
    {
      if j < |a| {
        assert GuardedAt(a, j);
        assert ab[j] == a[j];
        if j + 1 < |a| {
          assert ab[j + 1] == a[j + 1];
        }
      } else {
        assert GuardedAt(b, j - |a|);
        assert ab[j] == b[j - |a|];
        if j + 1 < |ab| {
          assert ab[j + 1] == b[j + 1 - |a|];
        }
      }
    }
  }

  lemma CellDeterministic(k: FieldClass)
    ensures Deterministic(CellPattern(k))
  {
    var p := CellPattern(k);
    assert DistinctStarts(Colours) by {
      assert Colours[0][0] == 'y' && Colours[1][0] == 'w';
    }
    assert DistinctStarts(Aligns) by {
      assert Aligns[0][0] == 'l' && Aligns[1][0] == 'c' && Aligns[2][0] == 'r';
    }
    assert TdClose[0] == '<';
    forall j | 0 <= j < |p|
      ensures GuardedAt(p, j)
    {
    }
    DeterministicIndex(p);
  }

  lemma {:induction false} CellsDeterministic(ks: seq<FieldClass>)
    ensures Deterministic(CellsPattern(ks))
    decreases |ks|
  {
    if |ks| > 0 {
      CellDeterministic(ks[0]);
      CellsDeterministic(ks[1..]);
      DeterministicConcat(CellPattern(ks[0]), CellsPattern(ks[1..]));
    }
  }

  lemma RowDeterministic()
    ensures Deterministic(RowPattern())
  {
    var cells := CellsPattern(RowClasses);
    CellsDeterministic(RowClasses);
    assert Deterministic([Lit(TrOpen), Any]) by {
      var h: seq<Token> := [Lit(TrOpen), Any];
      assert GuardedAt(h, 0) && GuardedAt(h[1..], 0);
    }
    assert Deterministic([Lit(TrClose)]) by {
      var t: seq<Token> := [Lit(TrClose)];
      assert GuardedAt(t, 0) && t[1..] == [];
    }
    DeterministicConcat([Lit(TrOpen), Any], cells);
    CellsNotEndingInField(RowClasses);
    DeterministicConcat([Lit(TrOpen), Any] + cells, [Lit(TrClose)]);
  }

  lemma CellsNotEndingInField(ks: seq<FieldClass>)
    ensures var c := CellsPattern(ks); |c| > 0 ==> !c[|c| - 1].Field?
    decreases |ks|
  {
    if |ks| > 0 {
      CellsNotEndingInField(ks[1..]);
      var c := CellsPattern(ks);
      var rest := CellsPattern(ks[1..]);
      if |rest| == 0 {
        assert c[|c| - 1] == Any;
      } else {
        assert c[|c| - 1] == rest[|rest| - 1];
      }
    }
  }

  lemma {:induction false} FieldClassesConcat(a: seq<Token>, b: seq<Token>)
    ensures FieldClasses(a + b) == FieldClasses(a) + FieldClasses(b)
    decreases |a|
  {
    if |a| == 0 {
      assert a + b == b;
    } else {
      assert (a + b)[0] == a[0];
      assert (a + b)[1..] == a[1..] + b;
      FieldClassesConcat(a[1..], b);
    }
  }

  /** A pattern without capture groups has no field classes. */
  lemma {:induction false} FieldClassesNone(p: seq<Token>)
    requires forall j :: 0 <= j < |p| ==> !p[j].Field?
    ensures FieldClasses(p) == []
    decreases |p|
  {
    if |p| > 0 {
      assert forall j :: 0 <= j < |p| - 1 ==> p[1..][j] == p[j + 1];
      FieldClassesNone(p[1..]);
    }
  }

  lemma CellFieldClasses(k: FieldClass)
    ensures FieldClasses(CellPattern(k)) == [k]
  {
    var head: seq<Token> := [Lit(TdOpen), Any, Lit(ColourKey), OneOf(Colours), Lit(AlignKey), OneOf(Aligns),
                             Lit(";"), Any, Lit(">")];
    var tail: seq<Token> := [Lit(TdClose), Any];
    assert CellPattern(k) == head + ([Field(k)] + tail);
    FieldClassesNone(head);
    FieldClassesNone(tail);
    FieldClassesConcat(head, [Field(k)] + tail);
    FieldClassesConcat([Field(k)], tail);
    assert FieldClasses([Field(k)]) == [k];
  }

  lemma {:induction false} CellsFieldClasses(ks: seq<FieldClass>)
    ensures FieldClasses(CellsPattern(ks)) == ks
    decreases |ks|
  {
    if |ks| > 0 {
      CellFieldClasses(ks[0]);
      CellsFieldClasses(ks[1..]);
      FieldClassesConcat(CellPattern(ks[0]), CellsPattern(ks[1..]));
      assert [ks[0]] + ks[1..] == ks;
    }
  }

  lemma ShapeFieldClasses(ks: seq<FieldClass>)
    ensures FieldClasses(RowShape(ks)) == ks
  {
    var head: seq<Token> := [Lit(TrOpen), Any];
    var tail: seq<Token> := [Lit(TrClose)];
    FieldClassesNone(head);
    FieldClassesNone(tail);
    CellsFieldClasses(ks);
    FieldClassesConcat(head, CellsPattern(ks));
    FieldClassesConcat(head + CellsPattern(ks), tail);
  }

  /** The row pattern's capture groups are, in order, host, ud, uptime, users and load. */
  lemma RowFieldClasses()
    ensures FieldClasses(RowPattern()) == RowClasses
  {
    ShapeFieldClasses(RowClasses);
  }

  /** Each capture is a non-empty string of its group's class. */
  lemma {:induction false} CapturesClasses(pat: seq<Token>, ps: seq<Piece>)
    requires FitsAll(pat, ps)
    ensures |Captures(pat, ps)| == |FieldClasses(pat)|
    ensures forall j :: 0 <= j < |Captures(pat, ps)| ==> FieldOk(Captures(pat, ps)[j], FieldClasses(pat)[j])
    decreases |pat|
  {
    if |pat| > 0 {
      assert Fits(pat[0], ps[0]);
      CapturesClasses(pat[1..], ps[1..]);
    }
  }

  // ---------------------------------------------------------------------
  // Rows

  /** A pattern that opens with a literal starting with `<`. */
  predicate StartsWithTag(pat: seq<Token>) {
    |pat| > 0 && pat[0].Lit? && |pat[0].text| > 0 && pat[0].text[0] == '<'
  }

  /** Such a pattern matches only where the text has a `<`, and never
      matches the empty text. */
  lemma MatchNeedsTag(s: string, pat: seq<Token>, i: nat)
    requires i <= |s| && StartsWithTag(pat)
    ensures MatchTokens(s, i, pat).Some? ==> i < |s| && s[i] == '<' && MatchTokens(s, i, pat).value.1 > i
  {
    if MatchTokens(s, i, pat).Some? {
      var ps := MatchTokens(s, i, pat).value.0;
      assert Fits(pat[0], ps[0]);
      var rest := Render(pat[1..], ps[1..]);
      assert Render(pat, ps) == pat[0].text + rest;
      OccursConcat(pat[0].text, rest, s, i);
    }
  }

  lemma RowStartsWithTag()
    ensures StartsWithTag(RowPattern())
  {
    assert RowPattern()[0] == Lit(TrOpen);
  }

  /** The matcher finds a row at `i` exactly when the row pattern, with
      some choice of pieces, spells out the text at `i`. */
  lemma MatchRowSpec(s: string, i: nat, ps: seq<Piece>, e: nat)
    requires i <= |s|
    ensures MatchTokens(s, i, RowPattern()) == Some((ps, e)) <==>
      FitsAll(RowPattern(), ps) && Occurs(Render(RowPattern(), ps), s, i) && e == i + |Render(RowPattern(), ps)|
  {
    if FitsAll(RowPattern(), ps) && Occurs(Render(RowPattern(), ps), s, i) && e == i + |Render(RowPattern(), ps)| {
      RowDeterministic();
      MatchTokensComplete(s, i, RowPattern(), ps, e);
    }
  }

  /** The five captured fields of a matched row. */
  function RowCaptures(ps: seq<Piece>): (f: seq<string>)
    requires FitsAll(RowPattern(), ps)
    ensures |f| == |RowClasses|
    ensures forall j :: 0 <= j < |f| ==> FieldOk(f[j], RowClasses[j])
  {
    CapturesClasses(RowPattern(), ps);
    RowFieldClasses();
    Captures(RowPattern(), ps)
  }

  /** In particular the host name and the uptime of a row are in their
      classes. */
  lemma RowNameAndUptime(ps: seq<Piece>)
    requires FitsAll(RowPattern(), ps)
    ensures var f := Captures(RowPattern(), ps);
      |f| == 5 && FieldOk(f[0], NameClass) && FieldOk(f[2], UptimeClass)
  {
    var f := RowCaptures(ps);
    assert RowClasses[0] == NameClass && RowClasses[2] == UptimeClass;
  }

  // ---------------------------------------------------------------------
  // Rows written out cell by cell

  datatype Colour = Yellow | White
  datatype Align = Left | Center | Right

  function ColourIndex(c: Colour): (j: nat)
    ensures j < |Colours|
  {
    match c
    case Yellow => 0
    case White => 1
  }

  function AlignIndex(a: Align): (j: nat)
    ensures j < |Aligns|
  {
    match a
    case Left => 0
    case Center => 1
    case Right => 2
  }

  /** One `<td …>` cell: the characters the pattern's `.`s match, the colour
      and alignment, and the field. */
  datatype Cell = Cell(quote: char, colour: Colour, align: Align, close: char, field: string, after: char)

  /** One `<tr>` row: the character after `<tr>` and its cells. */
  datatype Row = Row(open: char, cells: seq<Cell>)

  function CellPieces(c: Cell): seq<Piece> {
    [ Fixed, Char(c.quote), Fixed, Choice(ColourIndex(c.colour)), Fixed, Choice(AlignIndex(c.align)),
      Fixed, Char(c.close), Fixed, Text(c.field), Fixed, Char(c.after) ]
  }

  function CellsPieces(cs: seq<Cell>): seq<Piece>
    decreases |cs|
  {
    if |cs| == 0 then [] else CellPieces(cs[0]) + CellsPieces(cs[1..])
  }

  function RowPieces(r: Row): seq<Piece> {
    [Fixed, Char(r.open)] + CellsPieces(r.cells) + [Fixed]
  }

  function CellFields(cs: seq<Cell>): (f: seq<string>)
    ensures |f| == |cs|
    ensures forall j :: 0 <= j < |cs| ==> f[j] == cs[j].field
    decreases |cs|
  {
    if |cs| == 0 then [] else [cs[0].field] + CellFields(cs[1..])
  }

  /** A row the pattern can match: five cells whose fields are in the classes
      of host, ud, uptime, users and load. */
  predicate RowOk(r: Row) {
    |r.cells| == |RowClasses| && forall j :: 0 <= j < |RowClasses| ==> FieldOk(r.cells[j].field, RowClasses[j])
  }

  lemma {:induction false} FitsAllAppend(a: seq<Token>, b: seq<Token>, ps: seq<Piece>, qs: seq<Piece>)
    requires FitsAll(a, ps) && FitsAll(b, qs)
    ensures FitsAll(a + b, ps + qs)
    decreases |a|
  {
    if |a| == 0 {
      assert a + b == b && ps + qs == qs;
    } else {
      assert (a + b)[0] == a[0] && (ps + qs)[0] == ps[0];
      assert (a + b)[1..] == a[1..] + b && (ps + qs)[1..] == ps[1..] + qs;
      FitsAllAppend(a[1..], b, ps[1..], qs);
    }
  }

  lemma {:induction false} CapturesAppend(a: seq<Token>, b: seq<Token>, ps: seq<Piece>, qs: seq<Piece>)
    requires FitsAll(a, ps) && FitsAll(b, qs)
    ensures FitsAll(a + b, ps + qs)
    ensures Captures(a + b, ps + qs) == Captures(a, ps) + Captures(b, qs)
    decreases |a|
  {
    FitsAllAppend(a, b, ps, qs);
    if |a| == 0 {
      assert a + b == b && ps + qs == qs;
    } else {
      assert (a + b)[0] == a[0] && (ps + qs)[0] == ps[0];
      assert (a + b)[1..] == a[1..] + b && (ps + qs)[1..] == ps[1..] + qs;
      CapturesAppend(a[1..], b, ps[1..], qs);
      var h := if a[0].Field? then [ps[0].t] else [];
      assert Captures(a + b, ps + qs) == h + Captures(a[1..] + b, ps[1..] + qs);
    }
  }

  /** Pieces that fit a pattern without capture groups capture nothing. */
  lemma {:induction false} CapturesNone(p: seq<Token>, ps: seq<Piece>)
    requires FitsAll(p, ps) && forall j :: 0 <= j < |p| ==> !p[j].Field?
    ensures Captures(p, ps) == []
    decreases |p|
  {
    if |p| > 0 {
      assert forall j :: 0 <= j < |p| - 1 ==> p[1..][j] == p[j + 1];
      CapturesNone(p[1..], ps[1..]);
    }
  }

  lemma CellFits(c: Cell, k: FieldClass)
    requires FieldOk(c.field, k)
    ensures FitsAll(CellPattern(k), CellPieces(c))
    ensures Captures(CellPattern(k), CellPieces(c)) == [c.field]
  {
    var head: seq<Token> := [Lit(TdOpen), Any, Lit(ColourKey), OneOf(Colours), Lit(AlignKey), OneOf(Aligns),
                             Lit(";"), Any, Lit(">")];
    var tail: seq<Token> := [Lit(TdClose), Any];
    var hp: seq<Piece> := [Fixed, Char(c.quote), Fixed, Choice(ColourIndex(c.colour)), Fixed,
                           Choice(AlignIndex(c.align)), Fixed, Char(c.close), Fixed];
    var tp: seq<Piece> := [Fixed, Char(c.after)];
    assert CellPattern(k) == head + ([Field(k)] + tail);
    assert CellPieces(c) == hp + ([Text(c.field)] + tp);
    assert FitsAll(head, hp) by {
      forall j | 0 <= j < |head| ensures Fits(head[j], hp[j]) {
        if j == 3 {
          assert head[j] == OneOf(Colours);
        } else if j == 5 {
          assert head[j] == OneOf(Aligns);
        } else if j == 1 || j == 7 {
          assert head[j] == Any && hp[j].Char?;
        } else {
          assert head[j].Lit? && hp[j] == Fixed;
        }
      }
      FitsAllIndex(head, hp);
    }
    assert FitsAll(tail, tp) by {
      forall j | 0 <= j < |tail| ensures Fits(tail[j], tp[j]) { }
      FitsAllIndex(tail, tp);
    }
    assert FitsAll([Field(k)], [Text(c.field)]);
    CapturesNone(head, hp);
    CapturesNone(tail, tp);
    CapturesAppend([Field(k)], tail, [Text(c.field)], tp);
    CapturesAppend(head, [Field(k)] + tail, hp, [Text(c.field)] + tp);
  }

  lemma {:induction false} CellsFits(cs: seq<Cell>, ks: seq<FieldClass>)
    requires |cs| == |ks| && forall j :: 0 <= j < |ks| ==> FieldOk(cs[j].field, ks[j])
    ensures FitsAll(CellsPattern(ks), CellsPieces(cs))
    ensures Captures(CellsPattern(ks), CellsPieces(cs)) == CellFields(cs)
    decreases |ks|
  {
    if |ks| > 0 {
      CellFits(cs[0], ks[0]);
      CellsFits(cs[1..], ks[1..]);
      CapturesAppend(CellPattern(ks[0]), CellsPattern(ks[1..]), CellPieces(cs[0]), CellsPieces(cs[1..]));
    } else {
      assert FitsAll([], []);
    }
  }

  lemma RowEndsFit(open: char)
    ensures FitsAll([Lit(TrOpen), Any], [Fixed, Char(open)]) && Captures([Lit(TrOpen), Any], [Fixed, Char(open)]) == []
    ensures FitsAll([Lit(TrClose)], [Fixed]) && Captures([Lit(TrClose)], [Fixed]) == []
  {
    var head: seq<Token> := [Lit(TrOpen), Any];
    var hp: seq<Piece> := [Fixed, Char(open)];
    assert FitsAll(head, hp) by {
      forall j | 0 <= j < |head| ensures Fits(head[j], hp[j]) { }
      FitsAllIndex(head, hp);
    }
    assert FitsAll([Lit(TrClose)], [Fixed]) by {
      FitsAllIndex([Lit(TrClose)], [Fixed]);
    }
    CapturesNone(head, hp);
    CapturesNone([Lit(TrClose)], [Fixed]);
  }

  lemma ShapeFits(open: char, cs: seq<Cell>, ks: seq<FieldClass>)
    requires |cs| == |ks| && forall j :: 0 <= j < |ks| ==> FieldOk(cs[j].field, ks[j])
    ensures FitsAll(RowShape(ks), RowPieces(Row(open, cs)))
    ensures Captures(RowShape(ks), RowPieces(Row(open, cs))) == CellFields(cs)
  {
    var a, b, c: seq<Token> := [Lit(TrOpen), Any], CellsPattern(ks), [Lit(TrClose)];
    var ps, qs, rs: seq<Piece> := [Fixed, Char(open)], CellsPieces(cs), [Fixed];
    RowEndsFit(open);
    CellsFits(cs, ks);
    CapturesAppend(a, b, ps, qs);
    ShapeFitsTail(a + b, c, ps + qs, rs, CellFields(cs));
  }

  lemma ShapeFitsTail(ab: seq<Token>, c: seq<Token>, pqs: seq<Piece>, rs: seq<Piece>, f: seq<string>)
    requires FitsAll(ab, pqs) && FitsAll(c, rs) && Captures(ab, pqs) == f && Captures(c, rs) == []
    ensures FitsAll(ab + c, pqs + rs) && Captures(ab + c, pqs + rs) == f
  {
    CapturesAppend(ab, c, pqs, rs);
    assert f + [] == f;
  }

  /** A row written out cell by cell fits the pattern, and its captures are its fields. */
  lemma RowFits(r: Row)
    requires RowOk(r)
    ensures FitsAll(RowPattern(), RowPieces(r))
    ensures RowCaptures(RowPieces(r)) == CellFields(r.cells)
  {
    ShapeFits(r.open, r.cells, RowClasses);
  }

}
