/**
 * The walk of `processSubtree` as the source writes it. After
 * `replaceChild` swaps the current text node for the fragment, the node
 * iterator's reference moves back to the node before the removed one, so
 * the iteration goes on with the first node of the fragment: every mark is
 * entered (the `continue` skips only the mark element itself) and the
 * replacement text inside it is matched again. A chosen name that contains
 * the dead name as a word is therefore replaced inside its own mark, again
 * and again; the depth bound does not help, since marks and texts do not
 * count toward `processedDepth`.
 *
 * The rest of the model uses the corrected walk of `TextProcessing`, which
 * goes on after the fragment and does not enter marks.
 */
module Rescan {
  import opened Wrappers
  import opened Chars
  import opened Dom
  import opened TextMatching
  import opened Attributes
  import opened TextProcessing

  /**
   * One node of the source's iteration: the walker and the nodes still
   * ahead of the iterator. A replaced text puts its fragment ahead of the
   * iterator instead of behind it. The metrics counters are left as they
   * are: they play no part in whether the iteration ends.
   */
  function AsWrittenStep(outer: seq<Element>, rules: seq<Rule>, w: Walker, rest: seq<Token>): (Walker, seq<Token>)
    requires ValidRules(rules) && rest != []
  {
    var t := rest[0];
    match t
    case Open(e) =>
      if IsDeadnameMark(e) || !ShouldProcessElement(e) then (w.(out := w.out + [t], stack := w.stack + [e]), rest[1..])
      else
        (w.(out := w.out + [Open(Processed(e, rules))], stack := w.stack + [Processed(e, rules)], used := w.used + 1), rest[1..])
    case Close => (w.(out := w.out + [t], stack := Pop(w.stack)), rest[1..])
    case Text(s) =>
      if w.stack != [] && TextAllowed(outer + w.stack) && s != "" && FindMatchesSpec(s, rules) != [] then
        var ps := Pieces(s, FindMatchesSpec(s, rules), 0);
        (w.(nextId := w.nextId + MarkCount(ps)), Render(ps, w.nextId) + rest[1..])
      else (w.(out := w.out + [t]), rest[1..])
  }

  /**
   * The source's iteration after `k` nodes, for at most `fuel` more nodes:
   * `None` when the fuel runs out before the iteration ends.
   */
  function AsWrittenWalk(outer: seq<Element>, rules: seq<Rule>, depth: Depth, w: Walker, rest: seq<Token>, k: nat, fuel: nat): Option<(Walker, seq<Token>)>
    requires ValidRules(rules)
    decreases fuel
  {
    if rest == [] || Stops(depth, w, k) then Some((w, rest))
    else if fuel == 0 then None
    else
      var next := AsWrittenStep(outer, rules, w, rest);
      AsWrittenWalk(outer, rules, depth, next.0, next.1, k + 1, fuel - 1)
  }

  // ---------------------------------------------------------------------
  // The rule `ann` -> `ann marie`

  const Dead := "ann"
  const Chosen := "ann marie"
  const Loop := Rule(Dead, Chosen)

  /** `ann` is found once in `ann`. */
  lemma DeadMatchesItself()
    ensures RuleMatches(Dead, Loop) == [TextMatch(Dead, 0, Loop)]
  {
    var ps := CreateReplacementPattern(Dead);
    PatternMeaning(Dead, Dead, 0);
    SameUpToCaseRefl(Dead);
    assert Dead[0..3] == Dead;
    assert MatchesAt(ps, Dead, 0);
    assert NextMatch(ps, Dead, 3) == None;
  }

  /** `ann` is found once in `ann marie`, at its start: the chosen name holds the dead name as a word. */
  lemma DeadMatchesChosen()
    ensures RuleMatches(Chosen, Loop) == [TextMatch(Dead, 0, Loop)]
  {
    var ps := CreateReplacementPattern(Dead);
    PatternMeaning(Dead, Chosen, 0);
    SameUpToCaseRefl(Dead);
    assert Chosen[0..3] == Dead;
    assert MatchesAt(ps, Chosen, 0);
    assert ps[0] == Lit('a');
    assert !MatchesAt(ps, Chosen, 3) && !MatchesAt(ps, Chosen, 4) && !MatchesAt(ps, Chosen, 6);
    PatternMeaning(Dead, Chosen, 5);
    assert Chosen[5..8] == "ari";
    assert !SameUpToCase("ari", Dead);
    assert !MatchesAt(ps, Chosen, 5);
    assert NextMatch(ps, Chosen, 3) == None;
  }

  /** One rule: the sorted matches are the rule's own. */
  lemma FindOne(text: string, rule: Rule, m: TextMatch)
    requires rule.dead != "" && RuleMatches(text, rule) == [m]
    ensures FindMatchesSpec(text, [rule]) == [m]
  {
    assert [rule][..0] == [];
    assert Collected(text, [rule]) == [] + RuleMatches(text, rule);
    assert [] + [m] == [m];
    assert [m][..0] == [];
    assert SortByIndex([m]) == Insert([], m);
  }

  /** `ann` in lower case shows `ann marie`. */
  lemma LoopShown()
    ensures CaseMatchReplacement(Dead, Chosen) == Chosen
  {
    assert !IsUpperCase(Dead);
    LowerWords();
    CaseTestsMeaning(Dead);
    CaseTestsMeaning(Chosen);
  }

  lemma LowerWords()
    ensures IsLowerCase(Dead) && IsLowerCase(Chosen)
  {
    LowerCaseAt(Dead);
    LowerCaseAt(Chosen);
  }

  /** A string each of whose characters `toLowerCase` keeps is in lower case. */
  lemma {:induction false} LowerCaseAt(s: string)
    requires forall i :: 0 <= i < |s| ==> LowerChar(s[i]) == s[i]
    ensures IsLowerCase(s)
  {
    if s != [] {
      assert forall i :: 0 <= i < |s[1..]| ==> s[1..][i] == s[i + 1];
      LowerCaseAt(s[1..]);
    }
  }

  /** One match at the start of the text: its mark, then the rest of the text if any. */
  lemma PiecesOne(text: string, m: TextMatch)
    requires m.index == 0 && |m.text| <= |text|
    ensures Pieces(text, [m], 0) == [Mark(m.text, CaseMatchReplacement(m.text, m.rule.chosen))]
      + (if |m.text| < |text| then [Run(text[|m.text|..])] else [])
  {
    assert [m][1..] == [];
  }

  /** The pieces of `ann`: one mark showing `ann marie`. */
  lemma DeadPieces()
    ensures FindMatchesSpec(Dead, [Loop]) != []
    ensures Pieces(Dead, FindMatchesSpec(Dead, [Loop]), 0) == [Mark(Dead, Chosen)]
  {
    var m := TextMatch(Dead, 0, Loop);
    DeadMatchesItself();
    FindOne(Dead, Loop, m);
    LoopShown();
    PiecesOne(Dead, m);
    assert Pieces(Dead, [m], 0) == [Mark(Dead, Chosen)] + [];
  }

  /** The pieces of `ann marie`: a mark showing `ann marie` again, then ` marie`. */
  lemma ChosenPieces()
    ensures FindMatchesSpec(Chosen, [Loop]) != []
    ensures Pieces(Chosen, FindMatchesSpec(Chosen, [Loop]), 0) == [Mark(Dead, Chosen), Run(Chosen[3..])]
  {
    var m := TextMatch(Dead, 0, Loop);
    DeadMatchesChosen();
    FindOne(Chosen, Loop, m);
    LoopShown();
    PiecesOne(Chosen, m);
  }

  // ---------------------------------------------------------------------
  // The walk does not end

  /** The text's fragment opens with a mark for `dead` showing `chosen`. */
  predicate OpensWithMark(rules: seq<Rule>, s: string, dead: string, chosen: string)
    requires ValidRules(rules)
  {
    FindMatchesSpec(s, rules) != []
      && Pieces(s, FindMatchesSpec(s, rules), 0) != []
      && Pieces(s, FindMatchesSpec(s, rules), 0)[0] == Mark(dead, chosen)
  }

  /** A mark that shows text renders as its opening, the text, its closing and the rest with the next ids. */
  lemma RenderFirstMark(ps: seq<Piece>, dead: string, chosen: string, id: nat, tail: seq<Token>)
    requires ps != [] && ps[0] == Mark(dead, chosen) && chosen != ""
    ensures Render(ps, id) + tail == [Open(MarkElement(id, dead)), Text(chosen)] + ([Close] + Render(ps[1..], id + 1) + tail)
  {
    var r := Render(ps[1..], id + 1);
    assert RenderPiece(ps[0], id) == [Open(MarkElement(id, dead)), Text(chosen), Close];
    assert Render(ps, id) == [Open(MarkElement(id, dead)), Text(chosen), Close] + r;
    SplitAfterTwo(Open(MarkElement(id, dead)), Text(chosen), Close, r, tail);
  }

  lemma SplitAfterTwo(a: Token, b: Token, c: Token, r: seq<Token>, tail: seq<Token>)
    ensures [a, b, c] + r + tail == [a, b] + ([c] + r + tail)
  {
    assert [a, b, c] == [a, b] + [c];
  }

  /** A walk that goes on takes one step and one unit of fuel. */
  lemma WalkGoesOn(outer: seq<Element>, rules: seq<Rule>, depth: Depth, w: Walker, rest: seq<Token>, k: nat, fuel: nat,
                   w': Walker, rest': seq<Token>, k': nat, fuel': nat)
    requires ValidRules(rules) && rest != [] && !Stops(depth, w, k) && fuel > 0
    requires AsWrittenStep(outer, rules, w, rest) == (w', rest') && k' == k + 1 && fuel' == fuel - 1
    ensures AsWrittenWalk(outer, rules, depth, w, rest, k, fuel) == AsWrittenWalk(outer, rules, depth, w', rest', k', fuel')
  {
    var next := WalkUnfold(outer, rules, depth, w, rest, k, fuel);
  }

  lemma WalkUnfold(outer: seq<Element>, rules: seq<Rule>, depth: Depth, w: Walker, rest: seq<Token>, k: nat, fuel: nat)
    returns (next: (Walker, seq<Token>))
    requires ValidRules(rules) && rest != [] && !Stops(depth, w, k) && fuel > 0
    ensures next == AsWrittenStep(outer, rules, w, rest)
    ensures AsWrittenWalk(outer, rules, depth, w, rest, k, fuel) == AsWrittenWalk(outer, rules, depth, next.0, next.1, k + 1, fuel - 1)
  {
    next := AsWrittenStep(outer, rules, w, rest);
  }

  /** A mark is entered: it goes on the stack and the iterator moves to its first child. */
  lemma MarkStep(outer: seq<Element>, rules: seq<Rule>, w: Walker, id: nat, dead: string, rest: seq<Token>)
    requires ValidRules(rules)
    ensures AsWrittenStep(outer, rules, w, [Open(MarkElement(id, dead))] + rest)
      == (w.(out := w.out + [Open(MarkElement(id, dead))], stack := w.stack + [MarkElement(id, dead)]), rest)
  {
    MarkElementIsDeadnameMark(id, dead);
    assert ([Open(MarkElement(id, dead))] + rest)[1..] == rest;
  }

  /** An element to process is rewritten, goes on the stack and counts toward the depth. */
  lemma ElementStep(outer: seq<Element>, rules: seq<Rule>, w: Walker, e: Element, rest: seq<Token>)
    requires ValidRules(rules) && ShouldProcessElement(e) && !IsDeadnameMark(e)
    ensures AsWrittenStep(outer, rules, w, [Open(e)] + rest).1 == rest
    ensures AsWrittenStep(outer, rules, w, [Open(e)] + rest).0.stack == w.stack + [Processed(e, rules)]
    ensures AsWrittenStep(outer, rules, w, [Open(e)] + rest).0.used == w.used + 1
    ensures AsWrittenStep(outer, rules, w, [Open(e)] + rest).0.nextId == w.nextId
  {
    assert ([Open(e)] + rest)[1..] == rest;
  }

  /** A text with matches is swapped for its fragment, which the iterator reaches next. */
  lemma TextStep(outer: seq<Element>, rules: seq<Rule>, w: Walker, s: string, rest: seq<Token>)
    requires ValidRules(rules) && w.stack != [] && TextAllowed(outer + w.stack) && s != "" && FindMatchesSpec(s, rules) != []
    ensures AsWrittenStep(outer, rules, w, [Text(s)] + rest).1 == Render(Pieces(s, FindMatchesSpec(s, rules), 0), w.nextId) + rest
    ensures AsWrittenStep(outer, rules, w, [Text(s)] + rest).0.stack == w.stack
    ensures AsWrittenStep(outer, rules, w, [Text(s)] + rest).0.used == w.used
  {
    assert ([Text(s)] + rest)[1..] == rest;
  }

  /** A replacement mark does not keep its text from being processed. */
  lemma MarkAllowsText(id: nat, original: string)
    ensures !BlocksText(MarkElement(id, original))
  {
    var e := MarkElement(id, original);
    MarkElementIsDeadnameMark(id, original);
    LowerMark();
    ExcludedByMeaning(e, ExclusionTable);
  }

  /** Pushing an element that does not block text keeps the text allowed. */
  lemma AllowedPush(outer: seq<Element>, st: seq<Element>, e: Element)
    requires TextAllowed(outer + st) && !BlocksText(e)
    ensures TextAllowed(outer + (st + [e]))
  {
    assert outer + (st + [e]) == (outer + st) + [e];
    assert ((outer + st) + [e])[..|outer + st|] == outer + st;
  }

  /**
   * The iterator stands on a mark for `dead` whose text is `chosen`, inside
   * elements that let text through, before the depth bound, and the
   * fragment of `chosen` opens with such a mark again.
   */
  predicate Looping(outer: seq<Element>, rules: seq<Rule>, dead: string, chosen: string, depth: Depth, w: Walker, rest: seq<Token>)
  {
    ValidRules(rules) && chosen != "" && OpensWithMark(rules, chosen, dead, chosen)
      && w.stack != [] && TextAllowed(outer + w.stack) && !Exhausted(depth, w.used)
      && |rest| >= 2 && rest[0].Open? && rest[0] == Open(MarkElement(rest[0].e.id, dead)) && rest[1] == Text(chosen)
  }

  /** The same inside the mark: the iterator stands on the mark's text. */
  predicate AtText(outer: seq<Element>, rules: seq<Rule>, dead: string, chosen: string, depth: Depth, w: Walker, rest: seq<Token>)
  {
    ValidRules(rules) && chosen != "" && OpensWithMark(rules, chosen, dead, chosen)
      && w.stack != [] && TextAllowed(outer + w.stack) && !Exhausted(depth, w.used)
      && rest != [] && rest[0] == Text(chosen)
  }

  /** One step from such a mark enters it and leaves the walk going. */
  lemma OneStep(outer: seq<Element>, rules: seq<Rule>, dead: string, chosen: string, depth: Depth,
                w: Walker, rest: seq<Token>, k: nat, fuel: nat)
    returns (w1: Walker, rest1: seq<Token>, k1: nat, fuel1: nat)
    requires fuel > 0 && Looping(outer, rules, dead, chosen, depth, w, rest)
    ensures AtText(outer, rules, dead, chosen, depth, w1, rest1) && fuel1 < fuel
    ensures AsWrittenWalk(outer, rules, depth, w, rest, k, fuel) == AsWrittenWalk(outer, rules, depth, w1, rest1, k1, fuel1)
  {
    rest1, k1, fuel1 := rest[1..], k + 1, fuel - 1;
    var e := rest[0].e;
    assert rest == [Open(MarkElement(e.id, dead))] + rest[1..];
    MarkStep(outer, rules, w, e.id, dead, rest[1..]);
    w1 := w.(out := w.out + [Open(e)], stack := w.stack + [e]);
    WalkGoesOn(outer, rules, depth, w, rest, k, fuel, w1, rest1, k1, fuel1);
    MarkAllowsText(e.id, dead);
    AllowedPush(outer, w.stack, e);
  }

  /** The text inside such a mark is swapped for a fragment that opens with a new such mark. */
  lemma TextAgain(outer: seq<Element>, rules: seq<Rule>, dead: string, chosen: string, depth: Depth,
                  w: Walker, rest: seq<Token>, k: nat, fuel: nat)
    returns (w2: Walker, rest2: seq<Token>, k2: nat, fuel2: nat)
    requires fuel > 0 && AtText(outer, rules, dead, chosen, depth, w, rest)
    ensures Looping(outer, rules, dead, chosen, depth, w2, rest2) && fuel2 < fuel
    ensures AsWrittenWalk(outer, rules, depth, w, rest, k, fuel) == AsWrittenWalk(outer, rules, depth, w2, rest2, k2, fuel2)
  {
    k2, fuel2 := k + 1, fuel - 1;
    assert rest == [Text(chosen)] + rest[1..];
    TextStep(outer, rules, w, chosen, rest[1..]);
    var next := AsWrittenStep(outer, rules, w, rest);
    WalkGoesOn(outer, rules, depth, w, rest, k, fuel, next.0, next.1, k2, fuel2);
    var ps := Pieces(chosen, FindMatchesSpec(chosen, rules), 0);
    RenderFirstMark(ps, dead, chosen, w.nextId, rest[1..]);
    w2, rest2 := next.0, next.1;
  }

  /**
   * When the replacement of a name again holds that name first, the mark
   * that shows it is entered, its text is replaced by another mark of the
   * same kind, and so on: no amount of fuel reaches the end of the walk.
   */
  lemma {:induction false} Cycle(outer: seq<Element>, rules: seq<Rule>, dead: string, chosen: string, depth: Depth,
                                 w: Walker, rest: seq<Token>, k: nat, fuel: nat)
    requires Looping(outer, rules, dead, chosen, depth, w, rest)
    ensures AsWrittenWalk(outer, rules, depth, w, rest, k, fuel) == None
    decreases fuel
  {
    if fuel > 0 {
      var w1, rest1, k1, fuel1 := OneStep(outer, rules, dead, chosen, depth, w, rest, k, fuel);
      if fuel1 > 0 {
        var w2, rest2, k2, fuel2 := TextAgain(outer, rules, dead, chosen, depth, w1, rest1, k1, fuel1);
        Cycle(outer, rules, dead, chosen, depth, w2, rest2, k2, fuel2);
      }
    }
  }

  /** From the root: a processed element that lets text through is entered, and counts toward the depth. */
  lemma RootStep(rules: seq<Rule>, e: Element, depth: Depth, nextId: nat, page: seq<Token>, rest: seq<Token>, fuel: nat)
    returns (w1: Walker, fuel1: nat)
    requires ValidRules(rules) && ShouldProcessElement(e) && !IsDeadnameMark(e) && !BlocksText(e)
    requires (depth.Infinite? || depth.n > 1) && fuel > 0 && page == [Open(e)] + rest
    ensures w1.stack != [] && TextAllowed([] + w1.stack) && !Exhausted(depth, w1.used) && w1.nextId == nextId
    ensures AsWrittenWalk([], rules, depth, Start(nextId), page, 0, fuel) == AsWrittenWalk([], rules, depth, w1, rest, 1, fuel1)
  {
    fuel1 := fuel - 1;
    var w0 := Start(nextId);
    var p := Processed(e, rules);
    ProcessedKeeps(e, rules);
    ElementStep([], rules, w0, e, rest);
    w1 := AsWrittenStep([], rules, w0, page).0;
    WalkGoesOn([], rules, depth, w0, page, 0, fuel, w1, rest, 1, fuel1);
    AllowedPush([], [], p);
  }

  /**
   * A processed element whose text opens with such a mark, as the root of
   * the walk: the walk does not end for any depth above one.
   */
  lemma RootDiverges(rules: seq<Rule>, e: Element, s: string, dead: string, chosen: string,
                     depth: Depth, nextId: nat, fuel: nat)
    requires ValidRules(rules) && chosen != "" && OpensWithMark(rules, chosen, dead, chosen)
    requires s != "" && OpensWithMark(rules, s, dead, chosen)
    requires ShouldProcessElement(e) && !IsDeadnameMark(e) && !BlocksText(e)
    requires depth.Infinite? || depth.n > 1
    ensures AsWrittenWalk([], rules, depth, Start(nextId), [Open(e), Text(s), Close], 0, fuel) == None
  {
    var page := [Open(e), Text(s), Close];
    var rest1 := [Text(s), Close];
    assert page == [Open(e)] + rest1;
    if fuel > 0 {
      var w1, fuel1 := RootStep(rules, e, depth, nextId, page, rest1, fuel);
      if fuel1 > 0 {
        var w2, rest2, fuel2 := RootText(rules, s, dead, chosen, depth, w1, rest1, fuel1);
        Cycle([], rules, dead, chosen, depth, w2, rest2, 2, fuel2);
      }
    }
  }

  /** The root's text is swapped for a fragment that opens with a mark for `dead` showing `chosen`. */
  lemma RootText(rules: seq<Rule>, s: string, dead: string, chosen: string, depth: Depth, w: Walker, rest: seq<Token>, fuel: nat)
    returns (w2: Walker, rest2: seq<Token>, fuel2: nat)
    requires ValidRules(rules) && chosen != "" && OpensWithMark(rules, chosen, dead, chosen)
    requires s != "" && OpensWithMark(rules, s, dead, chosen)
    requires w.stack != [] && TextAllowed([] + w.stack) && !Exhausted(depth, w.used) && fuel > 0
    requires rest != [] && rest[0] == Text(s)
    ensures Looping([], rules, dead, chosen, depth, w2, rest2)
    ensures AsWrittenWalk([], rules, depth, w, rest, 1, fuel) == AsWrittenWalk([], rules, depth, w2, rest2, 2, fuel2)
  {
    fuel2 := fuel - 1;
    assert rest == [Text(s)] + rest[1..];
    TextStep([], rules, w, s, rest[1..]);
    var next := AsWrittenStep([], rules, w, rest);
    WalkGoesOn([], rules, depth, w, rest, 1, fuel, next.0, next.1, 2, fuel2);
    var ps := Pieces(s, FindMatchesSpec(s, rules), 0);
    RenderFirstMark(ps, dead, chosen, w.nextId, rest[1..]);
    w2, rest2 := next.0, next.1;
  }

  /** The paragraph `<p>ann</p>` on a page with no other nodes. */
  const Para := Element(0, "p", map[])

  lemma ParaProcessed()
    ensures ShouldProcessElement(Para) && !IsDeadnameMark(Para) && !BlocksText(Para)
  {
    assert Lower("p") == [LowerChar('p')] + Lower([]);
    ExcludedByMeaning(Para, ExclusionTable);
  }

  /**
   * `processSubtree` as written, on the paragraph, with the rule
   * `ann` -> `ann marie`, does not end for any depth above one, in
   * particular for the observer's depth of ten and for `processDocument`'s
   * unbounded depth.
   */
  lemma AsWrittenDiverges(depth: Depth, nextId: nat, fuel: nat)
    requires depth.Infinite? || depth.n > 1
    ensures AsWrittenWalk([], [Loop], depth, Start(nextId), [Open(Para), Text(Dead), Close], 0, fuel) == None
  {
    DeadPieces();
    ChosenPieces();
    ParaProcessed();
    RootDiverges([Loop], Para, Dead, Dead, Chosen, depth, nextId, fuel);
  }

  // ---------------------------------------------------------------------
  // The corrected walk on the same page

  /** The corrected walk's first step processes the root. */
  lemma CorrectedOpen(rules: seq<Rule>, e: Element, depth: Depth, nextId: nat, page: seq<Token>) returns (w1: Walker)
    requires ValidRules(rules) && |page| == 3 && page[0] == Open(e)
    requires ShouldProcessElement(e) && !IsDeadnameMark(e)
    requires depth.Infinite? || depth.n > 1
    ensures WalkFrom([], rules, depth, Start(nextId), page, 0) == WalkFrom([], rules, depth, w1, page, 1)
    ensures w1.out == [Open(Processed(e, rules))] && w1.stack == [Processed(e, rules)]
    ensures w1.skip == 0 && w1.used == 1 && w1.nextId == nextId
  {
    WalkFromStep([], rules, depth, Start(nextId), page, 0);
    w1 := Step([], rules, Start(nextId), Open(e));
  }

  /** The corrected walk's second step replaces the text inside the processed root. */
  lemma CorrectedText(rules: seq<Rule>, s: string, depth: Depth, w1: Walker, page: seq<Token>) returns (w2: Walker)
    requires ValidRules(rules) && |page| == 3 && page[1] == Text(s)
    requires s != "" && FindMatchesSpec(s, rules) != []
    requires |w1.stack| == 1 && !BlocksText(w1.stack[0]) && w1.skip == 0 && w1.used == 1
    requires depth.Infinite? || depth.n > 1
    ensures WalkFrom([], rules, depth, w1, page, 1) == WalkFrom([], rules, depth, w2, page, 2)
    ensures w2.out == w1.out + Render(Pieces(s, FindMatchesSpec(s, rules), 0), w1.nextId)
    ensures w2.stack == w1.stack && w2.skip == 0 && w2.used == 1
  {
    AllowedPush([], [], w1.stack[0]);
    assert [] + w1.stack == [] + ([] + [w1.stack[0]]);
    assert Replaces([], rules, w1, s);
    WalkFromStep([], rules, depth, w1, page, 1);
    w2 := Step([], rules, w1, Text(s));
  }

  /** The corrected walk's third step closes the root and ends the walk. */
  lemma CorrectedClose(rules: seq<Rule>, depth: Depth, w2: Walker, page: seq<Token>) returns (w3: Walker)
    requires ValidRules(rules) && |page| == 3 && page[2] == Close
    requires |w2.stack| == 1 && w2.skip == 0 && w2.used == 1
    requires depth.Infinite? || depth.n > 1
    ensures WalkFrom([], rules, depth, w2, page, 2) == (w3, 3)
    ensures w3.out == w2.out + [Close]
  {
    WalkFromStep([], rules, depth, w2, page, 2);
    w3 := Step([], rules, w2, Close);
    WalkFromStops([], rules, depth, w3, page, 3);
  }

  /** The corrected walk over `page`, three steps long. */
  lemma CorrectedWalk(rules: seq<Rule>, e: Element, s: string, depth: Depth, nextId: nat, page: seq<Token>, frag: seq<Token>)
    returns (w3: Walker)
    requires ValidRules(rules) && s != "" && FindMatchesSpec(s, rules) != []
    requires ShouldProcessElement(e) && !IsDeadnameMark(e) && !BlocksText(e)
    requires depth.Infinite? || depth.n > 1
    requires page == [Open(e), Text(s), Close] && frag == Render(Pieces(s, FindMatchesSpec(s, rules), 0), nextId)
    ensures Subtree(page, 0, rules, depth, nextId) == (w3, 3)
    ensures w3.out == [Open(Processed(e, rules))] + frag + [Close]
  {
    assert page[..0] == [] && page[0..] == page;
    ProcessedKeeps(e, rules);
    var w1 := CorrectedOpen(rules, e, depth, nextId, page);
    var w2 := CorrectedText(rules, s, depth, w1, page);
    w3 := CorrectedClose(rules, depth, w2, page);
  }

  /** A walk from the first token that consumes the whole page leaves its output as the page. */
  lemma AfterWholePage(rules: seq<Rule>, depth: Depth, nextId: nat, page: seq<Token>, w: Walker)
    requires ValidRules(rules) && Subtree(page, 0, rules, depth, nextId) == (w, |page|)
    ensures AfterSubtree(page, 0, rules, depth, nextId) == w.out
  {
    SpliceIs(page, 0, Subtree(page, 0, rules, depth, nextId), w.out, |page|);
    assert page[..0] == [] && page[|page|..] == [];
  }

  /**
   * The corrected walk from the same kind of root goes on after the
   * fragment: it ends at the root's closing, having consumed the three
   * nodes, with the root processed and its text replaced once.
   */
  lemma CorrectedRoot(rules: seq<Rule>, e: Element, s: string, depth: Depth, nextId: nat)
    requires ValidRules(rules) && s != "" && FindMatchesSpec(s, rules) != []
    requires ShouldProcessElement(e) && !IsDeadnameMark(e) && !BlocksText(e)
    requires depth.Infinite? || depth.n > 1
    ensures Subtree([Open(e), Text(s), Close], 0, rules, depth, nextId).1 == 3
    ensures AfterSubtree([Open(e), Text(s), Close], 0, rules, depth, nextId)
      == [Open(Processed(e, rules))] + Render(Pieces(s, FindMatchesSpec(s, rules), 0), nextId) + [Close]
  {
    var page := [Open(e), Text(s), Close];
    var w3 := CorrectedWalk(rules, e, s, depth, nextId, page, Render(Pieces(s, FindMatchesSpec(s, rules), 0), nextId));
    AfterWholePage(rules, depth, nextId, page, w3);
  }

  /** A text that becomes one mark leaves the processed root holding exactly that mark. */
  lemma CorrectedOneMark(rules: seq<Rule>, e: Element, s: string, dead: string, chosen: string, depth: Depth, nextId: nat)
    requires ValidRules(rules) && s != "" && FindMatchesSpec(s, rules) != []
    requires Pieces(s, FindMatchesSpec(s, rules), 0) == [Mark(dead, chosen)] && chosen != ""
    requires ShouldProcessElement(e) && !IsDeadnameMark(e) && !BlocksText(e)
    requires depth.Infinite? || depth.n > 1
    ensures AfterSubtree([Open(e), Text(s), Close], 0, rules, depth, nextId)
      == [Open(Processed(e, rules))] + [Open(MarkElement(nextId, dead)), Text(chosen), Close] + [Close]
  {
    var frag := [Open(MarkElement(nextId, dead)), Text(chosen), Close];
    RenderOneMark(dead, chosen, nextId);
    var page := [Open(e), Text(s), Close];
    var w3 := CorrectedWalk(rules, e, s, depth, nextId, page, frag);
    AfterWholePage(rules, depth, nextId, page, w3);
  }

  /**
   * With the correction, `processSubtree` on `<p>ann</p>` ends, and the
   * paragraph holds one mark for `ann` that shows `ann marie`.
   */
  lemma CorrectedEnds(depth: Depth, nextId: nat)
    requires depth.Infinite? || depth.n > 1
    ensures AfterSubtree([Open(Para), Text(Dead), Close], 0, [Loop], depth, nextId)
      == [Open(Processed(Para, [Loop])), Open(MarkElement(nextId, Dead)), Text(Chosen), Close, Close]
  {
    DeadPieces();
    ParaProcessed();
    CorrectedOneMark([Loop], Para, Dead, Dead, Chosen, depth, nextId);
    Wrapped(Open(Processed(Para, [Loop])), Open(MarkElement(nextId, Dead)), Text(Chosen), Close, Close);
  }

  lemma Wrapped(a: Token, b: Token, c: Token, d: Token, f: Token)
    ensures [a] + [b, c, d] + [f] == [a, b, c, d, f]
  {
  }

  lemma RenderOneMark(o: string, sh: string, id: nat)
    requires sh != ""
    ensures Render([Mark(o, sh)], id) == [Open(MarkElement(id, o)), Text(sh), Close]
  {
    assert [Mark(o, sh)][1..] == [];
  }
}
