/**
 * The text processor's effect on a page: the fragment `replaceTextInNode`
 * splices in, the depth-bounded walk of `processSubtree`, the title, and
 * `revertAllReplacements`; then the `TextProcessor` object that performs
 * them step by step and counts what it did.
 *
 * The walk modelled here is the corrected one (see README, Findings): it
 * resumes after an inserted fragment and does not descend into a
 * `mark[deadname]`.
 */
module TextProcessing {
  import opened Wrappers
  import opened Seqs
  import opened Chars
  import opened Dom
  import opened TextMatching
  import opened Attributes

  // ---------------------------------------------------------------------
  // The fragment as tokens

  /** A text node, or `<mark deadname data-original=o>shown</mark>` with the given element id. */
  function RenderPiece(p: Piece, id: nat): seq<Token>
  {
    match p
    case Run(s) => [Text(s)]
    case Mark(o, sh) => [Open(MarkElement(id, o))] + (if sh == "" then [] else [Text(sh)]) + [Close]
  }

  /** The fragment's children in order; the marks take consecutive ids from `id`. */
  function Render(ps: seq<Piece>, id: nat): seq<Token>
  {
    if ps == [] then [] else RenderPiece(ps[0], id) + Render(ps[1..], id + (if ps[0].Mark? then 1 else 0))
  }

  // ---------------------------------------------------------------------
  // What a reader sees

  /** An element boundary or one character of text. */
  datatype Item = BeginItem(e: Element) | EndItem | CharItem(c: char)

  function CharItems(s: string): seq<Item>
  {
    if s == [] then [] else [CharItem(s[0])] + CharItems(s[1..])
  }

  function TokenItems(t: Token): seq<Item>
  {
    match t
    case Open(e) => [BeginItem(e)]
    case Close => [EndItem]
    case Text(s) => CharItems(s)
  }

  /**
   * The page as its reader sees it: adjacent text nodes run together, so
   * two pages with the same items show the same text in the same elements.
   */
  function Flatten(ts: seq<Token>): seq<Item>
  {
    if ts == [] then [] else TokenItems(ts[0]) + Flatten(ts[1..])
  }

  lemma {:induction false} CharItemsConcat(a: string, b: string)
    ensures CharItems(a + b) == CharItems(a) + CharItems(b)
  {
    if a != [] {
      assert (a + b)[0] == a[0] && (a + b)[1..] == a[1..] + b;
      CharItemsConcat(a[1..], b);
    } else {
      assert a + b == b;
    }
  }

  lemma {:induction false} FlattenConcat(a: seq<Token>, b: seq<Token>)
    ensures Flatten(a + b) == Flatten(a) + Flatten(b)
  {
    if a != [] {
      assert (a + b)[0] == a[0] && (a + b)[1..] == a[1..] + b;
      FlattenConcat(a[1..], b);
    } else {
      assert a + b == b;
    }
  }

  lemma FlattenOne(t: Token)
    ensures Flatten([t]) == TokenItems(t)
  {
    assert [t][1..] == [];
  }

  // ---------------------------------------------------------------------
  // revertAllReplacements on the tokens

  /** An element with the attribute loop of `revertAllReplacements` done for `names`. */
  function RevertTokenWith(t: Token, names: seq<string>): Token
  {
    match t
    case Open(e) => Open(Element(e.id, e.tag, RevertAttrs(e.attrs, names)))
    case Close => t
    case Text(_) => t
  }

  /** The attribute loops over every element of the page. */
  function RevertElements(ts: seq<Token>): (r: seq<Token>)
    ensures |r| == |ts|
  {
    if ts == [] then [] else [RevertTokenWith(ts[0], AccessibilityAttributes)] + RevertElements(ts[1..])
  }

  /** Each element is restored on its own. */
  lemma {:induction false} RevertElementsAt(ts: seq<Token>, i: nat)
    requires i < |ts|
    ensures RevertElements(ts)[i] == RevertTokenWith(ts[i], AccessibilityAttributes)
  {
    if i > 0 {
      RevertElementsAt(ts[1..], i - 1);
    }
  }

  lemma {:induction false} RevertElementsConcat(a: seq<Token>, b: seq<Token>)
    ensures RevertElements(a + b) == RevertElements(a) + RevertElements(b)
  {
    if a != [] {
      assert (a + b)[0] == a[0] && (a + b)[1..] == a[1..] + b;
      RevertElementsConcat(a[1..], b);
    } else {
      assert a + b == b;
    }
  }

  /**
   * One step of the `mark[deadname]` loop, in document order. `skip`
   * counts the elements open inside a mark already replaced: its contents
   * left the page with it.
   */
  function RevertMarkStep(t: Token, skip: nat): (seq<Token>, nat)
  {
    match t
    case Open(e) =>
      if skip > 0 then ([], skip + 1)
      else if IsDeadnameMark(e) && "data-original" in e.attrs && e.attrs["data-original"] != "" then
        ([Text(e.attrs["data-original"])], 1)
      else ([t], 0)
    case Close => if skip > 0 then ([], skip - 1) else ([t], 0)
    case Text(_) => if skip > 0 then ([], skip) else ([t], 0)
  }

  /** The marks with a non-empty `data-original` replaced by a text node holding it. */
  function RevertMarks(ts: seq<Token>, skip: nat): seq<Token>
  {
    if ts == [] then [] else RevertMarkStep(ts[0], skip).0 + RevertMarks(ts[1..], RevertMarkStep(ts[0], skip).1)
  }

  /** The skip count after the loop has passed `ts`. */
  function MarkSkip(ts: seq<Token>, skip: nat): nat
  {
    if ts == [] then skip else MarkSkip(ts[1..], RevertMarkStep(ts[0], skip).1)
  }

  lemma {:induction false} RevertMarksConcat(a: seq<Token>, b: seq<Token>, skip: nat)
    ensures RevertMarks(a + b, skip) == RevertMarks(a, skip) + RevertMarks(b, MarkSkip(a, skip))
    ensures MarkSkip(a + b, skip) == MarkSkip(b, MarkSkip(a, skip))
  {
    if a != [] {
      assert (a + b)[0] == a[0] && (a + b)[1..] == a[1..] + b;
      RevertMarksConcat(a[1..], b, RevertMarkStep(a[0], skip).1);
    } else {
      assert a + b == b;
    }
  }

  /** `revertAllReplacements` on the page's elements: attributes first, then the marks. */
  function RevertTokens(ts: seq<Token>): seq<Token>
  {
    RevertMarks(RevertElements(ts), 0)
  }

  /** No element holds a cached original. */
  predicate AllUncached(ts: seq<Token>)
  {
    forall i :: 0 <= i < |ts| && ts[i].Open? ==> Uncached(ts[i].e)
  }

  /** A page the extension has not touched: no cached originals and no marks of its own. */
  predicate Fresh(ts: seq<Token>)
  {
    forall i :: 0 <= i < |ts| && ts[i].Open? ==> Uncached(ts[i].e) && !IsDeadnameMark(ts[i].e)
  }

  lemma {:induction false} RevertElementsUncached(ts: seq<Token>)
    requires AllUncached(ts)
    ensures RevertElements(ts) == ts
  {
    if ts != [] {
      if ts[0].Open? {
        RevertUncached(ts[0].e);
      }
      assert forall i :: 0 <= i < |ts[1..]| ==> ts[1..][i] == ts[i + 1];
      RevertElementsUncached(ts[1..]);
    }
  }

  /** Revert leaves a fresh page as it is. */
  lemma {:induction false} RevertFresh(ts: seq<Token>)
    requires Fresh(ts)
    ensures RevertTokens(ts) == ts
    ensures MarkSkip(ts, 0) == 0
  {
    RevertElementsUncached(ts);
    FreshMarks(ts);
  }

  lemma {:induction false} FreshMarks(ts: seq<Token>)
    requires Fresh(ts)
    ensures RevertMarks(ts, 0) == ts
    ensures MarkSkip(ts, 0) == 0
  {
    if ts != [] {
      assert ts[0].Open? ==> !IsDeadnameMark(ts[0].e);
      assert Fresh(ts[1..]) by {
        forall i | 0 <= i < |ts[1..]| ensures ts[1..][i] == ts[i + 1] { }
      }
      FreshMarks(ts[1..]);
      assert ts == [ts[0]] + ts[1..];
    }
  }

  /** The text each piece had before the replacement, one text node per piece. */
  function OriginalTexts(ps: seq<Piece>): seq<Token>
  {
    if ps == [] then [] else [Text(OriginalOf(ps[0]))] + OriginalTexts(ps[1..])
  }

  predicate MarkOriginalsNonEmpty(ps: seq<Piece>)
  {
    forall k :: 0 <= k < |ps| && ps[k].Mark? ==> ps[k].original != ""
  }

  lemma RenderPieceUncached(p: Piece, id: nat)
    ensures AllUncached(RenderPiece(p, id))
  {
    if p.Mark? { MarkUncached(id, p.original); }
  }

  lemma {:induction false} RenderUncached(ps: seq<Piece>, id: nat)
    ensures AllUncached(Render(ps, id))
  {
    if ps != [] {
      var head: seq<Token> := RenderPiece(ps[0], id);
      var rest: seq<Token> := Render(ps[1..], id + (if ps[0].Mark? then 1 else 0));
      RenderPieceUncached(ps[0], id);
      RenderUncached(ps[1..], id + (if ps[0].Mark? then 1 else 0));
      forall i | 0 <= i < |head + rest| && (head + rest)[i].Open? ensures Uncached((head + rest)[i].e) {
        if i < |head| { assert (head + rest)[i] == head[i]; } else { assert (head + rest)[i] == rest[i - |head|]; }
      }
    }
  }

  /** A mark with a non-empty original goes back to one text node; a run stays. */
  lemma RevertPiece(p: Piece, id: nat)
    requires p.Mark? ==> p.original != ""
    ensures RevertMarks(RenderPiece(p, id), 0) == [Text(OriginalOf(p))]
    ensures MarkSkip(RenderPiece(p, id), 0) == 0
  {
    match p
    case Run(s) =>
    case Mark(o, sh) =>
      var m := MarkElement(id, o);
      MarkElementIsDeadnameMark(id, o);
      var inner: seq<Token> := if sh == "" then [] else [Text(sh)];
      assert RevertMarkStep(Open(m), 0) == ([Text(o)], 1);
      assert RevertMarks([Close], 1) == [] && MarkSkip([Close], 1) == 0 by {
        assert [Close][1..] == [];
      }
      assert RevertMarks(inner + [Close], 1) == [] && MarkSkip(inner + [Close], 1) == 0 by {
        if sh != "" {
          assert inner + [Close] == [Text(sh), Close];
          assert [Text(sh), Close][0] == Text(sh) && [Text(sh), Close][1..] == [Close];
        } else {
          assert inner + [Close] == [Close];
        }
      }
      assert RenderPiece(p, id) == [Open(m)] + (inner + [Close]);
      RevertMarksConcat([Open(m)], inner + [Close], 0);
  }

  /** The fragment goes back to the originals, one text node per piece. */
  lemma {:induction false} RevertRender(ps: seq<Piece>, id: nat)
    requires MarkOriginalsNonEmpty(ps)
    ensures RevertMarks(Render(ps, id), 0) == OriginalTexts(ps)
    ensures MarkSkip(Render(ps, id), 0) == 0
  {
    if ps != [] {
      var id' := id + (if ps[0].Mark? then 1 else 0);
      assert MarkOriginalsNonEmpty(ps[1..]) by {
        forall k | 0 <= k < |ps[1..]| ensures ps[1..][k] == ps[k + 1] { }
      }
      assert ps[0].Mark? ==> ps[0].original != "";
      RevertPiece(ps[0], id);
      RevertRender(ps[1..], id');
      RevertMarksConcat(RenderPiece(ps[0], id), Render(ps[1..], id'), 0);
    }
  }

  /** The text nodes of the originals read as the original text. */
  lemma {:induction false} FlattenOriginalTexts(ps: seq<Piece>)
    ensures Flatten(OriginalTexts(ps)) == CharItems(Originals(ps))
  {
    if ps != [] {
      var head: seq<Token> := [Text(OriginalOf(ps[0]))];
      FlattenOriginalTexts(ps[1..]);
      FlattenConcat(head, OriginalTexts(ps[1..]));
      FlattenOne(Text(OriginalOf(ps[0])));
      CharItemsConcat(OriginalOf(ps[0]), Originals(ps[1..]));
    }
  }

  /** Each mark of the fragment keeps the non-empty text of a match. */
  lemma {:induction false} PiecesMarkOriginals(text: string, ms: seq<TextMatch>, last: nat)
    requires forall a :: 0 <= a < |ms| ==> ms[a].text != ""
    ensures MarkOriginalsNonEmpty(Pieces(text, ms, last))
  {
    if ms != [] {
      var m := ms[0];
      assert forall a :: 0 <= a < |ms[1..]| ==> ms[1..][a] == ms[a + 1];
      if m.index < last {
        PiecesMarkOriginals(text, ms[1..], last);
      } else {
        var e := m.index + |m.text|;
        PiecesMarkOriginals(text, ms[1..], e);
        var head := (if m.index > last then [Run(JsSlice(text, last, m.index))] else []);
        var mark := [Mark(m.text, CaseMatchReplacement(m.text, m.rule.chosen))];
        var rest := Pieces(text, ms[1..], e);
        assert Pieces(text, ms, last) == head + mark + rest;
        forall k | 0 <= k < |head + mark + rest| && (head + mark + rest)[k].Mark? ensures (head + mark + rest)[k].original != "" {
          if k >= |head| + 1 { assert (head + mark + rest)[k] == rest[k - |head| - 1]; }
        }
      }
    }
  }

  /**
   * Revert of a replaced text node: the fragment `replaceTextInNode` built
   * from `findMatches` reads, once reverted, as the text it replaced.
   */
  lemma ReplacedTextReverts(s: string, rules: seq<Rule>, id: nat)
    requires ValidRules(rules)
    ensures RevertElements(Render(Pieces(s, FindMatchesSpec(s, rules), 0), id)) == Render(Pieces(s, FindMatchesSpec(s, rules), 0), id)
    ensures Flatten(RevertTokens(Render(Pieces(s, FindMatchesSpec(s, rules), 0), id))) == CharItems(s)
    ensures MarkSkip(Render(Pieces(s, FindMatchesSpec(s, rules), 0), id), 0) == 0
  {
    var ms := FindMatchesSpec(s, rules);
    var ps := Pieces(s, ms, 0);
    FindMatchesInText(s, rules);
    PiecesReconstruct(s, ms, 0);
    assert s[0..] == s;
    PiecesMarkOriginals(s, ms, 0);
    RenderUncached(ps, id);
    RevertElementsUncached(Render(ps, id));
    RevertRender(ps, id);
    FlattenOriginalTexts(ps);
  }

  // ---------------------------------------------------------------------
  // processSubtree: the walk

  /** The `depth` argument: `Number.POSITIVE_INFINITY` by default. */
  datatype Depth = Infinite | Finite(n: int)

  /** `processedDepth < depth` no longer holds. */
  predicate Exhausted(d: Depth, used: nat)
  {
    d.Finite? && used >= d.n
  }

  /**
   * The walk's state: the tokens it has put out, the open elements as they
   * now stand, how deep it is inside a `mark[deadname]`, `processedDepth`,
   * the next free element id, and what it added to the two counters.
   */
  datatype Walker = Walker(out: seq<Token>, stack: seq<Element>, skip: nat, used: nat, nextId: nat, replaced: nat, attrsUpdated: nat)

  function Start(nextId: nat): Walker
  {
    Walker([], [], 0, 0, nextId, 0, 0)
  }

  function Pop(st: seq<Element>): seq<Element>
  {
    if st == [] then [] else st[..|st| - 1]
  }

  /**
   * The text node's value is replaced: it is not inside a deadname mark,
   * it has a parent, the iterator's filter accepts it (no ancestor blocks
   * it) and it has a match.
   */
  predicate Replaces(outer: seq<Element>, rules: seq<Rule>, w: Walker, s: string)
    requires ValidRules(rules)
  {
    w.skip == 0 && w.stack != [] && TextAllowed(outer + w.stack) && s != "" && FindMatchesSpec(s, rules) != []
  }

  /** What the page holds in place of the token once the walk has passed it. */
  function Emitted(outer: seq<Element>, rules: seq<Rule>, w: Walker, t: Token): seq<Token>
    requires ValidRules(rules)
  {
    match t
    case Open(e) =>
      if w.skip > 0 || !ShouldProcessElement(e) || IsDeadnameMark(e) then [t] else [Open(Processed(e, rules))]
    case Close => [t]
    case Text(s) =>
      if Replaces(outer, rules, w, s) then Render(Pieces(s, FindMatchesSpec(s, rules), 0), w.nextId) else [t]
  }

  /** One node of the iteration; `outer` are the ancestors of the root. */
  function Step(outer: seq<Element>, rules: seq<Rule>, w: Walker, t: Token): Walker
    requires ValidRules(rules)
  {
    var out := w.out + Emitted(outer, rules, w, t);
    match t
    case Open(e) =>
      if w.skip > 0 then w.(out := out, stack := w.stack + [e], skip := w.skip + 1)
      else if !ShouldProcessElement(e) then w.(out := out, stack := w.stack + [e])
      else if IsDeadnameMark(e) then w.(out := out, stack := w.stack + [e], skip := 1)
      else
        w.(out := out, stack := w.stack + [Processed(e, rules)], used := w.used + 1,
           attrsUpdated := w.attrsUpdated + RewriteCount(e.attrs, AccessibilityAttributes, rules))
    case Close => w.(out := out, stack := Pop(w.stack), skip := if w.skip > 0 then w.skip - 1 else 0)
    case Text(s) =>
      if Replaces(outer, rules, w, s) then
        var ms := FindMatchesSpec(s, rules);
        w.(out := out, nextId := w.nextId + MarkCount(Pieces(s, ms, 0)), replaced := w.replaced + |KeptMatches(ms, 0)|)
      else w.(out := out)
  }

  /** A step appends what it emits. */
  lemma StepEmits(outer: seq<Element>, rules: seq<Rule>, w: Walker, t: Token)
    requires ValidRules(rules)
    ensures Step(outer, rules, w, t).out == w.out + Emitted(outer, rules, w, t)
  {
  }

  /** The walker after the first `k` tokens of `input`. */
  function Advance(outer: seq<Element>, rules: seq<Rule>, w: Walker, input: seq<Token>, k: nat): Walker
    requires ValidRules(rules) && k <= |input|
  {
    if k == 0 then w else Step(outer, rules, Advance(outer, rules, w, input, k - 1), input[k - 1])
  }

  /** The iteration ends: the depth is used up, or the root has closed. */
  predicate Stops(depth: Depth, w: Walker, k: nat)
  {
    Exhausted(depth, w.used) || (k > 0 && w.stack == [])
  }

  /**
   * The iteration from the `k`-th token on, with walker `w`, until it
   * stops: the walker it ends with and the number of tokens consumed.
   */
  function WalkFrom(outer: seq<Element>, rules: seq<Rule>, depth: Depth, w: Walker, input: seq<Token>, k: nat): (r: (Walker, nat))
    requires ValidRules(rules) && k <= |input|
    ensures k <= r.1 <= |input|
    decreases |input| - k
  {
    if k == |input| || Stops(depth, w, k) then (w, k)
    else WalkFrom(outer, rules, depth, Step(outer, rules, w, input[k]), input, k + 1)
  }

  /** The walk ends where it must: at the end of the input, at the root's closing, or with the depth used up. */
  lemma {:induction false} WalkEnds(outer: seq<Element>, rules: seq<Rule>, depth: Depth, w: Walker, input: seq<Token>, k: nat)
    requires ValidRules(rules) && k <= |input|
    ensures var r := WalkFrom(outer, rules, depth, w, input, k);
      r.1 == |input| || Stops(depth, r.0, r.1)
    decreases |input| - k
  {
    if !(k == |input| || Stops(depth, w, k)) {
      var v := Step(outer, rules, w, input[k]);
      var j := k + 1;
      WalkFromStep(outer, rules, depth, w, input, k);
      WalkEnds(outer, rules, depth, v, input, j);
      var r := WalkFrom(outer, rules, depth, v, input, j);
      assert WalkFrom(outer, rules, depth, w, input, k) == r;
    }
  }

  /** Until it stops, the walk is the walker of `Advance`, token after token. */
  lemma {:induction false} WalkFromAdvance(outer: seq<Element>, rules: seq<Rule>, depth: Depth, w: Walker, input: seq<Token>, k: nat)
    requires ValidRules(rules) && k <= |input|
    requires forall i :: 0 <= i < k ==> !Stops(depth, Advance(outer, rules, w, input, i), i)
    ensures WalkFrom(outer, rules, depth, w, input, 0) == WalkFrom(outer, rules, depth, Advance(outer, rules, w, input, k), input, k)
  {
    if k > 0 {
      var j := k - 1;
      WalkFromAdvance(outer, rules, depth, w, input, j);
      var v := Advance(outer, rules, w, input, j);
      assert !Stops(depth, v, j);
      AdvanceOnce(outer, rules, w, input, j, k);
      WalkFromStep(outer, rules, depth, v, input, j);
    }
  }

  lemma AdvanceOnce(outer: seq<Element>, rules: seq<Rule>, w: Walker, input: seq<Token>, j: nat, k: nat)
    requires ValidRules(rules) && j < |input| && k == j + 1
    ensures Advance(outer, rules, w, input, k) == Step(outer, rules, Advance(outer, rules, w, input, j), input[j])
  {
  }

  /** `processSubtree(root, rules, depth)` on a page, `root` the position of the root's opening. */
  function Subtree(tokens: seq<Token>, root: nat, rules: seq<Rule>, depth: Depth, nextId: nat): (r: (Walker, nat))
    requires ValidRules(rules) && root <= |tokens|
    ensures r.1 <= |tokens| - root
  {
    WalkFrom(OpenStack(tokens[..root]), rules, depth, Start(nextId), tokens[root..], 0)
  }

  /** The page after `processSubtree`: what lies before the root, the walk's output, and the tokens it did not reach. */
  function AfterSubtree(tokens: seq<Token>, root: nat, rules: seq<Rule>, depth: Depth, nextId: nat): seq<Token>
    requires ValidRules(rules) && root <= |tokens|
  {
    Splice(tokens, root, Subtree(tokens, root, rules, depth, nextId))
  }

  /** The tokens before `root`, the walk's output, and the tokens after the `r.1` the walk consumed. */
  function Splice(tokens: seq<Token>, root: nat, r: (Walker, nat)): seq<Token>
    requires root + r.1 <= |tokens|
  {
    tokens[..root] + r.0.out + tokens[root + r.1..]
  }

  // ---------------------------------------------------------------------
  // The depth bound

  /** `processedDepth` never exceeds `depth`: at most `depth` elements are processed. */
  lemma {:induction false} WalkWithinDepth(outer: seq<Element>, rules: seq<Rule>, n: int, w: Walker, input: seq<Token>, k: nat)
    requires ValidRules(rules) && k <= |input| && w.used <= n
    ensures WalkFrom(outer, rules, Finite(n), w, input, k).0.used <= n
    decreases |input| - k
  {
    if !(k == |input| || Stops(Finite(n), w, k)) {
      StepUses(outer, rules, w, input[k]);
      WalkWithinDepth(outer, rules, n, Step(outer, rules, w, input[k]), input, k + 1);
    }
  }

  /** Depth 0 changes nothing. */
  lemma SubtreeDepthZero(tokens: seq<Token>, root: nat, rules: seq<Rule>, id: nat)
    requires ValidRules(rules) && root <= |tokens|
    ensures AfterSubtree(tokens, root, rules, Finite(0), id) == tokens
    ensures Subtree(tokens, root, rules, Finite(0), id).0 == Start(id)
  {
    assert tokens[..root] + [] + tokens[root..] == tokens;
  }

  /** Only a processed element counts toward the depth: a text, a closing, a skipped element or a mark leaves it as it was. */
  lemma StepUses(outer: seq<Element>, rules: seq<Rule>, w: Walker, t: Token)
    requires ValidRules(rules)
    ensures Step(outer, rules, w, t).used == w.used + (if t.Open? && w.skip == 0 && ShouldProcessElement(t.e) && !IsDeadnameMark(t.e) then 1 else 0)
  {
  }

  // ---------------------------------------------------------------------
  // The walk's ancestors

  /** Two ancestor chains that agree, element by element, on everything the walk looks at. */
  predicate Corresponds(a: seq<Element>, b: seq<Element>)
  {
    |a| == |b| && forall j :: 0 <= j < |a| ==> BlocksText(a[j]) == BlocksText(b[j]) && IsDeadnameMark(a[j]) == IsDeadnameMark(b[j])
  }

  lemma CorrespondsPush(a: seq<Element>, b: seq<Element>, x: Element, y: Element)
    requires Corresponds(a, b)
    requires BlocksText(x) == BlocksText(y) && IsDeadnameMark(x) == IsDeadnameMark(y)
    ensures Corresponds(a + [x], b + [y])
  {
    forall j | 0 <= j < |a| + 1
      ensures BlocksText((a + [x])[j]) == BlocksText((b + [y])[j]) && IsDeadnameMark((a + [x])[j]) == IsDeadnameMark((b + [y])[j])
    {
      if j < |a| { assert (a + [x])[j] == a[j] && (b + [y])[j] == b[j]; }
    }
  }

  lemma CorrespondsPop(a: seq<Element>, b: seq<Element>)
    requires Corresponds(a, b)
    ensures Corresponds(Pop(a), Pop(b))
  {
    if a != [] {
      forall j | 0 <= j < |a| - 1 ensures Pop(a)[j] == a[j] && Pop(b)[j] == b[j] { }
    }
  }

  /** Chains that correspond let the same texts through, below the same outer ancestors. */
  lemma CorrespondsAllowed(outer: seq<Element>, a: seq<Element>, b: seq<Element>)
    requires Corresponds(a, b)
    ensures TextAllowed(outer + a) == TextAllowed(outer + b)
  {
    TextAllowedMeaning(outer + a);
    TextAllowedMeaning(outer + b);
    forall j | 0 <= j < |outer + a| ensures BlocksText((outer + a)[j]) == BlocksText((outer + b)[j]) {
      if j < |outer| {
        assert (outer + a)[j] == outer[j] && (outer + b)[j] == outer[j];
      } else {
        assert (outer + a)[j] == a[j - |outer|] && (outer + b)[j] == b[j - |outer|];
      }
    }
  }

  /** How many of the open elements lie inside (or are) the outermost deadname mark. */
  function MarkDepth(st: seq<Element>): nat
  {
    if st == [] then 0 else if IsDeadnameMark(st[0]) then |st| else MarkDepth(st[1..])
  }

  lemma {:induction false} MarkDepthPush(st: seq<Element>, x: Element)
    ensures MarkDepth(st + [x]) == if MarkDepth(st) > 0 then MarkDepth(st) + 1 else if IsDeadnameMark(x) then 1 else 0
  {
    if st == [] {
      assert [] + [x] == [x] && [x][1..] == [];
    } else {
      assert (st + [x])[0] == st[0] && (st + [x])[1..] == st[1..] + [x];
      MarkDepthPush(st[1..], x);
    }
  }

  lemma MarkDepthPop(st: seq<Element>)
    ensures MarkDepth(Pop(st)) == if MarkDepth(st) > 0 then MarkDepth(st) - 1 else 0
  {
    if st != [] {
      var init := st[..|st| - 1];
      assert st == init + [st[|st| - 1]];
      MarkDepthPush(init, st[|st| - 1]);
    }
  }

  lemma {:induction false} MarkDepthInside(st: seq<Element>, j: nat)
    requires j < |st| && IsDeadnameMark(st[j])
    ensures MarkDepth(st) > 0
  {
    if !IsDeadnameMark(st[0]) {
      assert st[1..][j - 1] == st[j];
      MarkDepthInside(st[1..], j - 1);
    }
  }

  /** A `mark` is never one of the ignored tags. */
  lemma MarkIsProcessed(e: Element)
    requires IsDeadnameMark(e)
    ensures ShouldProcessElement(e)
  {
  }

  /**
   * The walk's stack stands for the elements open in the input, and its
   * skip count is how deep it is inside a deadname mark.
   */
  lemma {:induction false} StackTracks(outer: seq<Element>, rules: seq<Rule>, w: Walker, input: seq<Token>, k: nat)
    requires ValidRules(rules) && k <= |input| && w.stack == [] && w.skip == 0
    ensures Corresponds(Advance(outer, rules, w, input, k).stack, OpenStack(input[..k]))
    ensures Advance(outer, rules, w, input, k).skip == MarkDepth(Advance(outer, rules, w, input, k).stack)
  {
    if k > 0 {
      var j := k - 1;
      StackTracks(outer, rules, w, input, j);
      var v := Advance(outer, rules, w, input, j);
      var st := OpenStack(input[..j]);
      AdvanceOnce(outer, rules, w, input, j, k);
      OpenStackOnce(input, j, k);
      match input[j]
      case Open(e) => StackStepOpen(outer, rules, v, e, st);
      case Close => StackStepClose(outer, rules, v, st);
      case Text(_) =>
    }
  }

  /** The open elements one token further. */
  lemma OpenStackOnce(input: seq<Token>, j: nat, k: nat)
    requires j < |input| && k == j + 1
    ensures var st := OpenStack(input[..j]);
      OpenStack(input[..k]) ==
        match input[j]
        case Open(e) => st + [e]
        case Close => if st == [] then [] else st[..|st| - 1]
        case Text(_) => st
  {
    var ts := input[..k];
    assert ts[..|ts| - 1] == input[..j] && ts[|ts| - 1] == input[j];
  }

  /** One element opening keeps the walker's stack in step with the open elements, and its skip count with the marks on it. */
  lemma StackStepOpen(outer: seq<Element>, rules: seq<Rule>, v: Walker, e: Element, st: seq<Element>)
    requires ValidRules(rules) && Corresponds(v.stack, st) && v.skip == MarkDepth(v.stack)
    ensures Corresponds(Step(outer, rules, v, Open(e)).stack, st + [e])
    ensures Step(outer, rules, v, Open(e)).skip == MarkDepth(Step(outer, rules, v, Open(e)).stack)
  {
    if v.skip > 0 || !ShouldProcessElement(e) || IsDeadnameMark(e) {
      CorrespondsPush(v.stack, st, e, e);
      MarkDepthPush(v.stack, e);
      if !ShouldProcessElement(e) && v.skip == 0 {
        if IsDeadnameMark(e) { MarkIsProcessed(e); }
      }
    } else {
      ProcessedKeeps(e, rules);
      CorrespondsPush(v.stack, st, Processed(e, rules), e);
      MarkDepthPush(v.stack, Processed(e, rules));
    }
  }

  /** The same for one element closing. */
  lemma StackStepClose(outer: seq<Element>, rules: seq<Rule>, v: Walker, st: seq<Element>)
    requires ValidRules(rules) && Corresponds(v.stack, st) && v.skip == MarkDepth(v.stack)
    ensures Corresponds(Step(outer, rules, v, Close).stack, if st == [] then [] else st[..|st| - 1])
    ensures Step(outer, rules, v, Close).skip == MarkDepth(Step(outer, rules, v, Close).stack)
  {
    CorrespondsPop(v.stack, st);
    MarkDepthPop(v.stack);
  }

  // ---------------------------------------------------------------------
  // Exclusion safety and marks

  /**
   * A text node with an ancestor that blocks it (a form element, an
   * ignored tag, or an attribute of the exclusion table) is left exactly
   * as it is.
   */
  lemma ExclusionSafety(outer: seq<Element>, rules: seq<Rule>, w: Walker, input: seq<Token>, k: nat)
    requires ValidRules(rules) && k < |input| && w.stack == [] && w.skip == 0
    requires input[k].Text? && !TextAllowed(outer + OpenStack(input[..k]))
    ensures Emitted(outer, rules, Advance(outer, rules, w, input, k), input[k]) == [input[k]]
    ensures Advance(outer, rules, w, input, k + 1).replaced == Advance(outer, rules, w, input, k).replaced
  {
    StackTracks(outer, rules, w, input, k);
    CorrespondsAllowed(outer, Advance(outer, rules, w, input, k).stack, OpenStack(input[..k]));
  }

  /** Inside a deadname mark nothing is changed and nothing counts toward the depth. */
  lemma InsideMarkUntouched(outer: seq<Element>, rules: seq<Rule>, w: Walker, input: seq<Token>, k: nat, j: nat)
    requires ValidRules(rules) && k < |input| && w.stack == [] && w.skip == 0
    requires j < |OpenStack(input[..k])| && IsDeadnameMark(OpenStack(input[..k])[j])
    ensures Emitted(outer, rules, Advance(outer, rules, w, input, k), input[k]) == [input[k]]
    ensures Advance(outer, rules, w, input, k + 1).used == Advance(outer, rules, w, input, k).used
    ensures Advance(outer, rules, w, input, k + 1).replaced == Advance(outer, rules, w, input, k).replaced
  {
    StackTracks(outer, rules, w, input, k);
    var v := Advance(outer, rules, w, input, k);
    assert IsDeadnameMark(v.stack[j]);
    MarkDepthInside(v.stack, j);
  }

  /** A deadname mark itself is passed over: copied, not processed, not counted. */
  lemma MarkPassedOver(outer: seq<Element>, rules: seq<Rule>, w: Walker, input: seq<Token>, k: nat)
    requires ValidRules(rules) && k < |input|
    requires input[k].Open? && IsDeadnameMark(input[k].e)
    ensures Emitted(outer, rules, Advance(outer, rules, w, input, k), input[k]) == [input[k]]
    ensures Advance(outer, rules, w, input, k + 1).used == Advance(outer, rules, w, input, k).used
  {
  }

  // ---------------------------------------------------------------------
  // Revert restores what was stored

  /** A text or a closing is its own revert. */
  lemma PlainReverts(t: Token)
    requires !t.Open?
    ensures RevertElements([t]) == [t]
    ensures RevertTokens([t]) == [t] && MarkSkip([t], 0) == 0
  {
    assert [t][1..] == [];
    assert RevertElements([t]) == [t];
    assert RevertMarks([t], 0) == [t];
  }

  /** Each token the walk passes reads, once reverted, as the token it was. */
  lemma EmittedReverts(outer: seq<Element>, rules: seq<Rule>, w: Walker, t: Token)
    requires ValidRules(rules) && w.skip == 0
    requires t.Open? ==> Uncached(t.e) && !IsDeadnameMark(t.e)
    ensures Flatten(RevertTokens(Emitted(outer, rules, w, t))) == TokenItems(t)
    ensures MarkSkip(RevertElements(Emitted(outer, rules, w, t)), 0) == 0
  {
    match t
    case Open(e) =>
      var f := if !ShouldProcessElement(e) then e else Processed(e, rules);
      assert Emitted(outer, rules, w, t) == [Open(f)];
      if !ShouldProcessElement(e) {
        RevertUncached(e);
      } else {
        RevertProcessed(e, rules);
        ProcessedKeeps(e, rules);
      }
      assert RevertElements([Open(f)])[0] == Open(RevertElement(f));
      assert RevertElements([Open(f)]) == [t];
      assert [t][1..] == [];
      assert RevertMarkStep(t, 0) == ([t], 0);
      assert RevertMarks([t], 0) == [t];
      assert RevertTokens([Open(f)]) == [t];
      FlattenOne(t);
    case Close =>
      PlainReverts(t);
      FlattenOne(t);
    case Text(s) =>
      if Replaces(outer, rules, w, s) {
        ReplacedTextReverts(s, rules, w.nextId);
      } else {
        PlainReverts(t);
        FlattenOne(t);
      }
  }

  /** The output with one more token emitted reverts to the input with that token. */
  lemma StepReverts(outer: seq<Element>, rules: seq<Rule>, w: Walker, t: Token, done: seq<Token>)
    requires ValidRules(rules) && w.skip == 0
    requires t.Open? ==> Uncached(t.e) && !IsDeadnameMark(t.e)
    requires Flatten(RevertTokens(w.out)) == Flatten(done) && MarkSkip(RevertElements(w.out), 0) == 0
    ensures Flatten(RevertTokens(w.out + Emitted(outer, rules, w, t))) == Flatten(done + [t])
    ensures MarkSkip(RevertElements(w.out + Emitted(outer, rules, w, t)), 0) == 0
  {
    EmittedReverts(outer, rules, w, t);
    AppendReverts(w.out, Emitted(outer, rules, w, t), done, t);
  }

  /** Outside marks a step appends what it emits and stays outside, unless it opens a mark. */
  lemma StepOutside(outer: seq<Element>, rules: seq<Rule>, w: Walker, t: Token)
    requires ValidRules(rules) && w.skip == 0
    requires t.Open? ==> !IsDeadnameMark(t.e)
    ensures Step(outer, rules, w, t).out == w.out + Emitted(outer, rules, w, t)
    ensures Step(outer, rules, w, t).skip == 0
  {
  }

  lemma AppendReverts(out: seq<Token>, em: seq<Token>, done: seq<Token>, t: Token)
    requires Flatten(RevertTokens(out)) == Flatten(done) && MarkSkip(RevertElements(out), 0) == 0
    requires Flatten(RevertTokens(em)) == TokenItems(t) && MarkSkip(RevertElements(em), 0) == 0
    ensures Flatten(RevertTokens(out + em)) == Flatten(done + [t]) && MarkSkip(RevertElements(out + em), 0) == 0
  {
    RevertElementsConcat(out, em);
    RevertMarksConcat(RevertElements(out), RevertElements(em), 0);
    FlattenConcat(RevertTokens(out), RevertTokens(em));
    FlattenConcat(done, [t]);
    FlattenOne(t);
  }

  /** Revert of what the walk puts out reads as what it consumed. */
  lemma {:induction false} WalkReverts(outer: seq<Element>, rules: seq<Rule>, depth: Depth, w: Walker, input: seq<Token>, k: nat)
    requires ValidRules(rules) && k <= |input| && w.skip == 0 && Fresh(input)
    requires Flatten(RevertTokens(w.out)) == Flatten(input[..k]) && MarkSkip(RevertElements(w.out), 0) == 0
    ensures Flatten(RevertTokens(WalkFrom(outer, rules, depth, w, input, k).0.out)) == Flatten(input[..WalkFrom(outer, rules, depth, w, input, k).1])
    ensures MarkSkip(RevertElements(WalkFrom(outer, rules, depth, w, input, k).0.out), 0) == 0
    decreases |input| - k
  {
    if k == |input| || Stops(depth, w, k) {
      WalkFromStops(outer, rules, depth, w, input, k);
    } else {
      var v := NextKeepsReverts(outer, rules, depth, w, input, k);
      WalkReverts(outer, rules, depth, v, input, k + 1);
    }
  }

  /** The walker after one more step outside marks, with the revert of its output the input read so far. */
  lemma NextKeepsReverts(outer: seq<Element>, rules: seq<Rule>, depth: Depth, w: Walker, input: seq<Token>, k: nat) returns (v: Walker)
    requires ValidRules(rules) && k < |input| && w.skip == 0 && Fresh(input) && !Stops(depth, w, k)
    requires Flatten(RevertTokens(w.out)) == Flatten(input[..k]) && MarkSkip(RevertElements(w.out), 0) == 0
    ensures WalkFrom(outer, rules, depth, w, input, k) == WalkFrom(outer, rules, depth, v, input, k + 1)
    ensures v.skip == 0
    ensures Flatten(RevertTokens(v.out)) == Flatten(input[..k + 1]) && MarkSkip(RevertElements(v.out), 0) == 0
  {
    var t := input[k];
    assert t.Open? ==> Uncached(t.e) && !IsDeadnameMark(t.e);
    v := Step(outer, rules, w, t);
    StepKeepsReverts(outer, rules, w, t, input[..k]);
    TakeNext(input, k);
    WalkFromStep(outer, rules, depth, w, input, k);
  }

  /** A walk that stops at once ends with the walker it has. */
  lemma WalkFromStops(outer: seq<Element>, rules: seq<Rule>, depth: Depth, w: Walker, input: seq<Token>, k: nat)
    requires ValidRules(rules) && k <= |input| && (k == |input| || Stops(depth, w, k))
    ensures WalkFrom(outer, rules, depth, w, input, k) == (w, k)
  {
  }

  /** A walk that goes on is the walk from the next token with the walker after one step. */
  lemma WalkFromStep(outer: seq<Element>, rules: seq<Rule>, depth: Depth, w: Walker, input: seq<Token>, k: nat)
    requires ValidRules(rules) && k < |input| && !Stops(depth, w, k)
    ensures WalkFrom(outer, rules, depth, w, input, k) == WalkFrom(outer, rules, depth, Step(outer, rules, w, input[k]), input, k + 1)
  {
  }

  /** One step outside marks keeps the revert of the output equal to the input read so far. */
  lemma StepKeepsReverts(outer: seq<Element>, rules: seq<Rule>, w: Walker, t: Token, done: seq<Token>)
    requires ValidRules(rules) && w.skip == 0
    requires t.Open? ==> Uncached(t.e) && !IsDeadnameMark(t.e)
    requires Flatten(RevertTokens(w.out)) == Flatten(done) && MarkSkip(RevertElements(w.out), 0) == 0
    ensures Step(outer, rules, w, t).skip == 0
    ensures Flatten(RevertTokens(Step(outer, rules, w, t).out)) == Flatten(done + [t])
    ensures MarkSkip(RevertElements(Step(outer, rules, w, t).out), 0) == 0
  {
    StepOutside(outer, rules, w, t);
    StepReverts(outer, rules, w, t, done);
  }

  /**
   * `revertAllReplacements` after `processSubtree` on a page the extension
   * had not touched gives back the page as its reader saw it: every
   * attribute as it was, every replaced text as it was (now possibly split
   * into several adjacent text nodes).
   */
  lemma SubtreeThenRevert(tokens: seq<Token>, root: nat, rules: seq<Rule>, depth: Depth, id: nat)
    requires ValidRules(rules) && root <= |tokens| && Fresh(tokens)
    ensures Flatten(RevertTokens(AfterSubtree(tokens, root, rules, depth, id))) == Flatten(tokens)
  {
    WalkedReverts(tokens, root, rules, depth, Start(id), Subtree(tokens, root, rules, depth, id));
  }

  lemma WalkedReverts(tokens: seq<Token>, root: nat, rules: seq<Rule>, depth: Depth, w: Walker, r: (Walker, nat))
    requires ValidRules(rules) && root <= |tokens| && Fresh(tokens) && w.out == [] && w.skip == 0
    requires r == WalkFrom(OpenStack(tokens[..root]), rules, depth, w, tokens[root..], 0)
    ensures root + r.1 <= |tokens|
    ensures Flatten(RevertTokens(Splice(tokens, root, r))) == Flatten(tokens)
  {
    FreshSlice(tokens, root, |tokens|);
    assert tokens[root..] == tokens[root..|tokens|];
    StartReverts(OpenStack(tokens[..root]), rules, depth, w, tokens[root..], r);
    SpliceOfReverted(tokens, root, r);
  }

  lemma SpliceOfReverted(tokens: seq<Token>, root: nat, r: (Walker, nat))
    requires Fresh(tokens) && root + r.1 <= |tokens|
    requires Flatten(RevertTokens(r.0.out)) == Flatten(tokens[root..][..r.1]) && MarkSkip(RevertElements(r.0.out), 0) == 0
    ensures Flatten(RevertTokens(Splice(tokens, root, r))) == Flatten(tokens)
  {
    var out, n := r.0.out, r.1;
    SpliceReverts(tokens, root, n, out);
    SpliceIs(tokens, root, r, out, n);
  }

  lemma SpliceIs(tokens: seq<Token>, root: nat, r: (Walker, nat), out: seq<Token>, n: nat)
    requires root + r.1 <= |tokens| && out == r.0.out && n == r.1
    ensures Splice(tokens, root, r) == tokens[..root] + out + tokens[root + n..]
  {
  }

  /** The walk from the root's opening on reverts to the tokens it consumed. */
  lemma StartReverts(outer: seq<Element>, rules: seq<Rule>, depth: Depth, w: Walker, input: seq<Token>, r: (Walker, nat))
    requires ValidRules(rules) && Fresh(input) && w.out == [] && w.skip == 0
    requires r == WalkFrom(outer, rules, depth, w, input, 0)
    ensures r.1 <= |input|
    ensures Flatten(RevertTokens(r.0.out)) == Flatten(input[..r.1]) && MarkSkip(RevertElements(r.0.out), 0) == 0
  {
    assert input[..0] == [];
    assert RevertElements([]) == [];
    WalkReverts(outer, rules, depth, w, input, 0);
  }

  /** A walk's output that reverts to the tokens it consumed, spliced back between fresh tokens. */
  lemma SpliceReverts(tokens: seq<Token>, root: nat, n: nat, out: seq<Token>)
    requires Fresh(tokens) && root + n <= |tokens|
    requires Flatten(RevertTokens(out)) == Flatten(tokens[root..][..n]) && MarkSkip(RevertElements(out), 0) == 0
    ensures Flatten(RevertTokens(tokens[..root] + out + tokens[root + n..])) == Flatten(tokens)
  {
    var pre := tokens[..root];
    var post := tokens[root + n..];
    FreshSlice(tokens, 0, root);
    FreshSlice(tokens, root + n, |tokens|);
    assert pre == tokens[0..root] && post == tokens[root + n..|tokens|];
    SpliceRevertsParts(pre, out, post);
    ThreeParts(tokens, root, n);
  }

  /** Fresh tokens around a walk's output revert to themselves, and the output reverts on its own. */
  lemma SpliceRevertsParts(pre: seq<Token>, out: seq<Token>, post: seq<Token>)
    requires Fresh(pre) && Fresh(post) && MarkSkip(RevertElements(out), 0) == 0
    ensures Flatten(RevertTokens(pre + out + post)) == Flatten(pre) + Flatten(RevertTokens(out)) + Flatten(post)
  {
    RevertFresh(pre);
    RevertFresh(post);
    RevertElementsUncached(pre);
    RevertElementsUncached(post);
    RevertElementsConcat(pre + out, post);
    RevertElementsConcat(pre, out);
    RevertMarksConcat(pre + RevertElements(out), post, 0);
    RevertMarksConcat(pre, RevertElements(out), 0);
    FlattenConcat(pre + RevertTokens(out), post);
    FlattenConcat(pre, RevertTokens(out));
  }

  lemma ThreeParts(tokens: seq<Token>, root: nat, n: nat)
    requires root + n <= |tokens|
    ensures Flatten(tokens) == Flatten(tokens[..root]) + Flatten(tokens[root..][..n]) + Flatten(tokens[root + n..])
  {
    var pre := tokens[..root];
    var mid := tokens[root..][..n];
    var post := tokens[root + n..];
    assert tokens == pre + mid + post;
    FlattenConcat(pre + mid, post);
    FlattenConcat(pre, mid);
  }

  lemma FreshSlice(ts: seq<Token>, a: nat, b: nat)
    requires Fresh(ts) && a <= b <= |ts|
    ensures Fresh(ts[a..b])
  {
    forall i | 0 <= i < b - a ensures ts[a..b][i] == ts[a + i] { }
  }

  // ---------------------------------------------------------------------
  // The document title

  /** One rule on the title: replaced only when `pattern.test(title)` holds. */
  function TitleStep(title: string, rule: Rule): string
    requires rule.dead != ""
  {
    if RuleMatches(title, rule) != [] then ReplaceAll(title, rule) else title
  }

  /** The title after every rule, in map order. */
  function TitleRewrite(title: string, rules: seq<Rule>): string
    requires ValidRules(rules)
    decreases |rules|
  {
    if rules == [] then title else TitleRewrite(TitleStep(title, rules[0]), rules[1..])
  }

  /** `replacementsMade` gained on the title: one per rule that matched, however often. */
  function TitleHits(title: string, rules: seq<Rule>): nat
    requires ValidRules(rules)
    decreases |rules|
  {
    if rules == [] then 0
    else (if RuleMatches(title, rules[0]) != [] then 1 else 0) + TitleHits(TitleStep(title, rules[0]), rules[1..])
  }

  /** A rule that does not match leaves the text as it is. */
  lemma ReplaceAllNone(text: string, rule: Rule)
    requires rule.dead != "" && RuleMatches(text, rule) == []
    ensures ReplaceAll(text, rule) == text
  {
    if text != [] {
      OneTexts(Run(text[0..]));
      assert text[0..] == text;
    }
  }

  /** The `test` guard does not change the result: the title gets what the attributes get. */
  lemma {:induction false} TitleRewriteIsApplyRules(title: string, rules: seq<Rule>)
    requires ValidRules(rules)
    ensures TitleRewrite(title, rules) == ApplyRules(title, rules)
    decreases |rules|
  {
    if rules != [] {
      if RuleMatches(title, rules[0]) == [] { ReplaceAllNone(title, rules[0]); }
      TitleRewriteIsApplyRules(TitleStep(title, rules[0]), rules[1..]);
    }
  }

  /** The hits are bounded by the number of rules. */
  lemma {:induction false} TitleHitsBound(title: string, rules: seq<Rule>)
    requires ValidRules(rules)
    ensures TitleHits(title, rules) <= |rules|
    decreases |rules|
  {
    if rules != [] { TitleHitsBound(TitleStep(title, rules[0]), rules[1..]); }
  }

  /** `processDocument` on `(document.title, originalTitle)`: a non-empty title is recorded, then rewritten. */
  function ProcessTitle(title: string, original: Option<string>, rules: seq<Rule>): (string, Option<string>)
    requires ValidRules(rules)
  {
    if title != "" then (TitleRewrite(title, rules), Some(title)) else (title, original)
  }

  /** `revertAllReplacements` on `(document.title, originalTitle)`. */
  function RevertTitle(title: string, original: Option<string>): (string, Option<string>)
  {
    if original.Some? then (original.value, None) else (title, None)
  }

  /** Revert after one `processDocument` gives back a non-empty title, and clears the record. */
  lemma TitleRoundTrip(title: string, original: Option<string>, rules: seq<Rule>)
    requires ValidRules(rules) && title != ""
    ensures RevertTitle(ProcessTitle(title, original, rules).0, ProcessTitle(title, original, rules).1) == (title, None)
  {
  }

  /**
   * The record is overwritten on every `processDocument`: after two
   * calls, revert gives back the title as the first call left it.
   */
  lemma TitleRecordOverwritten(title: string, original: Option<string>, rules: seq<Rule>)
    requires ValidRules(rules) && title != "" && TitleRewrite(title, rules) != ""
    ensures var (t1, o1) := ProcessTitle(title, original, rules);
      var (t2, o2) := ProcessTitle(t1, o1, rules);
      RevertTitle(t2, o2) == (TitleRewrite(title, rules), None)
  {
  }

  /** Revert leaves no record, and without one leaves the title alone. */
  lemma RevertTitleClears(title: string, original: Option<string>)
    ensures RevertTitle(title, original).1 == None
    ensures original == None ==> RevertTitle(title, original).0 == title
  {
  }
}
