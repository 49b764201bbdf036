/**
 * The `TextProcessor` object and the page it works on: the methods of
 * `services/textProcessor.ts` step by step, each proved against the
 * functions of module TextProcessing that say what it computes.
 */
module Processor {
  import opened Wrappers
  import opened Seqs
  import opened Chars
  import opened Dom
  import opened TextMatching
  import opened ContentUtils
  import opened Attributes
  import opened TextProcessing

  /**
   * The document: its title, its nodes in tree order, the id the next
   * created element receives, and `TextProcessor.originalTitle`, which is
   * static and so lives as long as the page.
   */
  class Page {
    var title: string
    var tokens: seq<Token>
    var nextId: nat
    var originalTitle: Option<string>

    constructor (title: string, tokens: seq<Token>, nextId: nat)
      ensures this.title == title && this.tokens == tokens && this.nextId == nextId
      ensures originalTitle == None
    {
      this.title := title;
      this.tokens := tokens;
      this.nextId := nextId;
      originalTitle := None;
    }
  }

  /** What `getMetrics` returns, without `processingTime`. */
  datatype Metrics = Metrics(nodesProcessed: nat, replacementsMade: nat, accessibilityAttributesUpdated: nat)

  // ---------------------------------------------------------------------
  // Facts about the fragment the loops build

  /** One `exec` hit moves its match from the pending matches to the found ones. */
  lemma FoundBounds(text: string, rule: Rule, from: nat, i: nat)
    requires rule.dead != ""
    requires NextMatch(CreateReplacementPattern(rule.dead), text, from) == Some(i)
    ensures from <= i && i + |rule.dead| <= |text|
  {
    MatchesFromNext(text, rule, from);
  }

  lemma FoundStep(found: seq<TextMatch>, text: string, rule: Rule, from: nat, i: nat, found': seq<TextMatch>, last: nat)
    requires rule.dead != ""
    requires NextMatch(CreateReplacementPattern(rule.dead), text, from) == Some(i)
    requires last == i + |rule.dead| <= |text| && found' == found + [TextMatch(text[i..last], i, rule)]
    ensures found + MatchesFrom(text, rule, from) == found' + MatchesFrom(text, rule, last)
  {
    MatchesFromNext(text, rule, from);
    ConcatAssoc(found, [TextMatch(text[i..last], i, rule)], MatchesFrom(text, rule, last));
  }

  /** The matches of the rules up to `k`, one more rule at a time. */
  lemma CollectedNext(text: string, rules: seq<Rule>, k: nat)
    requires ValidRules(rules) && k < |rules|
    ensures Collected(text, rules[..k + 1]) == Collected(text, rules[..k]) + RuleMatches(text, rules[k])
  {
    assert rules[..k + 1][..k] == rules[..k];
  }

  /** A match that starts inside the last one placed is passed over. */
  lemma PassMatch(s: string, ms: seq<TextMatch>, k: nat, last: nat)
    requires k < |ms| && ms[k].index < last
    ensures Pieces(s, ms[k..], last) == Pieces(s, ms[k + 1..], last)
    ensures KeptMatches(ms[k..], last) == KeptMatches(ms[k + 1..], last)
  {
    DropNext(ms, k);
  }

  /** The tokens of `<mark deadname data-original=o>shown</mark>` with the given id. */
  function MarkTokens(id: nat, original: string, shown: string): seq<Token>
  {
    [Open(MarkElement(id, original))] + (if shown == "" then [] else [Text(shown)]) + [Close]
  }

  /** A match placed: the unmatched text before it if any, then its mark, then the rest from its end. */
  lemma PiecesPlace(s: string, ms: seq<TextMatch>, k: nat, last: nat)
    requires k < |ms| && ms[k].index >= last
    ensures var m := ms[k];
      var mark := Mark(m.text, CaseMatchReplacement(m.text, m.rule.chosen));
      var rest := Pieces(s, ms[k + 1..], m.index + |m.text|);
      && (m.index > last ==> Pieces(s, ms[k..], last) == [Run(JsSlice(s, last, m.index))] + ([mark] + rest))
      && (m.index == last ==> Pieces(s, ms[k..], last) == [mark] + rest)
      && KeptMatches(ms[k..], last) == [m] + KeptMatches(ms[k + 1..], m.index + |m.text|)
  {
    DropNext(ms, k);
    var m := ms[k];
    if m.index > last {
      ConcatAssoc([Run(JsSlice(s, last, m.index))], [Mark(m.text, CaseMatchReplacement(m.text, m.rule.chosen))], Pieces(s, ms[k + 1..], m.index + |m.text|));
    } else {
      ConcatEmpty([], [Mark(m.text, CaseMatchReplacement(m.text, m.rule.chosen))] + Pieces(s, ms[k + 1..], m.index + |m.text|));
    }
  }

  /** The fragment after one placed match: the run before it if any, then its mark. */
  function Placed(fragment: seq<Token>, s: string, m: TextMatch, last: nat, id: nat): seq<Token>
  {
    (if m.index > last then fragment + [Text(JsSlice(s, last, m.index))] else fragment)
    + MarkTokens(id, m.text, CaseMatchReplacement(m.text, m.rule.chosen))
  }

  /** Placing a match moves its run and mark from the pending pieces to the fragment. */
  lemma PlaceStep(fragment: seq<Token>, s: string, ms: seq<TextMatch>, k: nat, last: nat, id: nat)
    requires k < |ms| && ms[k].index >= last
    ensures var m := ms[k];
      var rest := Pieces(s, ms[k + 1..], m.index + |m.text|);
      && fragment + Render(Pieces(s, ms[k..], last), id) == Placed(fragment, s, m, last, id) + Render(rest, id + 1)
      && MarkCount(Pieces(s, ms[k..], last)) == 1 + MarkCount(rest)
      && |KeptMatches(ms[k..], last)| == 1 + |KeptMatches(ms[k + 1..], m.index + |m.text|)|
  {
    var m := ms[k];
    var shown := CaseMatchReplacement(m.text, m.rule.chosen);
    var rest := Pieces(s, ms[k + 1..], m.index + |m.text|);
    PiecesPlace(s, ms, k, last);
    if m.index > last {
      PlaceRun(fragment, Pieces(s, ms[k..], last), JsSlice(s, last, m.index), m.text, shown, rest, id);
    } else {
      PlaceMark(fragment, Pieces(s, ms[k..], last), m.text, shown, rest, id);
    }
  }

  lemma PlaceRun(fragment: seq<Token>, ps: seq<Piece>, x: string, original: string, shown: string, rest: seq<Piece>, id: nat)
    requires ps == [Run(x)] + ([Mark(original, shown)] + rest)
    ensures fragment + Render(ps, id) == (fragment + [Text(x)]) + MarkTokens(id, original, shown) + Render(rest, id + 1)
    ensures MarkCount(ps) == 1 + MarkCount(rest)
  {
    var tail := Render(rest, id + 1);
    RenderMarkFront(original, shown, rest, id);
    RenderRunFront(x, [Mark(original, shown)] + rest, id);
    ConcatAssoc(fragment, [Text(x)], MarkTokens(id, original, shown) + tail);
    ConcatAssoc(fragment + [Text(x)], MarkTokens(id, original, shown), tail);
  }

  lemma PlaceMark(fragment: seq<Token>, ps: seq<Piece>, original: string, shown: string, rest: seq<Piece>, id: nat)
    requires ps == [Mark(original, shown)] + rest
    ensures fragment + Render(ps, id) == fragment + MarkTokens(id, original, shown) + Render(rest, id + 1)
    ensures MarkCount(ps) == 1 + MarkCount(rest)
  {
    RenderMarkFront(original, shown, rest, id);
    ConcatAssoc(fragment, MarkTokens(id, original, shown), Render(rest, id + 1));
  }

  /** A mark at the front of the fragment. */
  lemma RenderMarkFront(original: string, shown: string, rest: seq<Piece>, id: nat)
    ensures Render([Mark(original, shown)] + rest, id) == MarkTokens(id, original, shown) + Render(rest, id + 1)
    ensures MarkCount([Mark(original, shown)] + rest) == 1 + MarkCount(rest)
  {
    ConcatFront([Mark(original, shown)], rest);
  }

  /** A text run at the front of the fragment. */
  lemma RenderRunFront(x: string, rest: seq<Piece>, id: nat)
    ensures Render([Run(x)] + rest, id) == [Text(x)] + Render(rest, id)
    ensures MarkCount([Run(x)] + rest) == MarkCount(rest)
  {
    ConcatFront([Run(x)], rest);
  }

  lemma {:induction false} RenderConcat(a: seq<Piece>, b: seq<Piece>, id: nat)
    ensures Render(a + b, id) == Render(a, id) + Render(b, id + MarkCount(a))
  {
    if a != [] {
      ConcatFront(a, b);
      RenderConcat(a[1..], b, id + (if a[0].Mark? then 1 else 0));
    } else {
      ConcatEmpty(a, b);
    }
  }

  /** One rendered piece at the front. */
  lemma RenderFront(p: Piece, rest: seq<Piece>, id: nat)
    ensures Render([p] + rest, id) == RenderPiece(p, id) + Render(rest, id + (if p.Mark? then 1 else 0))
    ensures MarkCount([p] + rest) == (if p.Mark? then 1 else 0) + MarkCount(rest)
  {
    assert ([p] + rest)[0] == p && ([p] + rest)[1..] == rest;
  }

  /** The trailing text of the fragment, once every match is placed. */
  lemma PiecesEnd(s: string, ms: seq<TextMatch>, last: nat, id: nat)
    ensures Pieces(s, ms[|ms|..], last) == (if last < |s| then [Run(s[last..])] else [])
    ensures Render(Pieces(s, ms[|ms|..], last), id) == (if last < |s| then [Text(s[last..])] else [])
    ensures MarkCount(Pieces(s, ms[|ms|..], last)) == 0 && KeptMatches(ms[|ms|..], last) == []
  {
    assert ms[|ms|..] == [];
    if last < |s| {
      RenderFront(Run(s[last..]), [], id);
    }
  }

  /**
   * The state of `replaceTextInNode`'s loop before match `k`: the fragment
   * built so far followed by what the remaining matches give is the whole
   * fragment, and likewise for the mark ids and the replacements counted.
   */
  ghost predicate Pending(s: string, ms: seq<TextMatch>, k: nat, last: nat, fragment: seq<Token>, id: nat, done: nat, total: seq<Token>, lastId: nat, kept: nat)
    requires k <= |ms|
  {
    var ps := Pieces(s, ms[k..], last);
    && fragment + Render(ps, id) == total
    && id + MarkCount(ps) == lastId
    && done + |KeptMatches(ms[k..], last)| == kept
  }

  lemma PendingStart(s: string, ms: seq<TextMatch>, id: nat, done: nat)
    ensures Pending(s, ms, 0, 0, [], id, done, Render(Pieces(s, ms, 0), id), id + MarkCount(Pieces(s, ms, 0)), done + |KeptMatches(ms, 0)|)
  {
    assert ms[0..] == ms;
    ConcatEmpty([], Render(Pieces(s, ms, 0), id));
  }

  lemma PendingPass(s: string, ms: seq<TextMatch>, k: nat, last: nat, fragment: seq<Token>, id: nat, done: nat, total: seq<Token>, lastId: nat, kept: nat)
    requires k < |ms| && ms[k].index < last
    requires Pending(s, ms, k, last, fragment, id, done, total, lastId, kept)
    ensures Pending(s, ms, k + 1, last, fragment, id, done, total, lastId, kept)
  {
    PassMatch(s, ms, k, last);
  }

  lemma PendingPlace(s: string, ms: seq<TextMatch>, k: nat, last: nat, fragment: seq<Token>, id: nat, done: nat, total: seq<Token>, lastId: nat, kept: nat)
    requires k < |ms| && ms[k].index >= last
    requires Pending(s, ms, k, last, fragment, id, done, total, lastId, kept)
    ensures Pending(s, ms, k + 1, ms[k].index + |ms[k].text|, Placed(fragment, s, ms[k], last, id), id + 1, done + 1, total, lastId, kept)
  {
    PlaceStep(fragment, s, ms, k, last, id);
  }

  lemma PendingEnd(s: string, ms: seq<TextMatch>, last: nat, fragment: seq<Token>, id: nat, done: nat, total: seq<Token>, lastId: nat, kept: nat)
    requires Pending(s, ms, |ms|, last, fragment, id, done, total, lastId, kept)
    ensures fragment + (if last < |s| then [Text(s[last..])] else []) == total
    ensures id == lastId && done == kept
  {
    PiecesEnd(s, ms, last, id);
  }

  /** The attribute loop one name further. */
  lemma RewriteNext(m: map<string, string>, names: seq<string>, k: nat, rules: seq<Rule>)
    requires ValidRules(rules) && k < |names|
    ensures RewriteAttrs(m, names[..k + 1], rules) == RewriteAttr(RewriteAttrs(m, names[..k], rules), names[k], rules)
    ensures RewriteCount(m, names[..k + 1], rules) == RewriteCount(m, names[..k], rules) + (if Changes(RewriteAttrs(m, names[..k], rules), names[k], rules) then 1 else 0)
  {
    assert names[..k + 1][..k] == names[..k];
  }

  /**
   * `processSubtree`'s iteration after `i` tokens from the root: the page
   * is what lies before the root, the walk's output so far and the tokens
   * it has not reached, `pos` is the page position of the next one, and
   * the walk from here is the walk from the root.
   */
  ghost predicate Walking(tokens0: seq<Token>, root: nat, rules: seq<Rule>, depth: Depth, id0: nat, w: Walker, i: nat, pos: nat, tokens: seq<Token>)
  {
    && ValidRules(rules) && root + i <= |tokens0|
    && pos == root + |w.out| && |tokens| - pos == |tokens0| - root - i
    && tokens == tokens0[..root] + w.out + tokens0[root..][i..]
    && WalkFrom(OpenStack(tokens0[..root]), rules, depth, w, tokens0[root..], i) == Subtree(tokens0, root, rules, depth, id0)
  }

  lemma WalkingStart(tokens0: seq<Token>, root: nat, rules: seq<Rule>, depth: Depth, id0: nat)
    requires ValidRules(rules) && root <= |tokens0|
    ensures Walking(tokens0, root, rules, depth, id0, Start(id0), 0, root, tokens0)
  {
    ConcatEmpty([], tokens0[root..]);
    assert tokens0 == tokens0[..root] + tokens0[root..];
  }

  /** Visiting the next token puts what it emits in its place and steps the walk. */
  lemma WalkingNext(tokens0: seq<Token>, root: nat, rules: seq<Rule>, depth: Depth, id0: nat, w: Walker, i: nat, pos: nat, before: seq<Token>, after: seq<Token>)
    returns (v: Walker)
    requires Walking(tokens0, root, rules, depth, id0, w, i, pos, before)
    requires pos < |before| && !Stops(depth, w, i)
    requires after == before[..pos] + Emitted(OpenStack(tokens0[..root]), rules, w, before[pos]) + before[pos + 1..]
    ensures v == Step(OpenStack(tokens0[..root]), rules, w, before[pos])
    ensures Walking(tokens0, root, rules, depth, id0, v, i + 1, pos + |Emitted(OpenStack(tokens0[..root]), rules, w, before[pos])|, after)
  {
    var outer, input := OpenStack(tokens0[..root]), tokens0[root..];
    var em := Emitted(outer, rules, w, before[pos]);
    SpliceStep(tokens0[..root], w.out, input, i, em, before, after);
    WalkFromStep(outer, rules, depth, w, input, i);
    StepEmits(outer, rules, w, before[pos]);
    v := Step(outer, rules, w, before[pos]);
  }

  /** When the iteration ends, the page is the spliced walk. */
  lemma WalkingEnd(tokens0: seq<Token>, root: nat, rules: seq<Rule>, depth: Depth, id0: nat, w: Walker, i: nat, pos: nat, tokens: seq<Token>)
    requires Walking(tokens0, root, rules, depth, id0, w, i, pos, tokens)
    requires !(pos < |tokens| && !Stops(depth, w, i))
    ensures Subtree(tokens0, root, rules, depth, id0).0 == w
    ensures tokens == AfterSubtree(tokens0, root, rules, depth, id0)
  {
    var outer, input := OpenStack(tokens0[..root]), tokens0[root..];
    WalkFromStops(outer, rules, depth, w, input, i);
    SpliceIs(tokens0, root, (w, i), w.out, i);
    assert input[i..] == tokens0[root + i..];
  }

  /** The attribute loop one attribute further on a token. */
  lemma RevertTokenNext(t: Token, k: nat)
    requires k < |AccessibilityAttributes|
    ensures var before := RevertTokenWith(t, AccessibilityAttributes[..k]);
      && before.Open? == t.Open?
      && (t.Open? ==>
            && before.e.id == t.e.id && before.e.tag == t.e.tag
            && RevertTokenWith(t, AccessibilityAttributes[..k + 1]) == Open(Element(t.e.id, t.e.tag, RevertAttr(before.e.attrs, AccessibilityAttributes[k]))))
      && (!t.Open? ==> RevertTokenWith(t, AccessibilityAttributes[..k + 1]) == t && before == t)
  {
    assert AccessibilityAttributes[..k + 1][..k] == AccessibilityAttributes[..k];
  }

  /** An element carrying a non-empty cache for the `k`-th attribute gets it back and loses the cache. */
  lemma RevertRestores(t0: Token, k: nat, el: Element)
    requires k < |AccessibilityAttributes| && RevertTokenWith(t0, AccessibilityAttributes[..k]) == Open(el)
    requires var key := CacheAttribute(AccessibilityAttributes[k]); key in el.attrs && el.attrs[key] != ""
    ensures var attr, key := AccessibilityAttributes[k], CacheAttribute(AccessibilityAttributes[k]);
      RevertTokenWith(t0, AccessibilityAttributes[..k + 1]) == Open(Element(el.id, el.tag, el.attrs[attr := el.attrs[key]] - {key}))
  {
    RevertTokenNext(t0, k);
  }

  /** Any other token is left as the earlier attributes left it. */
  lemma RevertKeeps(t0: Token, k: nat)
    requires k < |AccessibilityAttributes|
    requires var t := RevertTokenWith(t0, AccessibilityAttributes[..k]);
      !(t.Open? && Restores(t.e.attrs, AccessibilityAttributes[k]))
    ensures RevertTokenWith(t0, AccessibilityAttributes[..k + 1]) == RevertTokenWith(t0, AccessibilityAttributes[..k])
  {
    RevertTokenNext(t0, k);
  }

  lemma RevertElementsAll(ts0: seq<Token>, ts: seq<Token>)
    requires |ts| == |ts0|
    requires forall i :: 0 <= i < |ts| ==> ts[i] == RevertTokenWith(ts0[i], AccessibilityAttributes[..|AccessibilityAttributes|])
    ensures ts == RevertElements(ts0)
  {
    var names := AccessibilityAttributes;
    assert names[..|names|] == names;
    RevertElementsPointwise(ts0, ts);
  }

  lemma RevertElementsPointwise(ts0: seq<Token>, ts: seq<Token>)
    requires |ts| == |ts0|
    requires forall i :: 0 <= i < |ts| ==> ts[i] == RevertTokenWith(ts0[i], AccessibilityAttributes)
    ensures ts == RevertElements(ts0)
  {
    var r := RevertElements(ts0);
    forall i | 0 <= i < |ts|
      ensures ts[i] == r[i]
    {
      RevertElementsAt(ts0, i);
    }
  }

  /** The mark loop one token further. */
  lemma RevertMarksNext(ts: seq<Token>, j: nat)
    requires j < |ts|
    ensures RevertMarks(ts[..j + 1], 0) == RevertMarks(ts[..j], 0) + RevertMarkStep(ts[j], MarkSkip(ts[..j], 0)).0
    ensures MarkSkip(ts[..j + 1], 0) == RevertMarkStep(ts[j], MarkSkip(ts[..j], 0)).1
  {
    TakeNext(ts, j);
    RevertMarksConcat(ts[..j], [ts[j]], 0);
    var st := RevertMarkStep(ts[j], MarkSkip(ts[..j], 0));
    assert [ts[j]][1..] == [];
    assert RevertMarks([ts[j]], MarkSkip(ts[..j], 0)) == st.0 + [];
  }

  class TextProcessor {
    var nodesProcessed: nat
    var replacementsMade: nat
    var accessibilityAttributesUpdated: nat

    constructor ()
      ensures GetMetrics() == Metrics(0, 0, 0)
    {
      nodesProcessed := 0;
      replacementsMade := 0;
      accessibilityAttributesUpdated := 0;
    }

    /** `getMetrics`: a copy of the counters. */
    function GetMetrics(): Metrics
      reads this
    {
      Metrics(nodesProcessed, replacementsMade, accessibilityAttributesUpdated)
    }

    /** `resetMetrics` */
    method ResetMetrics()
      modifies this
      ensures GetMetrics() == Metrics(0, 0, 0)
    {
      nodesProcessed := 0;
      replacementsMade := 0;
      accessibilityAttributesUpdated := 0;
    }

    /** The `exec` loop of `findMatches` for one rule: every match from `lastIndex = 0`, each search resuming where the last match ended. */
    method ExecAll(text: string, rule: Rule) returns (found: seq<TextMatch>)
      requires rule.dead != ""
      ensures found == RuleMatches(text, rule)
    {
      var pattern := CreateReplacementPattern(rule.dead);
      found := [];
      var lastIndex: nat := 0;
      var next := NextMatch(pattern, text, lastIndex);
      while next.Some?
        invariant lastIndex <= |text|
        invariant next == NextMatch(pattern, text, lastIndex)
        invariant found + MatchesFrom(text, rule, lastIndex) == RuleMatches(text, rule)
        decreases |text| - lastIndex
      {
        var i := next.value;
        FoundBounds(text, rule, lastIndex, i);
        var last := i + |rule.dead|;
        var found' := found + [TextMatch(text[i..last], i, rule)];
        FoundStep(found, text, rule, lastIndex, i, found', last);
        found, lastIndex := found', last;
        next := NextMatch(pattern, text, lastIndex);
      }
      MatchesFromNext(text, rule, lastIndex);
      assert found + [] == found;
    }

    /**
     * `findMatches`: for each rule in map order, `exec` from `lastIndex = 0`
     * until it finds nothing, then the stable sort by index.
     */
    method FindMatches(text: string, rules: seq<Rule>) returns (ms: seq<TextMatch>)
      requires ValidRules(rules)
      ensures ms == FindMatchesSpec(text, rules)
    {
      var found: seq<TextMatch> := [];
      for k := 0 to |rules|
        invariant found == Collected(text, rules[..k])
      {
        var matches := ExecAll(text, rules[k]);
        found := found + matches;
        CollectedNext(text, rules, k);
      }
      assert rules[..|rules|] == rules;
      ms := SortByIndex(found);
    }

    /**
     * `shouldProcessText`: the ancestors from the parent outwards, each
     * checked for a form tag, a skipped tag and the exclusion table.
     */
    method ShouldProcessText(ancestors: seq<Element>) returns (b: bool)
      ensures b == TextAllowed(ancestors)
    {
      var j: nat := |ancestors|;
      assert ancestors[..j] == ancestors;
      while j > 0
        invariant j <= |ancestors|
        invariant TextAllowed(ancestors) == TextAllowed(ancestors[..j])
      {
        var current := ancestors[j - 1];
        assert ancestors[..j][..j - 1] == ancestors[..j - 1];
        if IsFormTag(Lower(current.tag)) || !ShouldProcessElement(current) {
          return false;
        }
        for t := 0 to |ExclusionTable|
          invariant ExcludedBy(current, ExclusionTable) == ExcludedBy(current, ExclusionTable[t..])
        {
          DropNext(ExclusionTable, t);
          var (attr, values) := ExclusionTable[t];
          if attr in current.attrs && Lower(current.attrs[attr]) in values {
            return false;
          }
        }
        j := j - 1;
      }
      return true;
    }

    /** `rules.forEach(... newValue = newValue.replaceAll(pattern, replacement))`: every rule in turn. */
    method ApplyAll(value: string, rules: seq<Rule>) returns (newValue: string)
      requires ValidRules(rules)
      ensures newValue == ApplyRules(value, rules)
    {
      newValue := value;
      for j := 0 to |rules|
        invariant ApplyRules(newValue, rules[j..]) == ApplyRules(value, rules)
      {
        DropNext(rules, j);
        newValue := ReplaceAll(newValue, rules[j]);
      }
      assert rules[|rules|..] == [];
    }

    /**
     * `processElementNode`: count the element, then for each accessibility
     * attribute with a non-empty value apply every rule; a changed value is
     * cached under `dataset[getDataKey(attr)]` and set.
     */
    method ProcessElementNode(page: Page, pos: nat, rules: seq<Rule>)
      requires ValidRules(rules) && pos < |page.tokens| && page.tokens[pos].Open?
      modifies this, page
      ensures page.tokens == old(page.tokens[..pos]) + [Open(Processed(old(page.tokens[pos].e), rules))] + old(page.tokens[pos + 1..])
      ensures nodesProcessed == old(nodesProcessed) + 1
      ensures accessibilityAttributesUpdated == old(accessibilityAttributesUpdated) + RewriteCount(old(page.tokens[pos].e.attrs), AccessibilityAttributes, rules)
      ensures replacementsMade == old(replacementsMade)
      ensures page.title == old(page.title) && page.nextId == old(page.nextId) && page.originalTitle == old(page.originalTitle)
    {
      nodesProcessed := nodesProcessed + 1;
      var element := page.tokens[pos].e;
      var attrs := element.attrs;
      var updated: nat := 0;
      for k := 0 to |AccessibilityAttributes|
        modifies {}
        invariant attrs == RewriteAttrs(element.attrs, AccessibilityAttributes[..k], rules)
        invariant updated == RewriteCount(element.attrs, AccessibilityAttributes[..k], rules)
      {
        var attr := AccessibilityAttributes[k];
        RewriteNext(element.attrs, AccessibilityAttributes, k, rules);
        if attr in attrs && attrs[attr] != "" {
          var value := attrs[attr];
          var newValue := ApplyAll(value, rules);
          if newValue != value {
            attrs := attrs[CacheAttribute(attr) := value][attr := newValue];
            updated := updated + 1;
          }
        }
      }
      assert AccessibilityAttributes[..|AccessibilityAttributes|] == AccessibilityAttributes;
      accessibilityAttributesUpdated := accessibilityAttributesUpdated + updated;
      page.tokens := page.tokens[..pos] + [Open(Element(element.id, element.tag, attrs))] + page.tokens[pos + 1..];
    }

    /**
     * The fragment `replaceTextInNode` builds from the text and its sorted
     * matches: the run before each kept match, its mark, and the run after
     * the last one; mark ids are taken from `id` upwards.
     */
    method BuildFragment(originalText: string, ms: seq<TextMatch>, id0: nat) returns (fragment: seq<Token>, id: nat, made: nat)
      ensures fragment == Render(Pieces(originalText, ms, 0), id0)
      ensures id == id0 + MarkCount(Pieces(originalText, ms, 0))
      ensures made == |KeptMatches(ms, 0)|
    {
      var lastIndex: nat := 0;
      fragment := [];
      id := id0;
      made := 0;
      ghost var total := Render(Pieces(originalText, ms, 0), id);
      ghost var lastId := id + MarkCount(Pieces(originalText, ms, 0));
      ghost var kept := |KeptMatches(ms, 0)|;
      PendingStart(originalText, ms, id, made);
      for k := 0 to |ms|
        invariant Pending(originalText, ms, k, lastIndex, fragment, id, made, total, lastId, kept)
      {
        var m := ms[k];
        if m.index < lastIndex {
          PendingPass(originalText, ms, k, lastIndex, fragment, id, made, total, lastId, kept);
        } else {
          PendingPlace(originalText, ms, k, lastIndex, fragment, id, made, total, lastId, kept);
          fragment := Placed(fragment, originalText, m, lastIndex, id);
          id := id + 1;
          made := made + 1;
          lastIndex := m.index + |m.text|;
        }
      }
      PendingEnd(originalText, ms, lastIndex, fragment, id, made, total, lastId, kept);
      if lastIndex < |originalText| {
        fragment := fragment + [Text(originalText[lastIndex..])];
      }
    }

    /**
     * `replaceTextInNode`: nothing without a value or a parent; otherwise
     * the fragment of text runs and marks, in match order, takes the text
     * node's place. A match that starts inside one already replaced is
     * passed over (see the overlap finding).
     */
    method ReplaceTextInNode(page: Page, pos: nat, ms: seq<TextMatch>, hasParent: bool) returns (replaced: bool, width: nat)
      requires pos < |page.tokens| && page.tokens[pos].Text?
      modifies this, page
      ensures var s := old(page.tokens[pos].s);
        var ps := Pieces(s, ms, 0);
        if s == "" || !hasParent then
          !replaced && width == 1 && page.tokens == old(page.tokens) && page.nextId == old(page.nextId)
          && replacementsMade == old(replacementsMade)
        else
          replaced && page.tokens == old(page.tokens[..pos]) + Render(ps, old(page.nextId)) + old(page.tokens[pos + 1..])
          && width == |Render(ps, old(page.nextId))| && page.nextId == old(page.nextId) + MarkCount(ps)
          && replacementsMade == old(replacementsMade) + |KeptMatches(ms, 0)|
      ensures nodesProcessed == old(nodesProcessed) && accessibilityAttributesUpdated == old(accessibilityAttributesUpdated)
      ensures page.title == old(page.title) && page.originalTitle == old(page.originalTitle)
    {
      var originalText := page.tokens[pos].s;
      if originalText == "" || !hasParent {
        return false, 1;
      }
      var fragment, id, made := BuildFragment(originalText, ms, page.nextId);
      replacementsMade := replacementsMade + made;
      page.tokens := page.tokens[..pos] + fragment + page.tokens[pos + 1..];
      page.nextId := id;
      return true, |fragment|;
    }

    /**
     * One node of `processSubtree`'s iteration, at page position `pos`,
     * with the walk's state held in `stack` (the open elements), `skip`
     * (the depth inside a deadname mark) and `used` (`processedDepth`).
     */
    method Visit(page: Page, pos: nat, outer: seq<Element>, rules: seq<Rule>, ghost w: Walker, stack: seq<Element>, skip: nat, used: nat)
      returns (stack': seq<Element>, skip': nat, used': nat, width: nat)
      requires ValidRules(rules) && pos < |page.tokens|
      requires stack == w.stack && skip == w.skip && used == w.used && page.nextId == w.nextId
      modifies this, page
      ensures var t := old(page.tokens[pos]);
        var v := Step(outer, rules, w, t);
        var em := Emitted(outer, rules, w, t);
        && page.tokens == old(page.tokens[..pos]) + em + old(page.tokens[pos + 1..])
        && width == |em|
        && stack' == v.stack && skip' == v.skip && used' == v.used && page.nextId == v.nextId
        && nodesProcessed + w.used == old(nodesProcessed) + v.used
        && replacementsMade + w.replaced == old(replacementsMade) + v.replaced
        && accessibilityAttributesUpdated + w.attrsUpdated == old(accessibilityAttributesUpdated) + v.attrsUpdated
      ensures page.title == old(page.title) && page.originalTitle == old(page.originalTitle)
    {
      var t := page.tokens[pos];
      SplitAt(page.tokens, pos);
      stack', skip', used', width := stack, skip, used, 1;
      match t
      case Open(e) =>
        if skip > 0 {
          stack', skip' := stack + [e], skip + 1;
        } else if !ShouldProcessElement(e) {
          stack' := stack + [e];
        } else if IsDeadnameMark(e) {
          stack', skip' := stack + [e], 1;
        } else {
          ProcessElementNode(page, pos, rules);
          stack', used' := stack + [Processed(e, rules)], used + 1;
        }
      case Close =>
        stack' := Pop(stack);
        skip' := if skip > 0 then skip - 1 else 0;
      case Text(text) =>
        if skip == 0 && stack != [] {
          var allowed := ShouldProcessText(outer + stack);
          if allowed {
            var ms := FindMatches(text, rules);
            if ms != [] {
              var replaced;
              replaced, width := ReplaceTextInNode(page, pos, ms, true);
            }
          }
        }
    }

    /**
     * `processSubtree(root, replacements, depth)`: depth 0 returns at once, a
     * negative depth is the thrown error (`ok` false, nothing changed);
     * otherwise the node iterator from the root's opening at `root`, while
     * `processedDepth < depth`.
     */
    method ProcessSubtree(page: Page, root: nat, rules: seq<Rule>, depth: Depth) returns (ok: bool)
      requires ValidRules(rules) && root <= |page.tokens|
      modifies this, page
      ensures ok == !(depth.Finite? && depth.n < 0)
      ensures !ok ==> page.tokens == old(page.tokens) && page.nextId == old(page.nextId) && GetMetrics() == old(GetMetrics())
      ensures ok ==>
        var r := Subtree(old(page.tokens), root, rules, depth, old(page.nextId)).0;
        && page.tokens == AfterSubtree(old(page.tokens), root, rules, depth, old(page.nextId))
        && page.nextId == r.nextId
        && nodesProcessed == old(nodesProcessed) + r.used
        && replacementsMade == old(replacementsMade) + r.replaced
        && accessibilityAttributesUpdated == old(accessibilityAttributesUpdated) + r.attrsUpdated
      ensures page.title == old(page.title) && page.originalTitle == old(page.originalTitle)
    {
      if depth == Finite(0) {
        SubtreeDepthZero(page.tokens, root, rules, page.nextId);
        return true;
      }
      if depth.Finite? && depth.n < 0 {
        return false;
      }
      ghost var tokens0, id0 := page.tokens, page.nextId;
      ghost var w := Start(id0);
      var outer := OpenStack(page.tokens[..root]);
      var pos: nat := root;
      var i: nat := 0;
      var stack: seq<Element> := [];
      var skip: nat := 0;
      var used: nat := 0;
      WalkingStart(tokens0, root, rules, depth, id0);
      while pos < |page.tokens| && !(Exhausted(depth, used) || (i > 0 && stack == []))
        invariant Walking(tokens0, root, rules, depth, id0, w, i, pos, page.tokens)
        invariant stack == w.stack && skip == w.skip && used == w.used && page.nextId == w.nextId
        invariant nodesProcessed == old(nodesProcessed) + w.used
        invariant replacementsMade == old(replacementsMade) + w.replaced
        invariant accessibilityAttributesUpdated == old(accessibilityAttributesUpdated) + w.attrsUpdated
        invariant page.title == old(page.title) && page.originalTitle == old(page.originalTitle)
        decreases |tokens0| - root - i
      {
        ghost var before := page.tokens;
        var width;
        stack, skip, used, width := Visit(page, pos, outer, rules, w, stack, skip, used);
        w := WalkingNext(tokens0, root, rules, depth, id0, w, i, pos, before, page.tokens);
        pos := pos + width;
        i := i + 1;
      }
      WalkingEnd(tokens0, root, rules, depth, id0, w, i, pos, page.tokens);
      return true;
    }

    /**
     * `processDocument`: a non-empty title is recorded in `originalTitle`,
     * then each rule whose pattern `test`s true on it rewrites it and
     * counts one replacement; then the subtree under the root, without a
     * depth bound.
     */
    method ProcessDocument(page: Page, root: nat, rules: seq<Rule>)
      requires ValidRules(rules) && root <= |page.tokens|
      modifies this, page
      ensures (page.title, page.originalTitle) == ProcessTitle(old(page.title), old(page.originalTitle), rules)
      ensures var r := Subtree(old(page.tokens), root, rules, Infinite, old(page.nextId)).0;
        && page.tokens == AfterSubtree(old(page.tokens), root, rules, Infinite, old(page.nextId))
        && page.nextId == r.nextId
        && nodesProcessed == old(nodesProcessed) + r.used
        && replacementsMade == old(replacementsMade) + (if old(page.title) != "" then TitleHits(old(page.title), rules) else 0) + r.replaced
        && accessibilityAttributesUpdated == old(accessibilityAttributesUpdated) + r.attrsUpdated
    {
      if page.title != "" {
        page.originalTitle := Some(page.title);
        for k := 0 to |rules|
          invariant TitleRewrite(page.title, rules[k..]) == TitleRewrite(old(page.title), rules)
          invariant replacementsMade + TitleHits(page.title, rules[k..]) == old(replacementsMade) + TitleHits(old(page.title), rules)
          invariant page.tokens == old(page.tokens) && page.nextId == old(page.nextId) && page.originalTitle == Some(old(page.title))
          invariant nodesProcessed == old(nodesProcessed) && accessibilityAttributesUpdated == old(accessibilityAttributesUpdated)
        {
          DropNext(rules, k);
          MatchesFromNext(page.title, rules[k], 0);
          if NextMatch(CreateReplacementPattern(rules[k].dead), page.title, 0).Some? {
            page.title := ReplaceAll(page.title, rules[k]);
            replacementsMade := replacementsMade + 1;
          }
        }
        assert rules[|rules|..] == [];
      }
      var ok := ProcessSubtree(page, root, rules, Infinite);
    }

    /**
     * `revertAllReplacements`: the recorded title back; for each
     * accessibility attribute, every element carrying
     * `data-deadname-<attr>` with a non-empty cached original gets it back
     * and loses the cache; then every `mark[deadname]` with a non-empty
     * `data-original`, in document order, becomes a text node holding it.
     */
    static method RevertAllReplacements(page: Page)
      modifies page
      ensures (page.title, page.originalTitle) == RevertTitle(old(page.title), old(page.originalTitle))
      ensures page.tokens == RevertTokens(old(page.tokens))
      ensures page.nextId == old(page.nextId)
    {
      if page.originalTitle.Some? {
        page.title := page.originalTitle.value;
        page.originalTitle := None;
      }
      var elements := RevertAttributes(page.tokens);
      page.tokens := RevertMarkNodes(elements);
    }

    /** The attribute loops of `revertAllReplacements`, attribute by attribute over the elements in document order. */
    static method RevertAttributes(ts0: seq<Token>) returns (ts: seq<Token>)
      ensures ts == RevertElements(ts0)
    {
      ts := ts0;
      for k := 0 to |AccessibilityAttributes|
        invariant |ts| == |ts0|
        invariant forall i :: 0 <= i < |ts| ==> ts[i] == RevertTokenWith(ts0[i], AccessibilityAttributes[..k])
      {
        ts := RevertAttribute(ts0, ts, k);
      }
      RevertElementsAll(ts0, ts);
    }

    /**
     * `document.querySelectorAll('[data-deadname-<attr>]').forEach(...)` for
     * the `k`-th attribute: each element carrying the cache with a
     * non-empty value gets it back under `attr` and loses the cache.
     */
    static method RevertAttribute(ghost ts0: seq<Token>, ts: seq<Token>, k: nat) returns (ts': seq<Token>)
      requires k < |AccessibilityAttributes| && |ts| == |ts0|
      requires forall i :: 0 <= i < |ts| ==> ts[i] == RevertTokenWith(ts0[i], AccessibilityAttributes[..k])
      ensures |ts'| == |ts0|
      ensures forall i :: 0 <= i < |ts'| ==> ts'[i] == RevertTokenWith(ts0[i], AccessibilityAttributes[..k + 1])
    {
      var attr := AccessibilityAttributes[k];
      var selector := "data-deadname-" + attr;
      var dataKey := GetDataKey(attr);
      CacheAttributeOf(k);
      ts' := ts;
      for i := 0 to |ts'|
        invariant |ts'| == |ts0|
        invariant forall j :: 0 <= j < i ==> ts'[j] == RevertTokenWith(ts0[j], AccessibilityAttributes[..k + 1])
        invariant forall j :: i <= j < |ts'| ==> ts'[j] == RevertTokenWith(ts0[j], AccessibilityAttributes[..k])
      {
        var t := ts'[i];
        if t.Open? && selector in t.e.attrs && t.e.attrs[DatasetAttribute(dataKey)] != "" {
          var el := t.e;
          var key := DatasetAttribute(dataKey);
          RevertRestores(ts0[i], k, el);
          ts' := ts'[i := Open(Element(el.id, el.tag, el.attrs[attr := el.attrs[key]] - {key}))];
        } else {
          RevertKeeps(ts0[i], k);
        }
      }
    }

    /** The `mark[deadname]` loop, in document order; `skip` counts the elements open inside a mark already replaced. */
    static method RevertMarkNodes(ts: seq<Token>) returns (out: seq<Token>)
      ensures out == RevertMarks(ts, 0)
    {
      out := [];
      var skip: nat := 0;
      for j := 0 to |ts|
        invariant out == RevertMarks(ts[..j], 0) && skip == MarkSkip(ts[..j], 0)
      {
        RevertMarksNext(ts, j);
        match ts[j]
        case Open(e) =>
          if skip > 0 {
            skip := skip + 1;
          } else if IsDeadnameMark(e) && "data-original" in e.attrs && e.attrs["data-original"] != "" {
            out := out + [Text(e.attrs["data-original"])];
            skip := 1;
          } else {
            out := out + [ts[j]];
          }
        case Close =>
          if skip > 0 {
            skip := skip - 1;
          } else {
            out := out + [ts[j]];
          }
        case Text(_) =>
          if skip == 0 {
            out := out + [ts[j]];
          }
      }
      assert ts[..|ts|] == ts;
    }
  }
}
