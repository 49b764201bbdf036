/**
 * The pure half of the text substitution engine: the boundary-safe pattern
 * built for a dead name, the leftmost non-overlapping scan a global regular
 * expression performs, the case matching of a replacement, the stable sort
 * of the collected matches and the pieces a text node is split into.
 */
module TextMatching {
  import opened Wrappers
  import opened Chars

  // ---------------------------------------------------------------------
  // createReplacementPattern

  /**
   * One position of a compiled pattern. Every character of a name becomes
   * one atom: a regex metacharacter is escaped and so is a literal like any
   * other, and `'` and `-` become the classes `['']` and `[-]`, whose
   * members are listed as the source writes them.
   */
  datatype PatAtom = Lit(c: char) | Class(members: seq<char>)

  /** A class accepts a character equal, up to case, to one of its members. */
  predicate ClassAccepts(members: seq<char>, c: char)
  {
    members != [] && (Fold(members[0]) == Fold(c) || ClassAccepts(members[1..], c))
  }

  /** What an atom accepts under the `i` and `u` flags. */
  predicate AtomAccepts(a: PatAtom, c: char)
  {
    match a
    case Lit(l) => Fold(l) == Fold(c)
    case Class(ms) => ClassAccepts(ms, c)
  }

  function CompileChar(c: char): PatAtom
  {
    if c == '\'' then Class(['\'', '\'']) else if c == '-' then Class(['-']) else Lit(c)
  }

  /** `createReplacementPattern(name)`, without its lookbehind and lookahead (see `MatchesAt`). */
  function CreateReplacementPattern(name: string): (p: seq<PatAtom>)
    ensures |p| == |name|
  {
    if name == [] then [] else [CompileChar(name[0])] + CreateReplacementPattern(name[1..])
  }

  /** Every atom accepts its character of `text` from `i` on. */
  predicate AtomsAccept(p: seq<PatAtom>, text: string, i: nat)
    decreases |p|
  {
    if p == [] then i <= |text|
    else i < |text| && AtomAccepts(p[0], text[i]) && AtomsAccept(p[1..], text, i + 1)
  }

  /** The lookbehind `(?<!\p{L})` and the lookahead `(?!\p{L})` around `[i, j)`. */
  predicate NoLetterAround(text: string, i: nat, j: nat)
    requires i <= j <= |text|
  {
    (i == 0 || !IsLetter(text[i - 1])) && (j == |text| || !IsLetter(text[j]))
  }

  /** The compiled pattern matches at `i`: every atom accepts its character and no letter is adjacent. */
  predicate MatchesAt(p: seq<PatAtom>, text: string, i: nat)
  {
    i + |p| <= |text| && AtomsAccept(p, text, i) && NoLetterAround(text, i, i + |p|)
  }

  /**
   * The atoms of a name's pattern accept exactly a case-insensitive
   * occurrence of the name, every character taken literally.
   */
  lemma {:induction false} PatternMeaning(name: string, text: string, i: nat)
    requires i + |name| <= |text|
    ensures AtomsAccept(CreateReplacementPattern(name), text, i) <==> SameUpToCase(text[i..i + |name|], name)
    decreases |name|
  {
    var p := CreateReplacementPattern(name);
    var w := text[i..i + |name|];
    if name != [] {
      assert p[1..] == CreateReplacementPattern(name[1..]);
      assert w[1..] == text[i + 1..i + 1 + |name[1..]|];
      assert w[0] == text[i];
      PatternMeaning(name[1..], text, i + 1);
      CompileCharAccepts(name[0], text[i]);
    }
  }

  /** Each compiled character accepts exactly its own character up to case. */
  lemma CompileCharAccepts(c: char, x: char)
    ensures AtomAccepts(CompileChar(c), x) <==> Fold(x) == Fold(c)
  {
    if c == '\'' {
      assert CompileChar(c) == Class(['\'', '\'']);
      assert ['\'', '\''][0] == '\'' && ['\'', '\''][1..] == ['\''];
      assert ['\''][0] == '\'' && ['\''][1..] == [];
      assert ClassAccepts(['\''], x) <==> Fold('\'') == Fold(x) || ClassAccepts([], x);
      assert ClassAccepts(['\'', '\''], x) <==> Fold('\'') == Fold(x) || ClassAccepts(['\''], x);
    } else if c == '-' {
      assert CompileChar(c) == Class(['-']);
      assert ['-'][0] == '-' && ['-'][1..] == [];
      assert ClassAccepts(['-'], x) <==> Fold('-') == Fold(x) || ClassAccepts([], x);
    }
  }

  // ---------------------------------------------------------------------
  // The `exec` loop of a global regular expression

  /** A rule of the replacements map: the dead name its pattern is built from and the replacement. */
  datatype Rule = Rule(dead: string, chosen: string)

  /** The names come from a schema of trimmed, non-empty strings, so no pattern matches the empty string. */
  predicate ValidRules(rules: seq<Rule>) { forall i :: 0 <= i < |rules| ==> rules[i].dead != "" }

  /** The source's `TextMatch`; the rule stands for the pattern and the replacement. */
  datatype TextMatch = TextMatch(text: string, index: nat, rule: Rule)

  /** `pattern.exec(text)` with `lastIndex == from`: the leftmost match at or after `from`. */
  function NextMatch(p: seq<PatAtom>, text: string, from: nat): (r: Option<nat>)
    ensures r.Some? ==> from <= r.value && MatchesAt(p, text, r.value)
    ensures r.Some? ==> forall j :: from <= j < r.value ==> !MatchesAt(p, text, j)
    ensures r.None? ==> forall j :: from <= j ==> !MatchesAt(p, text, j)
    decreases |text| - from
  {
    if from + |p| > |text| then None
    else if MatchesAt(p, text, from) then Some(from)
    else NextMatch(p, text, from + 1)
  }

  /** `m` is a match of its rule's pattern, naming the text it covers. */
  predicate IsMatchOf(text: string, m: TextMatch)
  {
    && m.index + |m.rule.dead| <= |text|
    && m.text == text[m.index..m.index + |m.rule.dead|]
    && MatchesAt(CreateReplacementPattern(m.rule.dead), text, m.index)
  }

  /**
   * The matches `exec` returns one after another from `lastIndex == from`:
   * each search resumes where the previous match ended.
   */
  function MatchesFrom(text: string, rule: Rule, from: nat): seq<TextMatch>
    requires rule.dead != ""
    decreases |text| - from
  {
    match NextMatch(CreateReplacementPattern(rule.dead), text, from)
    case None => []
    case Some(i) =>
      [TextMatch(text[i..i + |rule.dead|], i, rule)] + MatchesFrom(text, rule, i + |rule.dead|)
  }

  /**
   * The `a`-th match found is a match of the rule at or after `from`, and
   * the next one starts where it ends or later.
   */
  lemma {:induction false} MatchesFromAt(text: string, rule: Rule, from: nat, a: nat)
    requires rule.dead != "" && a < |MatchesFrom(text, rule, from)|
    ensures MatchesFrom(text, rule, from)[a].rule == rule
    ensures from <= MatchesFrom(text, rule, from)[a].index
    ensures IsMatchOf(text, MatchesFrom(text, rule, from)[a])
    ensures a + 1 < |MatchesFrom(text, rule, from)| ==>
      MatchesFrom(text, rule, from)[a].index + |rule.dead| <= MatchesFrom(text, rule, from)[a + 1].index
    decreases |text| - from
  {
    var i := NextMatch(CreateReplacementPattern(rule.dead), text, from).value;
    var e := i + |rule.dead|;
    var rest := MatchesFrom(text, rule, e);
    assert MatchesFrom(text, rule, from) == [TextMatch(text[i..e], i, rule)] + rest;
    if a > 0 {
      MatchesFromAt(text, rule, e, a - 1);
    } else if 0 < |rest| {
      MatchesFromAt(text, rule, e, 0);
    }
  }

  /** Matches found later start later: the scan never goes back. */
  lemma {:induction false} MatchesFromOrdered(text: string, rule: Rule, from: nat, a: nat, b: nat)
    requires rule.dead != "" && a < b < |MatchesFrom(text, rule, from)|
    ensures MatchesFrom(text, rule, from)[a].index + |rule.dead| <= MatchesFrom(text, rule, from)[b].index
    decreases b - a
  {
    MatchesFromAt(text, rule, from, a);
    if a + 1 < b {
      MatchesFromOrdered(text, rule, from, a + 1, b);
      MatchesFromAt(text, rule, from, a + 1);
    }
  }

  /** Every match from `from` on is found, or lies inside a match that was found (the scan is leftmost and greedy). */
  lemma {:induction false} MatchesFromComplete(text: string, rule: Rule, from: nat, j: nat) returns (a: nat)
    requires rule.dead != ""
    requires from <= j && MatchesAt(CreateReplacementPattern(rule.dead), text, j)
    ensures a < |MatchesFrom(text, rule, from)|
    ensures MatchesFrom(text, rule, from)[a].index <= j < MatchesFrom(text, rule, from)[a].index + |rule.dead|
    decreases |text| - from
  {
    var i := NextMatch(CreateReplacementPattern(rule.dead), text, from).value;
    var e := i + |rule.dead|;
    var rest := MatchesFrom(text, rule, e);
    assert MatchesFrom(text, rule, from) == [TextMatch(text[i..e], i, rule)] + rest;
    if j >= e {
      var a' := MatchesFromComplete(text, rule, e, j);
      a := a' + 1;
    } else {
      a := 0;
    }
  }

  /** One more `exec`: a match found is the next collected one, and none ends the scan. */
  lemma MatchesFromNext(text: string, rule: Rule, from: nat)
    requires rule.dead != ""
    ensures var next := NextMatch(CreateReplacementPattern(rule.dead), text, from);
      if next.Some? then
        next.value + |rule.dead| <= |text| &&
        MatchesFrom(text, rule, from) == [TextMatch(text[next.value..next.value + |rule.dead|], next.value, rule)] + MatchesFrom(text, rule, next.value + |rule.dead|)
      else MatchesFrom(text, rule, from) == []
  {
    var p := CreateReplacementPattern(rule.dead);
    assert |p| == |rule.dead|;
    var next := NextMatch(p, text, from);
    if next.Some? {
      var i := next.value;
      assert MatchesAt(p, text, i);
      assert MatchesFrom(text, rule, from) == [TextMatch(text[i..i + |rule.dead|], i, rule)] + MatchesFrom(text, rule, i + |rule.dead|);
    }
  }

  /** All matches of one rule, as the `exec` loop after `lastIndex = 0` collects them. */
  function RuleMatches(text: string, rule: Rule): seq<TextMatch>
    requires rule.dead != ""
  {
    MatchesFrom(text, rule, 0)
  }

  /** The matches of every rule, rule by rule in map order, before sorting. */
  function Collected(text: string, rules: seq<Rule>): seq<TextMatch>
    requires ValidRules(rules)
  {
    if rules == [] then []
    else Collected(text, rules[..|rules| - 1]) + RuleMatches(text, rules[|rules| - 1])
  }

  /** Everything collected is a match, in the text, of one of the rules. */
  lemma {:induction false} CollectedSound(text: string, rules: seq<Rule>, a: nat)
    requires ValidRules(rules) && a < |Collected(text, rules)|
    ensures Collected(text, rules)[a].rule in rules
    ensures IsMatchOf(text, Collected(text, rules)[a])
  {
    var n := |rules| - 1;
    var init: seq<TextMatch> := Collected(text, rules[..n]);
    var last: seq<TextMatch> := RuleMatches(text, rules[n]);
    assert Collected(text, rules) == init + last;
    if a < |init| {
      CollectedSound(text, rules[..n], a);
      assert init[a].rule in rules[..n];
    } else {
      MatchesFromAt(text, rules[n], 0, a - |init|);
    }
  }

  /** Every match of every rule is collected. */
  lemma {:induction false} CollectedHasRuleMatches(text: string, rules: seq<Rule>, k: nat, m: TextMatch)
    requires ValidRules(rules) && k < |rules|
    requires m in RuleMatches(text, rules[k])
    ensures m in Collected(text, rules)
  {
    var n := |rules| - 1;
    var init: seq<TextMatch> := Collected(text, rules[..n]);
    var last: seq<TextMatch> := RuleMatches(text, rules[n]);
    assert Collected(text, rules) == init + last;
    if k < n {
      assert rules[..n][k] == rules[k];
      CollectedHasRuleMatches(text, rules[..n], k, m);
      InConcatLeft(init, last, m);
    } else {
      assert k == n;
      assert last == RuleMatches(text, rules[k]);
      InConcatRight(init, last, m);
    }
  }

  lemma InConcatLeft(s: seq<TextMatch>, t: seq<TextMatch>, m: TextMatch)
    requires m in s
    ensures m in s + t
  {
    var i :| 0 <= i < |s| && s[i] == m;
    assert (s + t)[i] == m;
  }

  lemma InConcatRight(s: seq<TextMatch>, t: seq<TextMatch>, m: TextMatch)
    requires m in t
    ensures m in s + t
  {
    var i :| 0 <= i < |t| && t[i] == m;
    assert (s + t)[|s| + i] == m;
  }

  // ---------------------------------------------------------------------
  // `matches.sort((a, b) => a.index - b.index)`, a stable sort

  predicate SortedByIndex(ms: seq<TextMatch>)
  {
    forall a, b :: 0 <= a < b < |ms| ==> ms[a].index <= ms[b].index
  }

  /** Inserts `m` after every element whose index is not greater. */
  function Insert(s: seq<TextMatch>, m: TextMatch): seq<TextMatch>
  {
    if s == [] then [m]
    else if s[|s| - 1].index <= m.index then s + [m]
    else Insert(s[..|s| - 1], m) + [s[|s| - 1]]
  }

  lemma {:induction false} InsertPermutes(s: seq<TextMatch>, m: TextMatch)
    ensures multiset(Insert(s, m)) == multiset(s) + multiset{m}
  {
    if s != [] && s[|s| - 1].index > m.index {
      var init := s[..|s| - 1];
      assert s == init + [s[|s| - 1]];
      InsertPermutes(init, m);
    }
  }

  /** Inserting below a bound keeps everything below it. */
  lemma {:induction false} InsertBounded(s: seq<TextMatch>, m: TextMatch, bound: nat)
    requires forall k :: 0 <= k < |s| ==> s[k].index <= bound
    requires m.index <= bound
    ensures forall k :: 0 <= k < |Insert(s, m)| ==> Insert(s, m)[k].index <= bound
    decreases |s|
  {
    if s != [] && s[|s| - 1].index > m.index {
      var init := s[..|s| - 1];
      InsertBounded(init, m, bound);
      var r := Insert(init, m);
      var t := r + [s[|s| - 1]];
      assert Insert(s, m) == t;
      forall k | 0 <= k < |t| ensures t[k].index <= bound {
        if k < |r| { assert t[k] == r[k]; }
      }
    }
  }

  lemma {:induction false} InsertSorted(s: seq<TextMatch>, m: TextMatch)
    requires SortedByIndex(s)
    ensures SortedByIndex(Insert(s, m))
    decreases |s|
  {
    if s != [] && s[|s| - 1].index > m.index {
      var init := s[..|s| - 1];
      var last := s[|s| - 1];
      var r := Insert(init, m);
      InsertSorted(init, m);
      InsertBounded(init, m, last.index);
      var t := r + [last];
      assert Insert(s, m) == t;
      forall a, b | 0 <= a < b < |t| ensures t[a].index <= t[b].index {
        assert t[a] == r[a];
        if b < |r| { assert t[b] == r[b]; }
      }
    }
  }

  /** `matches.sort((a, b) => a.index - b.index)`, an insertion sort, stable like `Array.prototype.sort`. */
  function SortByIndex(ms: seq<TextMatch>): seq<TextMatch>
  {
    if ms == [] then [] else Insert(SortByIndex(ms[..|ms| - 1]), ms[|ms| - 1])
  }

  /** The sort keeps every match, as many times as it occurs. */
  lemma {:induction false} SortPermutes(ms: seq<TextMatch>)
    ensures multiset(SortByIndex(ms)) == multiset(ms)
  {
    if ms != [] {
      var init := ms[..|ms| - 1];
      assert ms == init + [ms[|ms| - 1]];
      SortPermutes(init);
      InsertPermutes(SortByIndex(init), ms[|ms| - 1]);
    }
  }

  /** The sort orders the matches by index. */
  lemma {:induction false} SortIsSorted(ms: seq<TextMatch>)
    ensures SortedByIndex(SortByIndex(ms))
  {
    if ms != [] {
      SortIsSorted(ms[..|ms| - 1]);
      InsertSorted(SortByIndex(ms[..|ms| - 1]), ms[|ms| - 1]);
    }
  }

  /** The matches at one index, in order. */
  function AtIndex(ms: seq<TextMatch>, v: nat): seq<TextMatch>
  {
    if ms == [] then []
    else AtIndex(ms[..|ms| - 1], v) + (if ms[|ms| - 1].index == v then [ms[|ms| - 1]] else [])
  }

  lemma {:induction false} AtIndexConcat(s: seq<TextMatch>, t: seq<TextMatch>, v: nat)
    ensures AtIndex(s + t, v) == AtIndex(s, v) + AtIndex(t, v)
    decreases |t|
  {
    if t == [] {
      assert s + t == s;
    } else {
      var n := |t| - 1;
      assert (s + t)[..|s + t| - 1] == s + t[..n];
      AtIndexConcat(s, t[..n], v);
    }
  }

  lemma AtIndexSingle(x: TextMatch, v: nat)
    ensures AtIndex([x], v) == if x.index == v then [x] else []
  {
    assert [x][..0] == [];
  }

  lemma {:induction false} AtIndexInsert(s: seq<TextMatch>, m: TextMatch, v: nat)
    ensures AtIndex(Insert(s, m), v) == AtIndex(s, v) + AtIndex([m], v)
    decreases |s|
  {
    if s == [] {
      assert [] + [m] == [m];
    } else if s[|s| - 1].index <= m.index {
      AtIndexConcat(s, [m], v);
    } else {
      var init := s[..|s| - 1];
      var last := s[|s| - 1];
      AtIndexSingle(last, v);
      AtIndexSingle(m, v);
      var am, al := AtIndex([m], v), AtIndex([last], v);
      assert am == [] || al == [];
      calc {
        AtIndex(Insert(s, m), v);
        { assert Insert(s, m) == Insert(init, m) + [last]; AtIndexConcat(Insert(init, m), [last], v); }
        AtIndex(Insert(init, m), v) + al;
        { AtIndexInsert(init, m, v); }
        AtIndex(init, v) + am + al;
        AtIndex(init, v) + al + am;
        { assert s == init + [last]; AtIndexConcat(init, [last], v); }
        AtIndex(s, v) + am;
      }
    }
  }

  /** The sort is stable: the matches sharing an index keep their order, which is rule order. */
  lemma {:induction false} SortIsStable(ms: seq<TextMatch>, v: nat)
    ensures AtIndex(SortByIndex(ms), v) == AtIndex(ms, v)
  {
    if ms != [] {
      var init := ms[..|ms| - 1];
      var last := ms[|ms| - 1];
      assert SortByIndex(ms) == Insert(SortByIndex(init), last);
      SortIsStable(init, v);
      AtIndexInsert(SortByIndex(init), last, v);
      assert ms == init + [last];
      AtIndexConcat(init, [last], v);
    }
  }

  /** `findMatches`: every match of every rule, sorted by index with ties in rule order. */
  function FindMatchesSpec(text: string, rules: seq<Rule>): seq<TextMatch>
    requires ValidRules(rules)
  {
    SortByIndex(Collected(text, rules))
  }

  /** Every match `findMatches` returns is a match, in the text, of one of the rules. */
  lemma FindMatchSound(text: string, rules: seq<Rule>, a: nat)
    requires ValidRules(rules) && a < |FindMatchesSpec(text, rules)|
    ensures FindMatchesSpec(text, rules)[a].rule in rules
    ensures IsMatchOf(text, FindMatchesSpec(text, rules)[a])
  {
    var c := Collected(text, rules);
    var f := FindMatchesSpec(text, rules);
    SortPermutes(c);
    assert f[a] in multiset(c);
    var b :| 0 <= b < |c| && c[b] == f[a];
    CollectedSound(text, rules, b);
  }

  /** Every match `findMatches` returns lies in the text and covers a non-empty part of it. */
  lemma FindMatchesInText(text: string, rules: seq<Rule>)
    requires ValidRules(rules)
    ensures InText(text, FindMatchesSpec(text, rules))
    ensures forall a :: 0 <= a < |FindMatchesSpec(text, rules)| ==> FindMatchesSpec(text, rules)[a].text != ""
  {
    var f := FindMatchesSpec(text, rules);
    forall a | 0 <= a < |f|
      ensures f[a].index + |f[a].text| <= |text| && text[f[a].index..f[a].index + |f[a].text|] == f[a].text
      ensures f[a].text != ""
    {
      FindMatchSound(text, rules, a);
      var m := f[a];
      assert m.rule.dead != "";
      assert |m.text| == |m.rule.dead|;
    }
  }

  // ---------------------------------------------------------------------
  // caseMatchReplacement

  function CaseMatchReplacement(original: string, replacement: string): (r: string)
    ensures |r| == |replacement|
  {
    if IsUpperCase(original) then Upper(replacement)
    else if IsLowerCase(original) then Lower(replacement)
    else if replacement == "" then ""
    else [UpperChar(replacement[0])] + replacement[1..]
  }

  /**
   * The three branches: all upper gives the upper-cased replacement, all lower
   * the lower-cased one, and anything else the replacement with its first
   * character upper-cased; in each the shown text equals the replacement up to case.
   */
  lemma CaseMatchKeepsLetters(original: string, replacement: string)
    ensures Lower(CaseMatchReplacement(original, replacement)) == Lower(replacement)
    ensures original == Upper(original) ==> CaseMatchReplacement(original, replacement) == Upper(replacement)
    ensures original != Upper(original) && original == Lower(original) ==>
      CaseMatchReplacement(original, replacement) == Lower(replacement)
    ensures original != Upper(original) && original != Lower(original) && replacement != "" ==>
      CaseMatchReplacement(original, replacement)[1..] == replacement[1..]
    ensures original != Upper(original) && original != Lower(original) && replacement != "" ==>
      CaseMatchReplacement(original, replacement)[0] == UpperChar(replacement[0])
  {
    var r := CaseMatchReplacement(original, replacement);
    CaseTestsMeaning(original);
    if original == Upper(original) {
      LowerOfUpper(replacement);
    } else if original == Lower(original) {
      LowerIdempotent(replacement);
    } else if replacement != "" {
      forall i | 0 <= i < |r| ensures Lower(r)[i] == Lower(replacement)[i] {
        CaseAt(r, i);
        CaseAt(replacement, i);
        if i == 0 { CaseLaws(replacement[0]); }
      }
    }
  }

  /** An original without lower-case letters, such as `'`, takes the upper-case branch. */
  lemma NoLowerTakesUpperBranch(original: string, replacement: string)
    requires forall i :: 0 <= i < |original| ==> UpperChar(original[i]) == original[i]
    ensures CaseMatchReplacement(original, replacement) == Upper(replacement)
  {
    forall i | 0 <= i < |original| ensures Upper(original)[i] == original[i] {
      CaseAt(original, i);
    }
    assert original == Upper(original);
    CaseTestsMeaning(original);
  }

  /** `JOHN` gives an upper-case replacement. */
  lemma CaseMatchUpperVector()
    ensures CaseMatchReplacement("JOHN", "jane") == "JANE"
  {
  }

  /** `john` gives a lower-case replacement. */
  lemma CaseMatchLowerVector()
    ensures CaseMatchReplacement("john", "Jane") == "jane"
  {
  }

  /** `John` and `jOhN` give a capitalised replacement. */
  lemma CaseMatchMixedVector()
    ensures CaseMatchReplacement("John", "jane") == "Jane"
    ensures CaseMatchReplacement("jOhN", "jane") == "Jane"
  {
  }

  // ---------------------------------------------------------------------
  // The pieces of `replaceTextInNode`

  /** A child of the fragment: an unmatched run, or a `mark` with its `data-original` and shown text. */
  datatype Piece = Run(s: string) | Mark(original: string, shown: string)

  /** `s.slice(a, b)` for `0 <= a`: empty when `a >= b`, clamped to the length. */
  function JsSlice(s: string, a: nat, b: nat): (r: string)
    ensures a <= b <= |s| ==> r == s[a..b]
    ensures b <= a ==> r == ""
  {
    if a >= b || a >= |s| then "" else s[a..if b <= |s| then b else |s|]
  }

  /**
   * The fragment built from `matches`, with `lastIndex == last`. A match
   * that starts before `lastIndex`, inside a match already replaced, is
   * passed over.
   */
  function Pieces(text: string, ms: seq<TextMatch>, last: nat): seq<Piece>
  {
    if ms == [] then
      if last < |text| then [Run(text[last..])] else []
    else if ms[0].index < last then Pieces(text, ms[1..], last)
    else
      (if ms[0].index > last then [Run(JsSlice(text, last, ms[0].index))] else [])
      + [Mark(ms[0].text, CaseMatchReplacement(ms[0].text, ms[0].rule.chosen))]
      + Pieces(text, ms[1..], ms[0].index + |ms[0].text|)
  }

  /** The fragment's text before replacement: runs and the marks' `data-original`. */
  function Originals(ps: seq<Piece>): string
  {
    if ps == [] then "" else OriginalOf(ps[0]) + Originals(ps[1..])
  }

  function OriginalOf(p: Piece): string
  {
    match p
    case Run(s) => s
    case Mark(o, _) => o
  }

  /** The fragment's text as displayed: runs and the marks' shown text. */
  function Shown(ps: seq<Piece>): string
  {
    if ps == [] then "" else ShownOf(ps[0]) + Shown(ps[1..])
  }

  function ShownOf(p: Piece): string
  {
    match p
    case Run(s) => s
    case Mark(_, sh) => sh
  }

  /** A fragment of one piece has that piece's text. */
  lemma OneTexts(p: Piece)
    ensures Originals([p]) == OriginalOf(p) && Shown([p]) == ShownOf(p)
  {
    assert [p][1..] == [];
    assert OriginalOf(p) + "" == OriginalOf(p);
    assert ShownOf(p) + "" == ShownOf(p);
  }

  /** A fragment of two pieces has their texts one after the other. */
  lemma TwoTexts(p: Piece, q: Piece)
    ensures Originals([p, q]) == OriginalOf(p) + OriginalOf(q)
    ensures Shown([p, q]) == ShownOf(p) + ShownOf(q)
  {
    assert [p, q] == [p] + [q];
    OriginalsConcat([p], [q]);
    ShownConcat([p], [q]);
    OneTexts(p);
    OneTexts(q);
  }

  function MarkCount(ps: seq<Piece>): nat
  {
    if ps == [] then 0 else (if ps[0].Mark? then 1 else 0) + MarkCount(ps[1..])
  }

  lemma {:induction false} OriginalsConcat(a: seq<Piece>, b: seq<Piece>)
    ensures Originals(a + b) == Originals(a) + Originals(b)
  {
    if a != [] {
      assert (a + b)[0] == a[0];
      assert (a + b)[1..] == a[1..] + b;
      OriginalsConcat(a[1..], b);
    } else {
      assert a + b == b;
    }
  }

  lemma {:induction false} ShownConcat(a: seq<Piece>, b: seq<Piece>)
    ensures Shown(a + b) == Shown(a) + Shown(b)
  {
    if a != [] {
      assert (a + b)[0] == a[0];
      assert (a + b)[1..] == a[1..] + b;
      ShownConcat(a[1..], b);
    } else {
      assert a + b == b;
    }
  }

  lemma {:induction false} MarkCountConcat(a: seq<Piece>, b: seq<Piece>)
    ensures MarkCount(a + b) == MarkCount(a) + MarkCount(b)
  {
    if a != [] {
      assert (a + b)[0] == a[0];
      assert (a + b)[1..] == a[1..] + b;
      MarkCountConcat(a[1..], b);
    } else {
      assert a + b == b;
    }
  }

  /** Each match lies in the text and names the text it covers. */
  predicate InText(text: string, ms: seq<TextMatch>)
  {
    forall a :: 0 <= a < |ms| ==> ms[a].index + |ms[a].text| <= |text| && text[ms[a].index..ms[a].index + |ms[a].text|] == ms[a].text
  }

  /** The first match lies in the text, and so do the others. */
  lemma InTextTail(text: string, ms: seq<TextMatch>)
    requires InText(text, ms) && ms != []
    ensures InText(text, ms[1..])
    ensures ms[0].index + |ms[0].text| <= |text| && text[ms[0].index..ms[0].index + |ms[0].text|] == ms[0].text
  {
    forall a | 0 <= a < |ms[1..]| ensures ms[1..][a] == ms[a + 1] { }
  }

  /** Text reconstruction: the runs and each mark's `data-original` spell the text from `last` on. */
  lemma {:induction false} PiecesReconstruct(text: string, ms: seq<TextMatch>, last: nat)
    requires InText(text, ms) && last <= |text|
    ensures Originals(Pieces(text, ms, last)) == text[last..]
  {
    if ms == [] {
      if last < |text| { OneTexts(Run(text[last..])); }
    } else {
      InTextTail(text, ms);
      var m := ms[0];
      if m.index < last {
        PiecesReconstruct(text, ms[1..], last);
      } else {
        var e := m.index + |m.text|;
        PiecesReconstruct(text, ms[1..], e);
        ReconstructStep(text, last, m.index, e, m.text, CaseMatchReplacement(m.text, m.rule.chosen), Pieces(text, ms[1..], e));
      }
    }
  }

  /** One replaced match: the run before it, its mark and the rest spell the text from `last` on. */
  lemma ReconstructStep(text: string, last: nat, i: nat, e: nat, original: string, shown: string, rest: seq<Piece>)
    requires last <= i <= e <= |text| && text[i..e] == original
    requires Originals(rest) == text[e..]
    ensures Originals((if i > last then [Run(text[last..i])] else []) + [Mark(original, shown)] + rest) == text[last..]
  {
    var mark := [Mark(original, shown)];
    assert Originals(mark + rest) == original + Originals(rest) by {
      assert (mark + rest)[0] == mark[0] && (mark + rest)[1..] == rest;
    }
    assert text[i..] == text[i..e] + text[e..];
    if i > last {
      var run := [Run(text[last..i])];
      assert run + mark + rest == run + (mark + rest);
      assert Originals(run + (mark + rest)) == text[last..i] + Originals(mark + rest) by {
        assert (run + (mark + rest))[0] == run[0] && (run + (mark + rest))[1..] == mark + rest;
      }
      assert text[last..] == text[last..i] + text[i..];
    } else {
      assert [] + mark + rest == mark + rest;
    }
  }

  /** No run of the fragment is empty. */
  lemma {:induction false} PiecesNoEmptyRun(text: string, ms: seq<TextMatch>, last: nat)
    requires InText(text, ms)
    ensures forall k :: 0 <= k < |Pieces(text, ms, last)| && Pieces(text, ms, last)[k].Run? ==> Pieces(text, ms, last)[k].s != ""
  {
    if ms != [] {
      var m := ms[0];
      if m.index < last {
        PiecesNoEmptyRun(text, ms[1..], last);
      } else {
        PiecesNoEmptyRun(text, ms[1..], m.index + |m.text|);
        var head := (if m.index > last then [Run(JsSlice(text, last, m.index))] else []);
        var mark := [Mark(m.text, CaseMatchReplacement(m.text, m.rule.chosen))];
        var rest := Pieces(text, ms[1..], m.index + |m.text|);
        assert Pieces(text, ms, last) == head + mark + rest;
        forall k | 0 <= k < |head + mark + rest| && (head + mark + rest)[k].Run? ensures (head + mark + rest)[k].s != "" {
          if k >= |head| + 1 { assert (head + mark + rest)[k] == rest[k - |head| - 1]; }
        }
      }
    }
  }

  /**
   * The marks are the matches that do not start inside an earlier replaced
   * one, in order, each showing the case-matched replacement. For matches
   * that do not overlap these are all of them.
   */
  function KeptMatches(ms: seq<TextMatch>, last: nat): seq<TextMatch>
  {
    if ms == [] then []
    else if ms[0].index < last then KeptMatches(ms[1..], last)
    else [ms[0]] + KeptMatches(ms[1..], ms[0].index + |ms[0].text|)
  }

  function MarksOf(ps: seq<Piece>): seq<Piece>
  {
    if ps == [] then [] else (if ps[0].Mark? then [ps[0]] else []) + MarksOf(ps[1..])
  }

  lemma {:induction false} MarksOfConcat(a: seq<Piece>, b: seq<Piece>)
    ensures MarksOf(a + b) == MarksOf(a) + MarksOf(b)
  {
    if a != [] {
      assert (a + b)[0] == a[0];
      assert (a + b)[1..] == a[1..] + b;
      MarksOfConcat(a[1..], b);
    } else {
      assert a + b == b;
    }
  }

  lemma {:induction false} PiecesMarks(text: string, ms: seq<TextMatch>, last: nat)
    ensures |MarksOf(Pieces(text, ms, last))| == |KeptMatches(ms, last)|
    ensures forall k :: 0 <= k < |KeptMatches(ms, last)| ==>
      MarksOf(Pieces(text, ms, last))[k] ==
        Mark(KeptMatches(ms, last)[k].text, CaseMatchReplacement(KeptMatches(ms, last)[k].text, KeptMatches(ms, last)[k].rule.chosen))
  {
    if ms != [] {
      var m := ms[0];
      if m.index < last {
        PiecesMarks(text, ms[1..], last);
      } else {
        var e := m.index + |m.text|;
        PiecesMarks(text, ms[1..], e);
        var head := (if m.index > last then [Run(JsSlice(text, last, m.index))] else []);
        var mark := [Mark(m.text, CaseMatchReplacement(m.text, m.rule.chosen))];
        MarksOfConcat(head + mark, Pieces(text, ms[1..], e));
        MarksOfConcat(head, mark);
        assert MarksOf(head) == [];
      }
    }
  }

  predicate NonOverlapping(ms: seq<TextMatch>)
  {
    forall a :: 0 <= a < |ms| - 1 ==> ms[a].index + |ms[a].text| <= ms[a + 1].index
  }

  /** Matches that follow one another without overlap are all kept. */
  lemma {:induction false} KeptAllWhenDisjoint(ms: seq<TextMatch>, last: nat)
    requires NonOverlapping(ms) && (ms != [] ==> last <= ms[0].index)
    ensures KeptMatches(ms, last) == ms
  {
    if ms != [] {
      KeptAllWhenDisjoint(ms[1..], ms[0].index + |ms[0].text|);
    }
  }

  /** The matches of one rule never overlap, so `replaceTextInNode` replaces every one of them. */
  lemma RuleMatchesDisjoint(text: string, rule: Rule)
    requires rule.dead != ""
    ensures NonOverlapping(RuleMatches(text, rule))
    ensures KeptMatches(RuleMatches(text, rule), 0) == RuleMatches(text, rule)
  {
    var ms := RuleMatches(text, rule);
    forall a | 0 <= a < |ms| - 1 ensures ms[a].index + |ms[a].text| <= ms[a + 1].index {
      MatchesFromAt(text, rule, 0, a);
    }
    KeptAllWhenDisjoint(ms, 0);
  }

  // ---------------------------------------------------------------------
  // `replaceTextInNode` as written, with overlapping matches

  /**
   * The fragment as the source builds it: every match becomes a mark, even
   * one that starts inside the previous match, and `lastIndex` is set to
   * the end of the latest match even when that moves it back.
   */
  function AsWrittenPieces(text: string, ms: seq<TextMatch>, last: nat): seq<Piece>
  {
    if ms == [] then
      if last < |text| then [Run(text[last..])] else []
    else
      (if ms[0].index > last then [Run(JsSlice(text, last, ms[0].index))] else [])
      + [Mark(ms[0].text, CaseMatchReplacement(ms[0].text, ms[0].rule.chosen))]
      + AsWrittenPieces(text, ms[1..], ms[0].index + |ms[0].text|)
  }

  /** On matches that do not overlap, the source's fragment and the model's are the same. */
  lemma {:induction false} AsWrittenAgreesWhenDisjoint(text: string, ms: seq<TextMatch>, last: nat)
    requires NonOverlapping(ms) && (ms != [] ==> last <= ms[0].index)
    ensures AsWrittenPieces(text, ms, last) == Pieces(text, ms, last)
  {
    if ms != [] {
      AsWrittenAgreesWhenDisjoint(text, ms[1..], ms[0].index + |ms[0].text|);
    }
  }

  /** A string without upper-case letters is its own lower-case form, and one with a lower-case letter is not its upper-case form. */
  lemma {:induction false} LowerCaseString(s: string)
    requires forall i :: 0 <= i < |s| ==> LowerChar(s[i]) == s[i]
    ensures Lower(s) == s
  {
    forall i | 0 <= i < |s| ensures Lower(s)[i] == s[i] { CaseAt(s, i); }
  }

  /** Two rules whose dead names are `ann` and `ann lee`, first name and full name. */
  const OverlapShort := Rule("ann", "bea")
  const OverlapLong := Rule("ann lee", "bea lee")

  /** `ann` matches `ann lee` once, at index 0. */
  lemma OverlapShortMatches()
    ensures RuleMatches("ann lee", OverlapShort) == [TextMatch("ann", 0, OverlapShort)]
  {
    var text := "ann lee";
    var ps := CreateReplacementPattern("ann");
    PatternMeaning("ann", text, 0);
    SameUpToCaseRefl("ann");
    assert text[0..3] == "ann";
    assert MatchesAt(ps, text, 0);
    assert ps[0] == Lit('a');
    assert !MatchesAt(ps, text, 3) && !MatchesAt(ps, text, 4);
    assert NextMatch(ps, text, 3) == None;
  }

  /** `ann lee` matches `ann lee` once, at index 0. */
  lemma OverlapLongMatches()
    ensures RuleMatches("ann lee", OverlapLong) == [TextMatch("ann lee", 0, OverlapLong)]
  {
    var text := "ann lee";
    var pl := CreateReplacementPattern("ann lee");
    PatternMeaning("ann lee", text, 0);
    SameUpToCaseRefl("ann lee");
    assert text[0..7] == "ann lee";
    assert MatchesAt(pl, text, 0);
    assert MatchesFrom(text, OverlapLong, 7) == [];
  }

  /** With two rules, the matches of the first come before those of the second. */
  lemma CollectedTwo(text: string, r1: Rule, r2: Rule)
    requires r1.dead != "" && r2.dead != ""
    ensures Collected(text, [r1, r2]) == RuleMatches(text, r1) + RuleMatches(text, r2)
  {
    assert [r1, r2][..1] == [r1] && [r1][..0] == [];
    assert Collected(text, [r1]) == [] + RuleMatches(text, r1);
  }

  /** Two matches already in order stay as they are. */
  lemma SortTwo(x: TextMatch, y: TextMatch)
    requires x.index <= y.index
    ensures SortByIndex([x, y]) == [x, y]
  {
    assert [x, y][..1] == [x] && [x][..0] == [];
    assert SortByIndex([x]) == [x];
  }

  /** Both patterns match `ann lee` at index 0; the sorted matches keep rule order. */
  lemma OverlapMatches()
    ensures FindMatchesSpec("ann lee", [OverlapShort, OverlapLong])
      == [TextMatch("ann", 0, OverlapShort), TextMatch("ann lee", 0, OverlapLong)]
  {
    OverlapShortMatches();
    OverlapLongMatches();
    TwoRulesOneMatchEach("ann lee", OverlapShort, OverlapLong, TextMatch("ann", 0, OverlapShort), TextMatch("ann lee", 0, OverlapLong));
  }

  /** Two rules that match once each, the first no later than the second: `findMatches` returns both in rule order. */
  lemma TwoRulesOneMatchEach(text: string, r1: Rule, r2: Rule, m1: TextMatch, m2: TextMatch)
    requires r1.dead != "" && r2.dead != ""
    requires RuleMatches(text, r1) == [m1] && RuleMatches(text, r2) == [m2] && m1.index <= m2.index
    ensures FindMatchesSpec(text, [r1, r2]) == [m1, m2]
  {
    CollectedTwo(text, r1, r2);
    SortTwo(m1, m2);
  }

  /** Every string is equal to itself up to case. */
  lemma {:induction false} SameUpToCaseRefl(s: string)
    ensures SameUpToCase(s, s)
  {
    if s != [] { SameUpToCaseRefl(s[1..]); }
  }

  /** A lower-case original that starts with a letter takes the lower-case branch, leaving a lower-case replacement as it is. */
  lemma LowerOriginalCase(original: string, replacement: string)
    requires original != [] && UpperChar(original[0]) != original[0]
    requires forall i :: 0 <= i < |original| ==> LowerChar(original[i]) == original[i]
    requires forall i :: 0 <= i < |replacement| ==> LowerChar(replacement[i]) == replacement[i]
    ensures CaseMatchReplacement(original, replacement) == replacement
  {
    LowerCaseString(original);
    LowerCaseString(replacement);
    CaseTestsMeaning(original);
    CaseAt(original, 0);
  }

  /** `ann` is lower case, so its mark shows `bea`. */
  lemma OverlapShortCase()
    ensures CaseMatchReplacement("ann", "bea") == "bea"
  {
    LowerOriginalCase("ann", "bea");
  }

  /** `ann lee` is lower case, so its mark shows `bea lee`. */
  lemma OverlapLongCase()
    ensures CaseMatchReplacement("ann lee", "bea lee") == "bea lee"
  {
    LowerOriginalCase("ann lee", "bea lee");
  }

  /** Two matches at index 0, the second covering the whole text: the source makes a mark of each. */
  lemma AsWrittenSameStart(text: string, m1: TextMatch, m2: TextMatch)
    requires m1.index == 0 && m2.index == 0 && |m2.text| == |text|
    ensures AsWrittenPieces(text, [m1, m2], 0)
      == [Mark(m1.text, CaseMatchReplacement(m1.text, m1.rule.chosen)), Mark(m2.text, CaseMatchReplacement(m2.text, m2.rule.chosen))]
  {
    assert [m1, m2][1..] == [m2];
    assert [m2][1..] == [];
    assert AsWrittenPieces(text, [], |text|) == [];
    assert AsWrittenPieces(text, [m2], |m1.text|)
      == [Mark(m2.text, CaseMatchReplacement(m2.text, m2.rule.chosen))] + AsWrittenPieces(text, [], |text|);
  }

  /** A match that starts before `last` is passed over, leaving the rest of the text as one run. */
  lemma PiecesPassOver(text: string, m: TextMatch, last: nat)
    requires m.index < last < |text|
    ensures Pieces(text, [m], last) == [Run(text[last..])]
  {
    assert [m][1..] == [];
  }

  /** Two matches at index 0, the first shorter than the text: the model passes over the second. */
  lemma PiecesSameStart(text: string, m1: TextMatch, m2: TextMatch)
    requires m1.index == 0 && m2.index == 0 && 0 < |m1.text| < |text|
    ensures Pieces(text, [m1, m2], 0)
      == [Mark(m1.text, CaseMatchReplacement(m1.text, m1.rule.chosen)), Run(text[|m1.text|..])]
  {
    assert [m1, m2][1..] == [m2];
    PiecesPassOver(text, m2, |m1.text|);
  }

  /**
   * Two matches at index 0, the second covering the whole text: the source
   * shows both replacements one after the other and keeps both matched
   * texts as the original, longer than the text itself.
   */
  lemma AsWrittenSameStartTexts(text: string, m1: TextMatch, m2: TextMatch)
    requires m1.index == 0 && m2.index == 0 && |m2.text| == |text|
    ensures Shown(AsWrittenPieces(text, [m1, m2], 0))
      == CaseMatchReplacement(m1.text, m1.rule.chosen) + CaseMatchReplacement(m2.text, m2.rule.chosen)
    ensures Originals(AsWrittenPieces(text, [m1, m2], 0)) == m1.text + m2.text
  {
    AsWrittenSameStart(text, m1, m2);
    TwoTexts(Mark(m1.text, CaseMatchReplacement(m1.text, m1.rule.chosen)), Mark(m2.text, CaseMatchReplacement(m2.text, m2.rule.chosen)));
  }

  /** The matches `findMatches` returns for `ann lee` under the two rules. */
  const OverlapFound := [TextMatch("ann", 0, OverlapShort), TextMatch("ann lee", 0, OverlapLong)]

  /**
   * On `ann lee`, the source's fragment keeps `annann lee` as its original
   * text and shows `bea` followed by `bea lee` (`AsWrittenSameStartTexts`,
   * `OverlapShortCase`, `OverlapLongCase`): the text is garbled and a
   * revert does not restore it.
   */
  lemma OverlapAsWritten()
    ensures FindMatchesSpec("ann lee", [OverlapShort, OverlapLong]) == OverlapFound
    ensures Originals(AsWrittenPieces("ann lee", OverlapFound, 0)) == "ann" + "ann lee"
  {
    OverlapMatches();
    OverlapAsWrittenOriginals();
  }

  /** The two marks of the source's fragment keep both matched texts. */
  lemma OverlapAsWrittenOriginals()
    ensures Originals(AsWrittenPieces("ann lee", OverlapFound, 0)) == "ann" + "ann lee"
  {
    AsWrittenSameStartTexts("ann lee", OverlapFound[0], OverlapFound[1]);
    assert [OverlapFound[0], OverlapFound[1]] == OverlapFound;
  }

  /** Two matches at index 0, the first a proper prefix of the text: the model's fragment keeps the text as its original. */
  lemma PiecesSameStartTexts(text: string, m1: TextMatch, m2: TextMatch)
    requires m1.index == 0 && m2.index == 0 && 0 < |m1.text| < |text| && m1.text == text[..|m1.text|]
    ensures Originals(Pieces(text, [m1, m2], 0)) == text
    ensures Pieces(text, [m1, m2], 0)[1..] == [Run(text[|m1.text|..])]
  {
    PiecesSameStart(text, m1, m2);
    TwoTexts(Mark(m1.text, CaseMatchReplacement(m1.text, m1.rule.chosen)), Run(text[|m1.text|..]));
    assert text[..|m1.text|] + text[|m1.text|..] == text;
  }

  /** On `ann lee`, the model's fragment keeps the text and ends with the unmatched ` lee`. */
  lemma OverlapCorrected()
    ensures FindMatchesSpec("ann lee", [OverlapShort, OverlapLong]) == OverlapFound
    ensures Originals(Pieces("ann lee", OverlapFound, 0)) == "ann lee"
    ensures Pieces("ann lee", OverlapFound, 0)[1..] == [Run(" lee")]
  {
    OverlapMatches();
    var text := "ann lee";
    var m1 := OverlapFound[0];
    assert m1.text == text[..3] && text[3..] == " lee";
    PiecesSameStartTexts(text, m1, OverlapFound[1]);
    assert [m1, OverlapFound[1]] == OverlapFound;
  }

  // ---------------------------------------------------------------------
  // `String.prototype.replaceAll` with a global pattern and a replacer

  /** `text.replaceAll(pattern, m => caseMatchReplacement(m, rule.chosen))` */
  function ReplaceAll(text: string, rule: Rule): string
    requires rule.dead != ""
  {
    Shown(Pieces(text, RuleMatches(text, rule), 0))
  }

  /** A text without a match is left as it is. */
  lemma ReplaceAllNoMatch(text: string, rule: Rule)
    requires rule.dead != ""
    requires forall j :: 0 <= j < |text| ==> !MatchesAt(CreateReplacementPattern(rule.dead), text, j)
    ensures ReplaceAll(text, rule) == text
  {
    assert NextMatch(CreateReplacementPattern(rule.dead), text, 0).None?;
    if text != [] { assert Shown([Run(text[0..])]) == text; }
  }

  /** The rules applied one after another, in map order. */
  function ApplyRules(text: string, rules: seq<Rule>): string
    requires ValidRules(rules)
    decreases |rules|
  {
    if rules == [] then text else ApplyRules(ReplaceAll(text, rules[0]), rules[1..])
  }
}
