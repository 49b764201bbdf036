/**
 * The accessibility attributes `processElementNode` rewrites, the
 * `data-deadname-<attr>` attributes that cache their originals, and the
 * attribute half of `revertAllReplacements`.
 */
module Attributes {
  import opened Wrappers
  import opened Chars
  import opened Dom
  import opened TextMatching
  import opened Utils
  import opened ContentUtils

  /** `TextProcessor.accessibilityAttributes`, in order. */
  const AccessibilityAttributes: seq<string> := ["alt", "aria-label", "aria-description", "title", "placeholder"]

  /** The attribute behind `element.dataset[getDataKey(attr)]`. */
  function CacheAttribute(attr: string): string
  {
    DatasetAttribute(GetDataKey(attr))
  }

  predicate AllLower(s: string)
  {
    forall k :: 0 <= k < |s| ==> IsAsciiLower(s[k])
  }

  /** A word of ASCII lower-case letters is kebab case. */
  lemma {:induction false} PlainKebab(s: string)
    requires AllLower(s)
    ensures IsKebab(s)
  {
    if s != [] {
      assert forall k :: 0 <= k < |s[1..]| ==> s[1..][k] == s[k + 1];
      PlainKebab(s[1..]);
    }
  }

  /** Two kebab-case names joined by `-` before a lower-case letter are kebab case. */
  lemma {:induction false} KebabJoin(a: string, b: string)
    requires IsKebab(a) && IsKebab(b) && b != [] && IsAsciiLower(b[0])
    ensures IsKebab(a + ['-'] + b)
  {
    if a == [] {
      assert a + ['-'] + b == ['-'] + b;
      assert (['-'] + b)[1..] == b;
    } else {
      KebabJoin(a[1..], b);
      assert (a + ['-'] + b)[1..] == a[1..] + ['-'] + b;
    }
  }

  /** The cache of a one-word attribute. */
  lemma CacheOfWord(a: string)
    requires a != [] && AllLower(a)
    ensures CacheAttribute(a) == "data-deadname-" + a
  {
    PlainKebab(a);
    DataKeyNamesAttribute(a);
  }

  /** The cache of a two-word attribute. */
  lemma CacheOfJoin(a: string, b: string)
    requires a != [] && AllLower(a) && b != [] && AllLower(b)
    ensures CacheAttribute(a + ['-'] + b) == "data-deadname-" + (a + ['-'] + b)
  {
    PlainKebab(a);
    PlainKebab(b);
    KebabJoin(a, b);
    DataKeyNamesAttribute(a + ['-'] + b);
  }

  /** The cache of each accessibility attribute is `data-deadname-<attr>`, the attribute `revert` selects. */
  lemma CacheAttributeOf(i: nat)
    requires i < |AccessibilityAttributes|
    ensures CacheAttribute(AccessibilityAttributes[i]) == "data-deadname-" + AccessibilityAttributes[i]
  {
    if i == 1 {
      CacheOfAria("label", AccessibilityAttributes[1]);
    } else if i == 2 {
      CacheOfAria("description", AccessibilityAttributes[2]);
    } else {
      var a := AccessibilityAttributes[i];
      assert AllLower(a);
      CacheOfWord(a);
    }
  }

  /** The cache of `aria-<b>`. */
  lemma CacheOfAria(b: string, attr: string)
    requires b != [] && AllLower(b) && attr == "aria-" + b
    ensures CacheAttribute(attr) == "data-deadname-" + attr
  {
    var aria := "aria";
    assert AllLower(aria);
    assert aria + ['-'] + b == attr;
    CacheOfJoin(aria, b);
  }

  /** The attribute names the rewriting uses are pairwise different, and no cache is one of them. */
  predicate DistinctAttrs(names: seq<string>)
  {
    && (forall i, j :: 0 <= i < |names| && 0 <= j < |names| && i != j ==> names[i] != names[j])
    && (forall i, j :: 0 <= i < |names| && 0 <= j < |names| ==> names[i] != CacheAttribute(names[j]))
    && (forall i, j :: 0 <= i < |names| && 0 <= j < |names| && i != j ==> CacheAttribute(names[i]) != CacheAttribute(names[j]))
  }

  /** An attribute `k` that neither the list nor its caches name. */
  predicate Untouched(k: string, names: seq<string>)
  {
    forall i :: 0 <= i < |names| ==> k != names[i] && k != CacheAttribute(names[i])
  }

  /** Names whose caches are `data-deadname-<name>`. */
  predicate PrefixedCaches(names: seq<string>)
  {
    forall i :: 0 <= i < |names| ==> CacheAttribute(names[i]) == "data-deadname-" + names[i]
  }

  lemma AccessibilityCachesPrefixed()
    ensures PrefixedCaches(AccessibilityAttributes)
  {
    forall i | 0 <= i < |AccessibilityAttributes| ensures CacheAttribute(AccessibilityAttributes[i]) == "data-deadname-" + AccessibilityAttributes[i] {
      CacheAttributeOf(i);
    }
  }

  /** Distinct names that do not start with `d` and have prefixed caches are distinct attributes. */
  lemma DistinctFromPrefix(names: seq<string>)
    requires PrefixedCaches(names)
    requires forall i :: 0 <= i < |names| ==> names[i] != [] && names[i][0] != 'd'
    requires forall i, j :: 0 <= i < |names| && 0 <= j < |names| && i != j ==> names[i] != names[j]
    ensures DistinctAttrs(names)
  {
    forall i, j | 0 <= i < |names| && 0 <= j < |names| ensures names[i] != CacheAttribute(names[j]) {
      assert CacheAttribute(names[j])[0] == 'd';
    }
    forall i, j | 0 <= i < |names| && 0 <= j < |names| && i != j ensures CacheAttribute(names[i]) != CacheAttribute(names[j]) {
      var p := "data-deadname-";
      assert (p + names[i])[|p|..] == names[i];
      assert (p + names[j])[|p|..] == names[j];
    }
  }

  lemma AccessibilityAttributesDistinct()
    ensures DistinctAttrs(AccessibilityAttributes)
  {
    AccessibilityCachesPrefixed();
    DistinctFromPrefix(AccessibilityAttributes);
  }

  /** A key that is none of the names and is too short for, or does not start like, a prefixed cache. */
  lemma UntouchedFromPrefix(k: string, names: seq<string>)
    requires PrefixedCaches(names)
    requires forall i :: 0 <= i < |names| ==> k != names[i]
    requires |k| < 14 || k[0] != 'd'
    ensures Untouched(k, names)
  {
    forall i | 0 <= i < |names| ensures k != CacheAttribute(names[i]) {
      assert |CacheAttribute(names[i])| >= 14 && CacheAttribute(names[i])[0] == 'd';
    }
  }

  /** The exclusion table's attributes are none of the ten names. */
  lemma TableKeyUntouched(t: nat)
    requires t < |ExclusionTable|
    ensures Untouched(ExclusionTable[t].0, AccessibilityAttributes)
  {
    AccessibilityCachesPrefixed();
    var k := ExclusionTable[t].0;
    var a := AccessibilityAttributes;
    assert |k| < 14 || k[0] != 'd';
    forall i | 0 <= i < |a| ensures k != a[i] {
      assert |k| != |a[i]| || k[0] != a[i][0];
    }
    UntouchedFromPrefix(k, a);
  }

  /**
   * None of the ten names is an attribute of the exclusion table,
   * `deadname` or `data-original`.
   */
  lemma ReservedUntouched()
    ensures forall t :: 0 <= t < |ExclusionTable| ==> Untouched(ExclusionTable[t].0, AccessibilityAttributes)
    ensures Untouched("deadname", AccessibilityAttributes)
    ensures Untouched("data-original", AccessibilityAttributes)
  {
    AccessibilityCachesPrefixed();
    var a := AccessibilityAttributes;
    forall t | 0 <= t < |ExclusionTable| ensures Untouched(ExclusionTable[t].0, a) {
      TableKeyUntouched(t);
    }
    UntouchedFromPrefix("deadname", a);
    UntouchedFromPrefix("data-original", a);
  }

  // ---------------------------------------------------------------------
  // processElementNode, attribute by attribute

  /** The attribute is present, non-empty, and the rules change it. */
  predicate Changes(m: map<string, string>, a: string, rules: seq<Rule>)
    requires ValidRules(rules)
  {
    a in m && m[a] != "" && ApplyRules(m[a], rules) != m[a]
  }

  /** `element.dataset[getDataKey(attr)] = value; element.setAttribute(attr, newValue)` when the value changed. */
  function RewriteAttr(m: map<string, string>, a: string, rules: seq<Rule>): map<string, string>
    requires ValidRules(rules)
  {
    if Changes(m, a, rules) then m[CacheAttribute(a) := m[a]][a := ApplyRules(m[a], rules)] else m
  }

  /** The attributes after the loop over `names`. */
  function RewriteAttrs(m: map<string, string>, names: seq<string>, rules: seq<Rule>): map<string, string>
    requires ValidRules(rules)
  {
    if names == [] then m else RewriteAttr(RewriteAttrs(m, names[..|names| - 1], rules), names[|names| - 1], rules)
  }

  /** `accessibilityAttributesUpdated` gained by the loop over `names`. */
  function RewriteCount(m: map<string, string>, names: seq<string>, rules: seq<Rule>): nat
    requires ValidRules(rules)
  {
    if names == [] then 0
    else
      var m' := RewriteAttrs(m, names[..|names| - 1], rules);
      RewriteCount(m, names[..|names| - 1], rules) + (if Changes(m', names[|names| - 1], rules) then 1 else 0)
  }

  /** The number of listed attributes whose value the rules change. */
  function ChangedCount(m: map<string, string>, names: seq<string>, rules: seq<Rule>): nat
    requires ValidRules(rules)
  {
    if names == [] then 0
    else ChangedCount(m, names[..|names| - 1], rules) + (if Changes(m, names[|names| - 1], rules) then 1 else 0)
  }

  /** The value of attribute `k`, if present. */
  function Lookup(m: map<string, string>, k: string): Option<string>
  {
    if k in m then Some(m[k]) else None
  }

  /** Two attribute maps with the same lookups are the same. */
  lemma LookupExt(m1: map<string, string>, m2: map<string, string>)
    requires forall k :: Lookup(m1, k) == Lookup(m2, k)
    ensures m1 == m2
  {
    forall k ensures (k in m1 <==> k in m2) && (k in m1 ==> m1[k] == m2[k]) {
      assert Lookup(m1, k) == Lookup(m2, k);
    }
  }

  lemma DistinctInit(names: seq<string>)
    requires DistinctAttrs(names) && names != []
    ensures DistinctAttrs(names[..|names| - 1])
    ensures Untouched(names[|names| - 1], names[..|names| - 1])
    ensures Untouched(CacheAttribute(names[|names| - 1]), names[..|names| - 1])
  {
  }

  /** A key outside the names and their caches keeps its value through the loop. */
  lemma {:induction false} RewriteUntouched(m: map<string, string>, names: seq<string>, rules: seq<Rule>, k: string)
    requires ValidRules(rules) && Untouched(k, names)
    ensures Lookup(RewriteAttrs(m, names, rules), k) == Lookup(m, k)
  {
    if names != [] {
      var n := |names| - 1;
      assert Untouched(k, names[..n]) by {
        forall i | 0 <= i < n ensures names[..n][i] == names[i] { }
      }
      RewriteUntouched(m, names[..n], rules, k);
      assert k != names[n] && k != CacheAttribute(names[n]);
    }
  }

  /**
   * A listed attribute the rules change is rewritten and its original
   * cached; otherwise it and its cache keep their values.
   */
  lemma {:induction false} RewriteListed(m: map<string, string>, names: seq<string>, rules: seq<Rule>, i: nat)
    requires ValidRules(rules) && DistinctAttrs(names) && i < |names|
    ensures Lookup(RewriteAttrs(m, names, rules), names[i])
      == if Changes(m, names[i], rules) then Some(ApplyRules(m[names[i]], rules)) else Lookup(m, names[i])
    ensures Lookup(RewriteAttrs(m, names, rules), CacheAttribute(names[i]))
      == if Changes(m, names[i], rules) then Some(m[names[i]]) else Lookup(m, CacheAttribute(names[i]))
  {
    var n := |names| - 1;
    var init := names[..n];
    var a := names[n];
    DistinctInit(names);
    var r' := RewriteAttrs(m, init, rules);
    if i == n {
      RewriteUntouched(m, init, rules, a);
      RewriteUntouched(m, init, rules, CacheAttribute(a));
      assert Changes(r', a, rules) == Changes(m, a, rules) by {
        assert Lookup(r', a) == Lookup(m, a);
      }
    } else {
      assert init[i] == names[i];
      RewriteListed(m, init, rules, i);
      assert names[i] != a && names[i] != CacheAttribute(a);
      assert CacheAttribute(names[i]) != a && CacheAttribute(names[i]) != CacheAttribute(a);
    }
  }

  /** Each listed attribute is rewritten on its own, so the count is the number of attributes the rules change. */
  lemma {:induction false} RewriteCountIsChanged(m: map<string, string>, names: seq<string>, rules: seq<Rule>)
    requires ValidRules(rules) && DistinctAttrs(names)
    ensures RewriteCount(m, names, rules) == ChangedCount(m, names, rules)
  {
    if names != [] {
      var n := |names| - 1;
      DistinctInit(names);
      RewriteCountIsChanged(m, names[..n], rules);
      RewriteUntouched(m, names[..n], rules, names[n]);
      var r' := RewriteAttrs(m, names[..n], rules);
      assert Changes(r', names[n], rules) == Changes(m, names[n], rules) by {
        assert Lookup(r', names[n]) == Lookup(m, names[n]);
      }
    }
  }

  /** `processElementNode` on the element's attributes. */
  function Processed(e: Element, rules: seq<Rule>): Element
    requires ValidRules(rules)
  {
    Element(e.id, e.tag, RewriteAttrs(e.attrs, AccessibilityAttributes, rules))
  }

  /**
   * Processing keeps the tag and every attribute outside the five and their
   * caches — in particular the exclusion table's attributes and
   * `deadname` — so it changes neither whether the element blocks text nor
   * whether it is a replacement mark.
   */
  lemma ProcessedKeeps(e: Element, rules: seq<Rule>)
    requires ValidRules(rules)
    ensures Processed(e, rules).id == e.id && Processed(e, rules).tag == e.tag
    ensures forall k :: Untouched(k, AccessibilityAttributes) ==> Lookup(Processed(e, rules).attrs, k) == Lookup(e.attrs, k)
    ensures BlocksText(Processed(e, rules)) == BlocksText(e)
    ensures IsDeadnameMark(Processed(e, rules)) == IsDeadnameMark(e)
  {
    var p := Processed(e, rules);
    forall k | Untouched(k, AccessibilityAttributes) ensures Lookup(p.attrs, k) == Lookup(e.attrs, k) {
      RewriteUntouched(e.attrs, AccessibilityAttributes, rules, k);
    }
    ReservedUntouched();
    forall t | 0 <= t < |ExclusionTable| ensures ExclusionTable[t].0 in e.attrs <==> ExclusionTable[t].0 in p.attrs {
      assert Lookup(p.attrs, ExclusionTable[t].0) == Lookup(e.attrs, ExclusionTable[t].0);
    }
    assert "deadname" in e.attrs <==> "deadname" in p.attrs by {
      assert Lookup(p.attrs, "deadname") == Lookup(e.attrs, "deadname");
    }
    BlocksTextDependsOnTable(e, p, ExclusionTable);
  }

  // ---------------------------------------------------------------------
  // revertAllReplacements, attribute by attribute

  /** `dataset[dataKey]` holds a non-empty original. */
  predicate Restores(m: map<string, string>, a: string)
  {
    CacheAttribute(a) in m && m[CacheAttribute(a)] != ""
  }

  /** `setAttribute(attr, original); delete dataset[dataKey]` when the cached original is non-empty. */
  function RevertAttr(m: map<string, string>, a: string): map<string, string>
  {
    if Restores(m, a) then m[a := m[CacheAttribute(a)]] - {CacheAttribute(a)} else m
  }

  function RevertAttrs(m: map<string, string>, names: seq<string>): map<string, string>
  {
    if names == [] then m else RevertAttr(RevertAttrs(m, names[..|names| - 1]), names[|names| - 1])
  }

  lemma {:induction false} RevertUntouched(m: map<string, string>, names: seq<string>, k: string)
    requires Untouched(k, names)
    ensures Lookup(RevertAttrs(m, names), k) == Lookup(m, k)
  {
    if names != [] {
      var n := |names| - 1;
      assert Untouched(k, names[..n]) by {
        forall i | 0 <= i < n ensures names[..n][i] == names[i] { }
      }
      RevertUntouched(m, names[..n], k);
      assert k != names[n] && k != CacheAttribute(names[n]);
    }
  }

  /**
   * A listed attribute with a non-empty cache gets the cached value back
   * and loses the cache; otherwise it and its cache keep their values.
   */
  lemma {:induction false} RevertListed(m: map<string, string>, names: seq<string>, i: nat)
    requires DistinctAttrs(names) && i < |names|
    ensures Lookup(RevertAttrs(m, names), names[i])
      == if Restores(m, names[i]) then Some(m[CacheAttribute(names[i])]) else Lookup(m, names[i])
    ensures Lookup(RevertAttrs(m, names), CacheAttribute(names[i]))
      == if Restores(m, names[i]) then None else Lookup(m, CacheAttribute(names[i]))
  {
    var n := |names| - 1;
    var init := names[..n];
    var a := names[n];
    DistinctInit(names);
    var r' := RevertAttrs(m, init);
    if i == n {
      RevertUntouched(m, init, a);
      RevertUntouched(m, init, CacheAttribute(a));
      assert Restores(r', a) == Restores(m, a) by {
        assert Lookup(r', CacheAttribute(a)) == Lookup(m, CacheAttribute(a));
      }
    } else {
      assert init[i] == names[i];
      RevertListed(m, init, i);
      assert names[i] != a && names[i] != CacheAttribute(a);
      assert CacheAttribute(names[i]) != a && CacheAttribute(names[i]) != CacheAttribute(a);
    }
  }

  /** No cache attribute of the list is present. */
  predicate NoCaches(m: map<string, string>, names: seq<string>)
  {
    forall i :: 0 <= i < |names| ==> CacheAttribute(names[i]) !in m
  }

  /**
   * Revert after rewriting gives back the attributes: every rewritten one
   * has its non-empty original cached, which is restored and the cache
   * removed, and the others were never touched.
   */
  lemma RevertRewrite(m: map<string, string>, names: seq<string>, rules: seq<Rule>)
    requires ValidRules(rules) && DistinctAttrs(names) && NoCaches(m, names)
    ensures RevertAttrs(RewriteAttrs(m, names, rules), names) == m
  {
    var r1 := RewriteAttrs(m, names, rules);
    var r2 := RevertAttrs(r1, names);
    forall k ensures Lookup(r2, k) == Lookup(m, k) {
      if Untouched(k, names) {
        RewriteUntouched(m, names, rules, k);
        RevertUntouched(r1, names, k);
      } else {
        var i :| 0 <= i < |names| && (k == names[i] || k == CacheAttribute(names[i]));
        RewriteListed(m, names, rules, i);
        RevertListed(r1, names, i);
        assert Restores(r1, names[i]) == Changes(m, names[i], rules) by {
          assert Lookup(r1, CacheAttribute(names[i])) == if Changes(m, names[i], rules) then Some(m[names[i]]) else None;
        }
      }
    }
    LookupExt(r2, m);
  }

  /** Revert on the element's attributes. */
  function RevertElement(e: Element): Element
  {
    Element(e.id, e.tag, RevertAttrs(e.attrs, AccessibilityAttributes))
  }

  /** An element that never held cached originals. */
  predicate Uncached(e: Element)
  {
    NoCaches(e.attrs, AccessibilityAttributes)
  }

  /** Restoring a processed element that had no caches before gives the element back. */
  lemma RevertProcessed(e: Element, rules: seq<Rule>)
    requires ValidRules(rules) && Uncached(e)
    ensures RevertElement(Processed(e, rules)) == e
  {
    AccessibilityAttributesDistinct();
    RevertRewrite(e.attrs, AccessibilityAttributes, rules);
  }

  /** Revert leaves an element without caches as it is. */
  lemma RevertUncached(e: Element)
    requires Uncached(e)
    ensures RevertElement(e) == e
  {
    AccessibilityAttributesDistinct();
    var r := RevertAttrs(e.attrs, AccessibilityAttributes);
    forall k ensures Lookup(r, k) == Lookup(e.attrs, k) {
      if Untouched(k, AccessibilityAttributes) {
        RevertUntouched(e.attrs, AccessibilityAttributes, k);
      } else {
        var i :| 0 <= i < |AccessibilityAttributes| && (k == AccessibilityAttributes[i] || k == CacheAttribute(AccessibilityAttributes[i]));
        RevertListed(e.attrs, AccessibilityAttributes, i);
      }
    }
    LookupExt(r, e.attrs);
  }

  /** A created mark carries no cache, so revert leaves its attributes alone. */
  lemma MarkUncached(id: nat, original: string)
    ensures Uncached(MarkElement(id, original))
  {
    ReservedUntouched();
    assert MarkElement(id, original).attrs.Keys == {"deadname", "data-original"};
  }
}
