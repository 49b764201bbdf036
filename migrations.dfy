/**
 * The settings clean-up run when the extension upgrades: conversion of the
 * version-1 settings, and the three filters that drop duplicate, self and
 * recursive mappings. The filters copy the settings object shallowly, so
 * they write through to the caller's `names` object.
 */
module Migrations {
  import opened Wrappers
  import opened Chars
  import opened Names
  import opened Seqs
  import Validations

  /**
   * `for (const type of ['first', 'middle', 'last']) updated.names[type] =
   * f(settings.names[type])`: each category is read before it is written.
   */
  method ApplyToEachCategory(obj: NamesObject, f: seq<NameEntry> -> seq<NameEntry>)
    modifies obj
    ensures obj.Value() == Names(f(old(obj.first)), f(old(obj.middle)), f(old(obj.last)))
  {
    ghost var before := obj.Value();
    for k := 0 to 3
      invariant forall d :: Get(obj.Value(), d) == if Pos(d) < k then f(Get(before, d)) else Get(before, d)
    {
      var c := Categories[k];
      obj.Set(c, f(Get(obj.Value(), c)));
    }
    assert Get(obj.Value(), First) == f(before.first);
    assert Get(obj.Value(), Middle) == f(before.middle);
    assert Get(obj.Value(), Last) == f(before.last);
  }

  // ---------------------------------------------------------------------
  // removeSelfMappings

  /** `mapping.mappings[0] !== mapping.mappings[1]`, the test of the filter. */
  predicate NotSelf(e: NameEntry)
  {
    e.dead != e.chosen
  }

  /** `filter(mapping => mapping.mappings[0] !== mapping.mappings[1])` */
  function WithoutSelf(s: seq<NameEntry>): seq<NameEntry>
  {
    Filter(NotSelf, s)
  }

  /** Exactly the entries whose two names differ, compared case-sensitively, are kept, in order. */
  lemma WithoutSelfMeaning(s: seq<NameEntry>)
    ensures forall e :: e in WithoutSelf(s) <==> e in s && e.dead != e.chosen
    ensures (forall k :: 0 <= k < |s| ==> s[k].dead != s[k].chosen) ==> WithoutSelf(s) == s
    ensures WithoutSelf(WithoutSelf(s)) == WithoutSelf(s)
  {
    FilterMembership(NotSelf, s);
    if forall k :: 0 <= k < |s| ==> s[k].dead != s[k].chosen {
      FilterKeepsAll(NotSelf, s);
    }
    FilterIdempotent(NotSelf, s);
  }

  method RemoveSelfMappings(settings: Settings) returns (result: Settings)
    modifies settings.names
    ensures result == settings
    ensures settings.names.Value() == Names(WithoutSelf(old(settings.names.first)), WithoutSelf(old(settings.names.middle)), WithoutSelf(old(settings.names.last)))
  {
    result := settings;
    ApplyToEachCategory(result.names, WithoutSelf);
  }

  // ---------------------------------------------------------------------
  // removeRecursiveMappings

  /**
   * `arr.some((other, otherIdx) => otherIdx !== idx && other.mappings[0] ===
   * candidateLive && other.mappings[0] !== other.mappings[1])`, from `j` on.
   */
  function RecursiveFrom(s: seq<NameEntry>, idx: nat, j: nat): bool
    requires idx < |s|
    decreases |s| - j
  {
    j < |s| && ((j != idx && s[j].dead == s[idx].chosen && s[j].dead != s[j].chosen) || RecursiveFrom(s, idx, j + 1))
  }

  /** Another entry of the same list, itself not a self-mapping, has this entry's live name as its deadname. */
  predicate IsRecursive(s: seq<NameEntry>, idx: nat)
    requires idx < |s|
  {
    RecursiveFrom(s, idx, 0)
  }

  lemma {:induction false} RecursiveFromMeaning(s: seq<NameEntry>, idx: nat, j: nat)
    requires idx < |s|
    decreases |s| - j
    ensures RecursiveFrom(s, idx, j) <==> exists o :: j <= o < |s| && o != idx && s[o].dead == s[idx].chosen && s[o].dead != s[o].chosen
  {
    if j < |s| {
      RecursiveFromMeaning(s, idx, j + 1);
    }
  }

  /** The filter from position `k` on; every decision reads the whole original list `s`. */
  function KeptFrom(s: seq<NameEntry>, k: nat): seq<NameEntry>
    decreases |s| - k
  {
    if k >= |s| then []
    else (if IsRecursive(s, k) then [] else [s[k]]) + KeptFrom(s, k + 1)
  }

  function WithoutRecursive(s: seq<NameEntry>): seq<NameEntry>
  {
    KeptFrom(s, 0)
  }

  method RemoveRecursiveMappings(settings: Settings) returns (result: Settings)
    modifies settings.names
    ensures result == settings
    ensures settings.names.Value() == Names(WithoutRecursive(old(settings.names.first)), WithoutRecursive(old(settings.names.middle)), WithoutRecursive(old(settings.names.last)))
  {
    result := settings;
    ApplyToEachCategory(result.names, WithoutRecursive);
  }

  /** Each kept entry comes from a position of `s` at or after `k` that is not recursive. */
  lemma {:induction false} KeptOrigin(s: seq<NameEntry>, k: nat, a: nat)
    requires a < |KeptFrom(s, k)|
    decreases |s| - k
    ensures exists i :: k <= i < |s| && KeptFrom(s, k)[a] == s[i] && !IsRecursive(s, i)
  {
    var head := if IsRecursive(s, k) then [] else [s[k]];
    assert KeptFrom(s, k) == head + KeptFrom(s, k + 1);
    if a >= |head| {
      KeptOrigin(s, k + 1, a - |head|);
    }
  }

  /** Two kept positions come from two different non-recursive positions of `s`, in the same order. */
  lemma {:induction false} KeptPair(s: seq<NameEntry>, k: nat, a: nat, b: nat)
    requires a < b < |KeptFrom(s, k)|
    decreases |s| - k
    ensures exists i, j :: k <= i < j < |s| && KeptFrom(s, k)[a] == s[i] && KeptFrom(s, k)[b] == s[j] && !IsRecursive(s, i) && !IsRecursive(s, j)
  {
    var head := if IsRecursive(s, k) then [] else [s[k]];
    var rest := KeptFrom(s, k + 1);
    assert KeptFrom(s, k) == head + rest;
    if head == [] {
      KeptPair(s, k + 1, a, b);
    } else if a == 0 {
      KeptOrigin(s, k + 1, b - 1);
      var j :| k + 1 <= j < |s| && rest[b - 1] == s[j] && !IsRecursive(s, j);
      assert KeptFrom(s, k)[b] == s[j];
    } else {
      KeptPair(s, k + 1, a - 1, b - 1);
    }
  }

  /**
   * Among the survivors of one category, no entry's live name is the
   * deadname of another survivor that is not a self-mapping.
   */
  lemma SurvivorsNotRecursive(s: seq<NameEntry>)
    ensures forall a, b :: 0 <= a < |WithoutRecursive(s)| && 0 <= b < |WithoutRecursive(s)| && a != b ==>
      !(WithoutRecursive(s)[b].dead == WithoutRecursive(s)[a].chosen && WithoutRecursive(s)[b].dead != WithoutRecursive(s)[b].chosen)
  {
    var r := WithoutRecursive(s);
    forall a, b | 0 <= a < |r| && 0 <= b < |r| && a != b
      ensures !(r[b].dead == r[a].chosen && r[b].dead != r[b].chosen)
    {
      if a < b {
        KeptPair(s, 0, a, b);
        var i, j :| 0 <= i < j < |s| && r[a] == s[i] && r[b] == s[j] && !IsRecursive(s, i) && !IsRecursive(s, j);
        RecursiveFromMeaning(s, i, 0);
      } else {
        KeptPair(s, 0, b, a);
        var j, i :| 0 <= j < i < |s| && r[b] == s[j] && r[a] == s[i] && !IsRecursive(s, j) && !IsRecursive(s, i);
        RecursiveFromMeaning(s, i, 0);
      }
    }
  }

  /** An entry at a recursive position is gone from the result: no equal entry survives at another position. */
  lemma RecursiveDropped(s: seq<NameEntry>, idx: nat)
    requires idx < |s| && IsRecursive(s, idx)
    ensures s[idx] !in WithoutRecursive(s)
  {
    if s[idx] in WithoutRecursive(s) {
      var a :| 0 <= a < |WithoutRecursive(s)| && WithoutRecursive(s)[a] == s[idx];
      KeptOrigin(s, 0, a);
      var i :| 0 <= i < |s| && s[idx] == s[i] && !IsRecursive(s, i);
      RecursiveFromMeaning(s, idx, 0);
      RecursiveFromMeaning(s, i, 0);
    }
  }

  /** A list without recursion is kept whole. */
  lemma {:induction false} KeptWhenNoneRecursive(s: seq<NameEntry>, k: nat)
    requires k <= |s|
    requires forall i :: k <= i < |s| ==> !IsRecursive(s, i)
    decreases |s| - k
    ensures KeptFrom(s, k) == s[k..]
  {
    if k < |s| {
      KeptWhenNoneRecursive(s, k + 1);
      assert s[k..] == [s[k]] + s[k + 1..];
    }
  }

  // ---------------------------------------------------------------------
  // deduplicateNameMappings

  /** `mapping.mappings.join('|')` */
  function Key(e: NameEntry): string
  {
    e.dead + "|" + e.chosen
  }

  /** The `filter` with its `seen` set: an entry is kept iff its key has not been seen, and its key is then seen. */
  function DedupFrom(s: seq<NameEntry>, seen: set<string>): seq<NameEntry>
  {
    if s == [] then []
    else if Key(s[0]) in seen then DedupFrom(s[1..], seen)
    else [s[0]] + DedupFrom(s[1..], seen + {Key(s[0])})
  }

  function Deduped(s: seq<NameEntry>): seq<NameEntry>
  {
    DedupFrom(s, {})
  }

  /** The survivors come from the input and their keys are new. */
  lemma {:induction false} DedupFromSubset(s: seq<NameEntry>, seen: set<string>)
    ensures forall e :: e in DedupFrom(s, seen) ==> e in s && Key(e) !in seen
  {
    if s != [] {
      if Key(s[0]) in seen {
        DedupFromSubset(s[1..], seen);
      } else {
        DedupFromSubset(s[1..], seen + {Key(s[0])});
        assert DedupFrom(s, seen) == [s[0]] + DedupFrom(s[1..], seen + {Key(s[0])});
      }
    }
  }

  /** The survivors' keys are pairwise different. */
  lemma {:induction false} DedupFromKeys(s: seq<NameEntry>, seen: set<string>)
    ensures forall a, b :: 0 <= a < b < |DedupFrom(s, seen)| ==> Key(DedupFrom(s, seen)[a]) != Key(DedupFrom(s, seen)[b])
  {
    if s != [] {
      if Key(s[0]) in seen {
        DedupFromKeys(s[1..], seen);
      } else {
        var seen' := seen + {Key(s[0])};
        DedupFromKeys(s[1..], seen');
        DedupFromSubset(s[1..], seen');
        var r := DedupFrom(s, seen);
        var rest := DedupFrom(s[1..], seen');
        assert r == [s[0]] + rest;
        forall a, b | 0 <= a < b < |r| ensures Key(r[a]) != Key(r[b]) {
          assert r[b] == rest[b - 1];
          assert rest[b - 1] in rest;
          if a > 0 { assert r[a] == rest[a - 1]; }
        }
      }
    }
  }

  /** Every key of the input is kept: the first entry with it survives. */
  lemma {:induction false} DedupFromCovers(s: seq<NameEntry>, seen: set<string>)
    ensures forall e :: e in s && Key(e) !in seen ==> exists x :: x in DedupFrom(s, seen) && Key(x) == Key(e)
  {
    if s != [] {
      if Key(s[0]) in seen {
        DedupFromCovers(s[1..], seen);
      } else {
        DedupFromCovers(s[1..], seen + {Key(s[0])});
        forall e | e in s && Key(e) !in seen ensures exists x :: x in DedupFrom(s, seen) && Key(x) == Key(e) {
          if Key(e) == Key(s[0]) {
            assert s[0] in DedupFrom(s, seen);
          } else {
            assert e in s[1..];
            var x :| x in DedupFrom(s[1..], seen + {Key(s[0])}) && Key(x) == Key(e);
            assert x in DedupFrom(s, seen);
          }
        }
      }
    }
  }

  /** A list whose keys are pairwise different and unseen passes unchanged. */
  lemma {:induction false} DedupFromIdentity(s: seq<NameEntry>, seen: set<string>)
    requires forall a :: 0 <= a < |s| ==> Key(s[a]) !in seen
    requires forall a, b :: 0 <= a < b < |s| ==> Key(s[a]) != Key(s[b])
    ensures DedupFrom(s, seen) == s
  {
    if s != [] {
      var seen' := seen + {Key(s[0])};
      forall a | 0 <= a < |s[1..]| ensures Key(s[1..][a]) !in seen' {
        assert s[1..][a] == s[a + 1];
      }
      forall a, b | 0 <= a < b < |s[1..]| ensures Key(s[1..][a]) != Key(s[1..][b]) {
        assert s[1..][a] == s[a + 1] && s[1..][b] == s[b + 1];
      }
      DedupFromIdentity(s[1..], seen');
      assert s == [s[0]] + s[1..];
    }
  }

  /** The result has no repeated key, keeps one entry for every key, and deduplicating again changes nothing. */
  lemma DedupedProperties(s: seq<NameEntry>)
    ensures forall a, b :: 0 <= a < b < |Deduped(s)| ==> Key(Deduped(s)[a]) != Key(Deduped(s)[b])
    ensures forall e :: e in Deduped(s) ==> e in s
    ensures forall e :: e in s ==> exists x :: x in Deduped(s) && Key(x) == Key(e)
    ensures Deduped(Deduped(s)) == Deduped(s)
  {
    DedupFromKeys(s, {});
    DedupFromSubset(s, {});
    DedupFromCovers(s, {});
    DedupFromIdentity(Deduped(s), {});
  }

  /** Of two entries sharing a key, only the first survives. */
  lemma DedupSharedKey(e: NameEntry, f: NameEntry)
    requires Key(e) == Key(f)
    ensures Deduped([e, f]) == [e]
  {
    var seen: set<string> := {};
    assert [e, f][1..] == [f] && [f][1..] == [];
    assert Key(e) !in seen;
    assert DedupFrom([e, f], seen) == [e] + DedupFrom([f], seen + {Key(e)});
    assert Key(f) in seen + {Key(e)};
    assert DedupFrom([f], seen + {Key(e)}) == DedupFrom([], seen + {Key(e)});
  }

  /** The key is a join, so two different pairs can share one: `["a|b", "c"]` hides a later `["a", "b|c"]`. */
  lemma DedupKeyCollision()
    ensures NameEntry("a|b", "c") != NameEntry("a", "b|c")
    ensures Deduped([NameEntry("a|b", "c"), NameEntry("a", "b|c")]) == [NameEntry("a|b", "c")]
  {
    assert "a|b"[1] != "a"[..][0] || |"a|b"| != |"a"|;
    assert Key(NameEntry("a|b", "c")) == Key(NameEntry("a", "b|c"));
    DedupSharedKey(NameEntry("a|b", "c"), NameEntry("a", "b|c"));
  }

  /** The `filter` callback with its `seen` set, over one category. */
  method DedupList(list: seq<NameEntry>) returns (kept: seq<NameEntry>)
    ensures kept == Deduped(list)
  {
    var seen: set<string> := {};
    kept := [];
    for i := 0 to |list|
      invariant kept + DedupFrom(list[i..], seen) == Deduped(list)
    {
      assert list[i..][1..] == list[i + 1..];
      var key := Key(list[i]);
      if key !in seen {
        seen := seen + {key};
        kept := kept + [list[i]];
      }
    }
  }

  method DeduplicateNameMappings(settings: Settings) returns (result: Settings)
    modifies settings.names
    ensures result == settings
    ensures settings.names.Value() == Names(Deduped(old(settings.names.first)), Deduped(old(settings.names.middle)), Deduped(old(settings.names.last)))
  {
    result := settings;
    var obj := result.names;
    ghost var before := obj.Value();
    for k := 0 to 3
      invariant forall d :: Get(obj.Value(), d) == if Pos(d) < k then Deduped(Get(before, d)) else Get(before, d)
    {
      var c := Categories[k];
      var kept := DedupList(Get(obj.Value(), c));
      obj.Set(c, kept);
    }
    assert Get(obj.Value(), First) == Deduped(before.first);
    assert Get(obj.Value(), Middle) == Deduped(before.middle);
    assert Get(obj.Value(), Last) == Deduped(before.last);
  }

  // ---------------------------------------------------------------------
  // convertLegacyToNewFormat

  datatype LegacyName = LegacyName(first: string, middle: string, last: string)

  /** The version-1 settings, each read from its own storage key; any of them may be missing. */
  datatype LegacySettings = LegacySettings(
    name: Option<LegacyName>,
    deadname: Option<seq<LegacyName>>,
    enabled: Option<bool>,
    stealthMode: Option<bool>,
    highlight: Option<bool>)

  function Part(l: LegacyName, c: Category): string
  {
    match c
    case First => l.first
    case Middle => l.middle
    case Last => l.last
  }

  /** `x ?? false` */
  function OrFalse(b: Option<bool>): bool
  {
    if b.Some? then b.value else false
  }

  /** Both strings are truthy: `deadname[c] && legacy.name?.[c]`. */
  predicate Converts(d: LegacyName, name: Option<LegacyName>, c: Category)
  {
    Part(d, c) != "" && name.Some? && Part(name.value, c) != ""
  }

  /** The entries pushed into category `c` by the `forEach` over `deads`, in order. */
  function Converted(deads: seq<LegacyName>, name: Option<LegacyName>, c: Category): seq<NameEntry>
  {
    if deads == [] then []
    else
      var d := deads[|deads| - 1];
      Converted(deads[..|deads| - 1], name, c) + (if Converts(d, name, c) then [NameEntry(Part(d, c), Part(name.value, c))] else [])
  }

  /** No category gets more entries than there are legacy deadnames, and each entry pairs two non-empty strings taken from one legacy deadname and the legacy name. */
  lemma {:induction false} ConvertedProperties(deads: seq<LegacyName>, name: Option<LegacyName>, c: Category)
    ensures |Converted(deads, name, c)| <= |deads|
    ensures NonEmptyEntries(Converted(deads, name, c))
    ensures forall e :: e in Converted(deads, name, c) <==>
      exists d :: d in deads && Converts(d, name, c) && e == NameEntry(Part(d, c), Part(name.value, c))
  {
    if deads != [] {
      var init := deads[..|deads| - 1];
      var d := deads[|deads| - 1];
      ConvertedProperties(init, name, c);
      assert deads == init + [d];
      assert forall x :: x in deads <==> x in init || x == d;
    }
  }

  lemma ConvertedStep(ds: seq<LegacyName>, i: nat, name: Option<LegacyName>, c: Category)
    requires i < |ds|
    ensures Converted(ds[..i + 1], name, c) == Converted(ds[..i], name, c) + (if Converts(ds[i], name, c) then [NameEntry(Part(ds[i], c), Part(name.value, c))] else [])
  {
    assert ds[..i + 1][..i] == ds[..i];
  }

  /** `defaultSettings` */
  const DefaultBlockContentBeforeDone := true
  const DefaultHideDebugInfo := false
  const DefaultTheme := "trans"

  method ConvertLegacyToNewFormat(legacy: LegacySettings) returns (result: Settings)
    ensures fresh(result.names)
    ensures result.names.Value() == (var ds := if legacy.deadname.Some? then legacy.deadname.value else [];
      Names(Converted(ds, legacy.name, First), Converted(ds, legacy.name, Middle), Converted(ds, legacy.name, Last)))
    ensures result.enabled == OrFalse(legacy.enabled)
    ensures result.stealthMode == OrFalse(legacy.stealthMode)
    ensures result.highlightReplacedNames == OrFalse(legacy.highlight)
    ensures result.syncSettingsAcrossDevices
    ensures result.blockContentBeforeDone == DefaultBlockContentBeforeDone
    ensures result.hideDebugInfo == DefaultHideDebugInfo
    ensures result.theme == DefaultTheme && result.toggleKeybinding == None
  {
    var names := new NamesObject(Names([], [], []));
    result := Settings(names, OrFalse(legacy.enabled), DefaultBlockContentBeforeDone, OrFalse(legacy.stealthMode),
      DefaultHideDebugInfo, OrFalse(legacy.highlight), true, DefaultTheme, None);
    if legacy.deadname.Some? {
      var ds := legacy.deadname.value;
      for i := 0 to |ds|
        invariant names.Value() == Names(Converted(ds[..i], legacy.name, First), Converted(ds[..i], legacy.name, Middle), Converted(ds[..i], legacy.name, Last))
      {
        ConvertedStep(ds, i, legacy.name, First);
        ConvertedStep(ds, i, legacy.name, Middle);
        ConvertedStep(ds, i, legacy.name, Last);
        var d := ds[i];
        if d.first != "" && legacy.name.Some? && legacy.name.value.first != "" {
          names.first := names.first + [NameEntry(d.first, legacy.name.value.first)];
        }
        if d.middle != "" && legacy.name.Some? && legacy.name.value.middle != "" {
          names.middle := names.middle + [NameEntry(d.middle, legacy.name.value.middle)];
        }
        if d.last != "" && legacy.name.Some? && legacy.name.value.last != "" {
          names.last := names.last + [NameEntry(d.last, legacy.name.value.last)];
        }
      }
      assert ds[..|ds|] == ds;
    }
  }

  // ---------------------------------------------------------------------
  // The gap between the filters and the schema checks

  /** The filter compares case-sensitively: `["A", "a"]` survives it, yet the schema check rejects it. */
  lemma SelfFilterIsCaseSensitive()
    ensures WithoutSelf([NameEntry("A", "a")]) == [NameEntry("A", "a")]
    ensures !Validations.ValidateNoSelfMappings(Names([NameEntry("A", "a")], [], []))
  {
    WithoutSelfMeaning([NameEntry("A", "a")]);
    Validations.NoSelfMappingsMeaning(Names([NameEntry("A", "a")], [], []));
    assert Lower("A") == [LowerChar('A')] + Lower("");
    assert Lower("a") == [LowerChar('a')] + Lower("");
    assert NameEntry("A", "a") in Flat(Names([NameEntry("A", "a")], [], []));
  }

  /** The filter works per category: `first: ["A", "B"]` and `last: ["B", "C"]` both survive, yet the schema check rejects the pair. */
  lemma RecursiveFilterIsPerCategory()
    ensures WithoutRecursive([NameEntry("A", "B")]) == [NameEntry("A", "B")]
    ensures WithoutRecursive([NameEntry("B", "C")]) == [NameEntry("B", "C")]
    ensures !Validations.ValidateNoRecursiveMappings(Names([NameEntry("A", "B")], [], [NameEntry("B", "C")]))
  {
    assert !IsRecursive([NameEntry("A", "B")], 0);
    KeptWhenNoneRecursive([NameEntry("A", "B")], 0);
    assert !IsRecursive([NameEntry("B", "C")], 0);
    KeptWhenNoneRecursive([NameEntry("B", "C")], 0);
    var n := Names([NameEntry("A", "B")], [], [NameEntry("B", "C")]);
    Validations.NoRecursiveMappingsMeaning(n);
    assert Flat(n)[0] == NameEntry("A", "B") && Flat(n)[1] == NameEntry("B", "C");
  }
}
