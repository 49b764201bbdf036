/**
 * The helpers of the options and content scripts: name-change detection,
 * the camel-case conversion behind `dataset` keys, shortcut formatting and
 * the filters that drop empty name pairs and empty diff entries.
 */
module Utils {
  import opened Wrappers
  import opened Seqs
  import opened Chars
  import opened Dom
  import opened Names

  // ---------------------------------------------------------------------
  // kebabToCamel

  /** `str.replace(/-([a-z])/g, (_, letter) => letter.toUpperCase())` */
  function KebabToCamel(s: string): string
  {
    if s == [] then []
    else if |s| >= 2 && s[0] == '-' && IsAsciiLower(s[1]) then [UpperChar(s[1])] + KebabToCamel(s[2..])
    else [s[0]] + KebabToCamel(s[1..])
  }

  /** An attribute name in kebab case: no ASCII upper-case letter, and every `-` followed by an ASCII lower-case letter. */
  predicate IsKebab(s: string)
  {
    s == [] || (!IsAsciiUpper(s[0]) && (s[0] == '-' ==> |s| >= 2 && IsAsciiLower(s[1])) && IsKebab(s[1..]))
  }

  /** `dataset` undoes the conversion: the key of a kebab-case name names the attribute `data-` + that name. */
  lemma {:induction false} KebabRoundTrip(s: string)
    requires IsKebab(s)
    ensures CamelToKebab(KebabToCamel(s)) == s
  {
    if s != [] {
      if |s| >= 2 && s[0] == '-' && IsAsciiLower(s[1]) {
        assert IsKebab(s[1..]) && s[1..][1..] == s[2..];
        KebabRoundTrip(s[2..]);
        var u := UpperChar(s[1]);
        assert IsAsciiUpper(u) && LowerChar(u) == s[1];
        assert ([u] + KebabToCamel(s[2..]))[1..] == KebabToCamel(s[2..]);
        assert CamelToKebab([u] + KebabToCamel(s[2..])) == ['-', s[1]] + s[2..];
        assert s == ['-', s[1]] + s[2..];
      } else {
        KebabRoundTrip(s[1..]);
        assert ([s[0]] + KebabToCamel(s[1..]))[1..] == KebabToCamel(s[1..]);
        assert s == [s[0]] + s[1..];
      }
    }
  }

  /** The conversion only removes a `-` before a lower-case letter, and upper-cases that letter. */
  lemma {:induction false} KebabToCamelLength(s: string)
    ensures |KebabToCamel(s)| <= |s|
    ensures (forall k :: 0 <= k < |s| ==> s[k] != '-') ==> KebabToCamel(s) == s
  {
    if s != [] {
      if |s| >= 2 && s[0] == '-' && IsAsciiLower(s[1]) {
        KebabToCamelLength(s[2..]);
      } else {
        KebabToCamelLength(s[1..]);
        if forall k :: 0 <= k < |s| ==> s[k] != '-' {
          assert forall k :: 0 <= k < |s[1..]| ==> s[1..][k] == s[k + 1];
          assert s == [s[0]] + s[1..];
        }
      }
    }
  }

  // ---------------------------------------------------------------------
  // haveNamesChanged

  /**
   * Early-returning comparison, category by category and entry by entry.
   * Two entries are the same iff both strings are, so the answer is plain
   * inequality of the configurations.
   */
  method HaveNamesChanged(previous: Option<Names>, current: Names) returns (changed: bool)
    ensures changed <==> previous.None? || previous.value != current
  {
    if previous.None? {
      return true;
    }
    var p := previous.value;
    for k := 0 to 3
      invariant forall d :: Pos(d) < k ==> Get(p, d) == Get(current, d)
    {
      var c := Categories[k];
      var prevNames := Get(p, c);
      var currNames := Get(current, c);
      if |prevNames| != |currNames| {
        return true;
      }
      for i := 0 to |prevNames|
        invariant prevNames[..i] == currNames[..i]
      {
        if prevNames[i].dead != currNames[i].dead || prevNames[i].chosen != currNames[i].chosen {
          assert prevNames[i] != currNames[i];
          return true;
        }
        assert prevNames[..i + 1] == prevNames[..i] + [prevNames[i]];
        assert currNames[..i + 1] == currNames[..i] + [currNames[i]];
      }
      assert prevNames == prevNames[..|prevNames|] && currNames == currNames[..|currNames|];
    }
    assert Get(p, First) == Get(current, First) && Get(p, Middle) == Get(current, Middle) && Get(p, Last) == Get(current, Last);
    return false;
  }

  // ---------------------------------------------------------------------
  // formatKeyboardShortcut

  /** The pressed modifiers, in the order `Ctrl`, `Alt`, `Shift`, `Meta`. */
  function ModifierNames(k: Keybinding): seq<string>
  {
    (if k.ctrl then ["Ctrl"] else []) + (if k.alt then ["Alt"] else []) +
    (if k.shift then ["Shift"] else []) + (if k.meta then ["Meta"] else [])
  }

  /** `' '` reads `Space`, a single character is upper-cased, `Escape` reads `Esc`, any other key is kept. */
  function FormatKey(key: string): string
  {
    if key == " " then "Space"
    else if |key| == 1 then Upper(key)
    else if key == "Escape" then "Esc"
    else key
  }

  /** `parts.join(sep)` */
  function Join(parts: seq<string>, sep: string): string
  {
    if parts == [] then ""
    else if |parts| == 1 then parts[0]
    else parts[0] + sep + Join(parts[1..], sep)
  }

  method FormatKeyboardShortcut(shortcut: Option<Keybinding>) returns (r: Option<string>)
    ensures shortcut.None? ==> r.None?
    ensures shortcut.Some? ==> r == Some(Join(ModifierNames(shortcut.value) + [FormatKey(shortcut.value.key)], " + "))
  {
    if shortcut.None? {
      return None;
    }
    var sc := shortcut.value;
    var parts: seq<string> := [];
    if sc.ctrl { parts := parts + ["Ctrl"]; }
    if sc.alt { parts := parts + ["Alt"]; }
    if sc.shift { parts := parts + ["Shift"]; }
    if sc.meta { parts := parts + ["Meta"]; }
    assert parts == ModifierNames(sc);
    var key := sc.key;
    if key == " " {
      key := "Space";
    } else if |key| == 1 {
      key := Upper(key);
    } else if key == "Escape" {
      key := "Esc";
    }
    parts := parts + [key];
    return Some(Join(parts, " + "));
  }

  /** The rank of a modifier in the fixed order. */
  function ModifierRank(m: string): nat
  {
    if m == "Ctrl" then 0 else if m == "Alt" then 1 else if m == "Shift" then 2 else 3
  }

  /** A modifier is named iff it is pressed, each at most once, in the fixed order. */
  lemma ModifierNamesMeaning(k: Keybinding)
    ensures "Ctrl" in ModifierNames(k) <==> k.ctrl
    ensures "Alt" in ModifierNames(k) <==> k.alt
    ensures "Shift" in ModifierNames(k) <==> k.shift
    ensures "Meta" in ModifierNames(k) <==> k.meta
    ensures forall i, j :: 0 <= i < j < |ModifierNames(k)| ==> ModifierRank(ModifierNames(k)[i]) < ModifierRank(ModifierNames(k)[j])
  {
    assert "Ctrl" != "Alt" && "Ctrl" != "Shift" && "Ctrl" != "Meta" && "Alt" != "Shift" && "Alt" != "Meta" && "Shift" != "Meta";
    RankValues();
  }

  lemma RankValues()
    ensures ModifierRank("Ctrl") == 0 && ModifierRank("Alt") == 1 && ModifierRank("Shift") == 2 && ModifierRank("Meta") == 3
  {
  }

  /** The joined text ends with the last part, after the separator when something precedes it. */
  lemma {:induction false} JoinSnoc(parts: seq<string>, last: string, sep: string)
    ensures Join(parts + [last], sep) == if parts == [] then last else Join(parts, sep) + sep + last
  {
    if |parts| == 1 {
      assert parts + [last] == [parts[0], last];
      assert [parts[0], last][1..] == [last];
    } else if |parts| > 1 {
      assert (parts + [last])[1..] == parts[1..] + [last];
      JoinSnoc(parts[1..], last, sep);
    }
  }

  /** With no modifier the shortcut is the formatted key alone; otherwise the modifiers come first, then ` + ` and the key. */
  lemma ShortcutEndsWithKey(k: Keybinding)
    ensures Join(ModifierNames(k) + [FormatKey(k.key)], " + ") ==
      if ModifierNames(k) == [] then FormatKey(k.key) else Join(ModifierNames(k), " + ") + " + " + FormatKey(k.key)
  {
    JoinSnoc(ModifierNames(k), FormatKey(k.key), " + ");
  }

  /** The key rule for every key: space, then single characters, then `Escape`, then the rest. */
  lemma FormatKeyMeaning(key: string)
    ensures key == " " ==> FormatKey(key) == "Space"
    ensures |key| == 1 && key != " " ==> FormatKey(key) == Upper(key)
    ensures key == "Escape" ==> FormatKey(key) == "Esc"
    ensures |key| != 1 && key != "Escape" ==> FormatKey(key) == key
  {
  }

  lemma FormatKeyVectors()
    ensures FormatKey(" ") == "Space"
    ensures FormatKey("Escape") == "Esc"
    ensures FormatKey("k") == "K"
    ensures FormatKey("ArrowUp") == "ArrowUp"
  {
    assert Upper("k") == [UpperChar('k')] + Upper("");
  }

  // ---------------------------------------------------------------------
  // filterEmptyNamePairs

  /** `!(pair.mappings[0] === '' && pair.mappings[1] === '')` */
  predicate NotEmptyPair(e: NameEntry)
  {
    !(e.dead == "" && e.chosen == "")
  }

  /** The categories of the result, in order. */
  const FilteredCategories: seq<string> := ["first", "middle", "last", "email"]

  /** `nameMappings?.[category]?.filter(...) ?? []` */
  function FilteredCategory(input: Option<map<string, seq<NameEntry>>>, c: string): seq<NameEntry>
  {
    if input.Some? && c in input.value then Filter(NotEmptyPair, input.value[c]) else []
  }

  /** The object `filterEmptyNamePairs` returns. */
  function FilteredNames(input: Option<map<string, seq<NameEntry>>>): map<string, seq<NameEntry>>
  {
    map c | c in FilteredCategories :: FilteredCategory(input, c)
  }

  method FilterEmptyNamePairs(input: Option<map<string, seq<NameEntry>>>) returns (result: map<string, seq<NameEntry>>)
    ensures result == FilteredNames(input)
  {
    result := map["first" := [], "middle" := [], "last" := [], "email" := []];
    PartialStart(input, result);
    for k := 0 to |FilteredCategories|
      invariant result == Partial(input, FilteredCategories, k)
    {
      var c := FilteredCategories[k];
      var filtered: seq<NameEntry>;
      if input.Some? && c in input.value {
        filtered := Filter(NotEmptyPair, input.value[c]);
      } else {
        filtered := [];
      }
      PartialNext(input, FilteredCategories, k, k + 1);
      result := result[c := filtered];
    }
    assert FilteredCategories[..|FilteredCategories|] == FilteredCategories;
  }

  /** The map after the loop has handled the first `k` categories of `cs`: those are filtered, the others still `[]`. */
  function Partial(input: Option<map<string, seq<NameEntry>>>, cs: seq<string>, k: nat): map<string, seq<NameEntry>>
    requires k <= |cs|
  {
    map c | c in cs :: if c in cs[..k] then FilteredCategory(input, c) else []
  }

  lemma PartialStart(input: Option<map<string, seq<NameEntry>>>, m: map<string, seq<NameEntry>>)
    requires m == map["first" := [], "middle" := [], "last" := [], "email" := []]
    ensures m == Partial(input, FilteredCategories, 0)
  {
    assert forall c :: c in FilteredCategories <==> c in m;
  }

  /** Handling category `k` updates that one key and no other. */
  lemma PartialNext(input: Option<map<string, seq<NameEntry>>>, cs: seq<string>, k: nat, k': nat)
    requires k < |cs| && k' == k + 1
    ensures Partial(input, cs, k') == Partial(input, cs, k)[cs[k] := FilteredCategory(input, cs[k])]
  {
    var l := Partial(input, cs, k');
    var r := Partial(input, cs, k)[cs[k] := FilteredCategory(input, cs[k])];
    assert cs[..k'] == cs[..k] + [cs[k]];
    assert l.Keys == r.Keys;
    forall c | c in l
      ensures l[c] == r[c]
    {
      if c != cs[k] {
        assert c in cs[..k'] <==> c in cs[..k];
      }
    }
  }

  /** The result has exactly the four categories, and a missing category becomes `[]`. */
  lemma FilteredNamesShape(input: Option<map<string, seq<NameEntry>>>)
    ensures FilteredNames(input).Keys == {"first", "middle", "last", "email"}
    ensures forall c :: c in FilteredCategories && (input.None? || c !in input.value) ==> FilteredNames(input)[c] == []
  {
    assert forall c :: c in FilteredCategories <==> c in {"first", "middle", "last", "email"};
  }

  /** A present category loses exactly its pairs with both strings empty. */
  lemma FilteredNamesMembership(input: Option<map<string, seq<NameEntry>>>, c: string)
    requires c in FilteredCategories && input.Some? && c in input.value
    ensures forall e :: e in FilteredNames(input)[c] ==> e in input.value[c] && NotEmptyPair(e)
    ensures forall e :: e in input.value[c] && NotEmptyPair(e) ==> e in FilteredNames(input)[c]
  {
    FilterMembership(NotEmptyPair, input.value[c]);
  }

  /** Filtering the result again returns it unchanged. */
  lemma FilteredNamesIdempotent(input: Option<map<string, seq<NameEntry>>>)
    ensures FilteredNames(Some(FilteredNames(input))) == FilteredNames(input)
  {
    var r := FilteredNames(input);
    forall c | c in FilteredCategories ensures FilteredCategory(Some(r), c) == r[c] {
      if input.Some? && c in input.value {
        FilterIdempotent(NotEmptyPair, input.value[c]);
      }
    }
  }

  // ---------------------------------------------------------------------
  // filterEmptyArraysFromDiff

  /** The JSON values a settings diff carries. */
  datatype Json = JString(s: string) | JArray(items: seq<Json>) | JOther

  datatype PathKey = Prop(name: string) | Index(i: nat)

  /** A `microdiff` change. */
  datatype Difference =
    | Create(path: seq<PathKey>, value: Json)
    | Remove(path: seq<PathKey>, oldValue: Json)
    | Change(path: seq<PathKey>, value: Json, oldValue: Json)

  /** A `CREATE` whose value is an array with `''` at positions 0 and 1: the empty name pair an added row starts as. */
  predicate IsEmptyPairCreate(d: Difference)
  {
    d.Create? && d.value.JArray? && |d.value.items| >= 2 && d.value.items[0] == JString("") && d.value.items[1] == JString("")
  }

  predicate Keeps(d: Difference)
  {
    !IsEmptyPairCreate(d)
  }

  function FilterEmptyArraysFromDiff(diff: seq<Difference>): seq<Difference>
  {
    Filter(Keeps, diff)
  }

  /** Exactly the empty-pair creations are dropped, the rest keep their order, and filtering twice is filtering once. */
  lemma FilterEmptyArraysFromDiffProperties(diff: seq<Difference>, more: seq<Difference>)
    ensures forall d :: d in FilterEmptyArraysFromDiff(diff) ==> d in diff && !IsEmptyPairCreate(d)
    ensures forall d :: d in diff && !IsEmptyPairCreate(d) ==> d in FilterEmptyArraysFromDiff(diff)
    ensures FilterEmptyArraysFromDiff(diff + more) == FilterEmptyArraysFromDiff(diff) + FilterEmptyArraysFromDiff(more)
    ensures FilterEmptyArraysFromDiff(FilterEmptyArraysFromDiff(diff)) == FilterEmptyArraysFromDiff(diff)
  {
    FilterMembership(Keeps, diff);
    FilterConcat(Keeps, diff, more);
    FilterIdempotent(Keeps, diff);
  }
}
