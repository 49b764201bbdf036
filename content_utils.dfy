/**
 * The content script's helpers that feed the text processor: the rule
 * list built from the name configuration, and the `dataset` key under
 * which an attribute's original value is cached.
 */
module ContentUtils {
  import opened Chars
  import opened Dom
  import opened Names
  import opened TextMatching
  import opened Utils
  import opened Seqs

  /** `kebabToCamel(`deadname-${attr}`)` */
  function GetDataKey(attr: string): string
  {
    KebabToCamel("deadname-" + attr)
  }

  /** A prefix without `-` passes through the conversion unchanged. */
  lemma {:induction false} KebabToCamelPlainPrefix(p: string, s: string)
    requires forall k :: 0 <= k < |p| ==> p[k] != '-'
    ensures KebabToCamel(p + s) == p + KebabToCamel(s)
  {
    if p != [] {
      assert (p + s)[0] == p[0] && (p + s)[1..] == p[1..] + s;
      KebabToCamelPlainPrefix(p[1..], s);
    } else {
      assert p + s == s;
    }
  }

  /** `dataset` names each character on its own, so the conversion distributes over concatenation. */
  lemma {:induction false} CamelToKebabConcat(a: string, b: string)
    ensures CamelToKebab(a + b) == CamelToKebab(a) + CamelToKebab(b)
  {
    if a != [] {
      assert (a + b)[0] == a[0] && (a + b)[1..] == a[1..] + b;
      CamelToKebabConcat(a[1..], b);
    } else {
      assert a + b == b;
    }
  }

  /** A name without upper-case letters is its own attribute name. */
  lemma {:induction false} CamelToKebabPlain(p: string)
    requires forall k :: 0 <= k < |p| ==> !IsAsciiUpper(p[k])
    ensures CamelToKebab(p) == p
  {
    if p != [] {
      assert forall k :: 0 <= k < |p[1..]| ==> p[1..][k] == p[k + 1];
      CamelToKebabPlain(p[1..]);
      assert p == [p[0]] + p[1..];
    }
  }

  /** Conversion of `p-attr` for a plain prefix `p`: the prefix stays and the first letter of `attr` is upper-cased. */
  lemma PrefixedKeyShape(p: string, attr: string)
    requires forall k :: 0 <= k < |p| ==> p[k] != '-'
    requires attr != [] && IsAsciiLower(attr[0])
    ensures KebabToCamel(p + ['-'] + attr) == p + [UpperChar(attr[0])] + KebabToCamel(attr[1..])
  {
    assert p + ['-'] + attr == p + (['-'] + attr);
    KebabToCamelPlainPrefix(p, ['-'] + attr);
    assert (['-'] + attr)[1] == attr[0] && (['-'] + attr)[2..] == attr[1..];
  }

  /** `dataset` undoes the conversion of `p-attr` for a plain prefix and a kebab-case `attr`. */
  lemma PrefixedKeyRoundTrip(p: string, attr: string)
    requires forall k :: 0 <= k < |p| ==> p[k] != '-' && !IsAsciiUpper(p[k])
    requires attr != [] && IsAsciiLower(attr[0]) && IsKebab(attr)
    ensures CamelToKebab(KebabToCamel(p + ['-'] + attr)) == p + ['-'] + attr
  {
    var u := UpperChar(attr[0]);
    var rest := KebabToCamel(attr[1..]);
    assert CamelToKebab([u]) == ['-', attr[0]] by {
      CaseLaws(attr[0]);
      assert [u][1..] == [];
    }
    calc {
      CamelToKebab(KebabToCamel(p + ['-'] + attr));
      { PrefixedKeyShape(p, attr); }
      CamelToKebab(p + [u] + rest);
      { CamelToKebabConcat(p + [u], rest); }
      CamelToKebab(p + [u]) + CamelToKebab(rest);
      { CamelToKebabConcat(p, [u]); CamelToKebabPlain(p); }
      p + ['-', attr[0]] + CamelToKebab(rest);
      { KebabRoundTrip(attr[1..]); }
      p + ['-', attr[0]] + attr[1..];
      { assert attr == [attr[0]] + attr[1..]; }
      p + ['-'] + attr;
    }
  }

  /** The key is `deadname`, the first letter of the attribute upper-cased, and the rest converted. */
  lemma GetDataKeyShape(attr: string)
    requires attr != [] && IsAsciiLower(attr[0])
    ensures GetDataKey(attr) == "deadname" + [UpperChar(attr[0])] + KebabToCamel(attr[1..])
  {
    assert "deadname-" + attr == "deadname" + ['-'] + attr;
    PrefixedKeyShape("deadname", attr);
  }

  lemma GetDataKeyAlt()
    ensures GetDataKey("alt") == "deadnameAlt"
  {
    GetDataKeyShape("alt");
    KebabToCamelLength("lt");
  }

  /**
   * For a kebab-case attribute that starts with a lower-case letter, the
   * key names the attribute `data-deadname-<attr>`: the element `revert`
   * selects is the one `processElementNode` wrote.
   */
  lemma DataKeyNamesAttribute(attr: string)
    requires attr != [] && IsAsciiLower(attr[0]) && IsKebab(attr)
    ensures DatasetAttribute(GetDataKey(attr)) == "data-deadname-" + attr
  {
    DeadnamePlain();
    PrefixedDataAttribute("deadname", attr);
    DeadnameJoin(attr);
  }

  /** The `dataset` attribute of the key converted from `p-attr` is `data-p-attr`. */
  lemma PrefixedDataAttribute(p: string, attr: string)
    requires forall k :: 0 <= k < |p| ==> p[k] != '-' && !IsAsciiUpper(p[k])
    requires attr != [] && IsAsciiLower(attr[0]) && IsKebab(attr)
    ensures DatasetAttribute(KebabToCamel(p + ['-'] + attr)) == "data-" + p + ['-'] + attr
  {
    PrefixedKeyRoundTrip(p, attr);
    ConcatAssoc("data-", p + ['-'], attr);
    ConcatAssoc("data-", p, ['-']);
  }

  lemma DeadnameJoin(attr: string)
    ensures "deadname" + ['-'] + attr == "deadname-" + attr
    ensures "data-" + "deadname" + ['-'] + attr == "data-deadname-" + attr
  {
    ConcatAssoc("data-", "deadname", ['-']);
    ConcatAssoc("data-" + "deadname", ['-'], attr);
    assert "data-" + "deadname" + ['-'] == "data-deadname-";
  }

  lemma DeadnamePlain()
    ensures forall k :: 0 <= k < |"deadname"| ==> "deadname"[k] != '-' && !IsAsciiUpper("deadname"[k])
  {
  }

  // ---------------------------------------------------------------------
  // createReplacementsMap

  /** `replacements.set(createReplacementPattern(mappings[0]), mappings[1])` for each entry: the rule stands for the pattern and its replacement. */
  function RulesOf(entries: seq<NameEntry>): (r: seq<Rule>)
    ensures |r| == |entries|
  {
    if entries == [] then []
    else RulesOf(entries[..|entries| - 1]) + [Rule(entries[|entries| - 1].dead, entries[|entries| - 1].chosen)]
  }

  /** One rule per entry, in category order then list order, with the entry's deadname and chosen name. */
  lemma {:induction false} RulesOfMeaning(entries: seq<NameEntry>)
    ensures forall k :: 0 <= k < |entries| ==> RulesOf(entries)[k] == Rule(entries[k].dead, entries[k].chosen)
  {
    if entries != [] {
      var init := entries[..|entries| - 1];
      RulesOfMeaning(init);
      assert forall k :: 0 <= k < |init| ==> entries[k] == init[k];
    }
  }

  /** Entries with non-empty deadnames, as the schema guarantees, give rules the matcher accepts. */
  lemma RulesOfValid(entries: seq<NameEntry>)
    requires NonEmptyEntries(entries)
    ensures ValidRules(RulesOf(entries))
  {
    RulesOfMeaning(entries);
  }

  lemma RulesOfConcat(a: seq<NameEntry>, b: seq<NameEntry>)
    ensures RulesOf(a + b) == RulesOf(a) + RulesOf(b)
  {
    RulesOfMeaning(a);
    RulesOfMeaning(b);
    RulesOfMeaning(a + b);
  }

  /**
   * Every key is a fresh `RegExp`, so no entry overwrites another: the map
   * holds one rule per entry, in insertion order.
   */
  method CreateReplacementsMap(names: Names) returns (rules: seq<Rule>)
    ensures rules == RulesOf(Flat(names))
  {
    rules := [];
    ghost var done: seq<NameEntry> := [];
    for k := 0 to 3
      invariant done == (if k == 0 then [] else if k == 1 then names.first else if k == 2 then names.first + names.middle else Flat(names))
      invariant rules == RulesOf(done)
    {
      var nameArray := Get(names, Categories[k]);
      rules := AddEntries(rules, done, nameArray);
      done := done + nameArray;
    }
  }

  /** The inner loop of `createReplacementsMap`: one rule per entry of one category, appended in order. */
  method AddEntries(rules0: seq<Rule>, ghost done: seq<NameEntry>, nameArray: seq<NameEntry>) returns (rules: seq<Rule>)
    requires rules0 == RulesOf(done)
    ensures rules == RulesOf(done + nameArray)
  {
    rules := rules0;
    assert done + nameArray[..0] == done;
    for i := 0 to |nameArray|
      invariant rules == RulesOf(done + nameArray[..i])
    {
      RulesOfNext(done, nameArray, i);
      rules := rules + [Rule(nameArray[i].dead, nameArray[i].chosen)];
    }
    assert nameArray[..|nameArray|] == nameArray;
  }

  lemma RulesOfNext(done: seq<NameEntry>, a: seq<NameEntry>, i: nat)
    requires i < |a|
    ensures RulesOf(done + a[..i + 1]) == RulesOf(done + a[..i]) + [Rule(a[i].dead, a[i].chosen)]
  {
    var s := done + a[..i + 1];
    assert s[..|s| - 1] == done + a[..i] && s[|s| - 1] == a[i];
  }
}
