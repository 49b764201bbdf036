/**
 * The part of the DOM the text processor reads and writes.
 *
 * A document is a sequence of tokens in tree order: an element opens, its
 * children follow, and it closes. A `NodeIterator` is a position in that
 * sequence, and `replaceChild` of a text node by a fragment is a splice.
 * Attribute names are stored lower-case, as HTML stores them.
 */
module Dom {
  import opened Chars

  datatype Element = Element(id: nat, tag: string, attrs: map<string, string>)

  datatype Token = Open(e: Element) | Close | Text(s: string)

  /** The elements open just after `ts`, outermost first: the ancestors of the next node. */
  function OpenStack(ts: seq<Token>): seq<Element>
  {
    if ts == [] then []
    else
      var st := OpenStack(ts[..|ts| - 1]);
      match ts[|ts| - 1]
      case Open(e) => st + [e]
      case Close => if st == [] then [] else st[..|st| - 1]
      case Text(_) => st
  }

  // ---------------------------------------------------------------------
  // `shouldProcessElement` and `shouldProcessText`

  /** `tagName.toLowerCase()` is none of `script`, `style`, `noscript`, `template`. */
  predicate ShouldProcessElement(e: Element)
  {
    var t := Lower(e.tag);
    !(t == "script" || t == "style" || t == "noscript" || t == "template")
  }

  /** The form elements whose text is never touched. */
  predicate IsFormTag(t: string)
  {
    t in ["datalist", "fieldset", "form", "input", "optgroup", "option", "select", "textarea"]
  }

  /** The table of attributes that mark editable content, in the source's order, with the lower-case values that exclude. */
  const ExclusionTable: seq<(string, seq<string>)> := [
    ("contenteditable", ["true"]),
    ("role", ["checkbox", "input", "option", "searchbox", "select", "slider", "spinbutton", "switch", "textbox"]),
    ("spellcheck", ["true"]),
    ("aria-autocomplete", ["true"]),
    ("aria-multiline", ["true"]),
    ("aria-readonly", ["false"]),
    ("aria-disabled", ["false"]),
    ("data-editable", ["true"])
  ]

  /** The element carries the attribute of this entry with one of its values, compared lower-cased. */
  predicate EntryHits(e: Element, entry: (string, seq<string>))
  {
    entry.0 in e.attrs && Lower(e.attrs[entry.0]) in entry.1
  }

  /** Some entry of `table` hits the element. */
  predicate ExcludedBy(e: Element, table: seq<(string, seq<string>)>)
  {
    table != [] && (EntryHits(e, table[0]) || ExcludedBy(e, table[1..]))
  }

  /** An ancestor that keeps its text from being processed. */
  predicate BlocksText(e: Element)
  {
    IsFormTag(Lower(e.tag)) || !ShouldProcessElement(e) || ExcludedBy(e, ExclusionTable)
  }

  /** No ancestor, from the innermost (last) out, blocks the text. */
  predicate TextAllowed(ancestors: seq<Element>)
  {
    ancestors == [] || (!BlocksText(ancestors[|ancestors| - 1]) && TextAllowed(ancestors[..|ancestors| - 1]))
  }

  /** A text is processed iff none of its ancestors blocks it. */
  lemma {:induction false} TextAllowedMeaning(ancestors: seq<Element>)
    ensures TextAllowed(ancestors) <==> forall k :: 0 <= k < |ancestors| ==> !BlocksText(ancestors[k])
  {
    if ancestors != [] {
      var init := ancestors[..|ancestors| - 1];
      TextAllowedMeaning(init);
      if TextAllowed(ancestors) {
        forall k | 0 <= k < |ancestors| ensures !BlocksText(ancestors[k]) {
          if k < |init| { assert ancestors[k] == init[k]; }
        }
      }
      if forall k :: 0 <= k < |ancestors| ==> !BlocksText(ancestors[k]) {
        forall k | 0 <= k < |init| ensures !BlocksText(init[k]) {
          assert init[k] == ancestors[k];
        }
      }
    }
  }

  /** An entry hits iff the element has that attribute with one of the entry's values. */
  lemma {:induction false} ExcludedByMeaning(e: Element, table: seq<(string, seq<string>)>)
    ensures ExcludedBy(e, table) <==> exists k :: 0 <= k < |table| && EntryHits(e, table[k])
  {
    if table != [] {
      ExcludedByMeaning(e, table[1..]);
      if ExcludedBy(e, table[1..]) {
        var k :| 0 <= k < |table[1..]| && EntryHits(e, table[1..][k]);
        assert table[k + 1] == table[1..][k];
      }
      if exists k :: 0 <= k < |table| && EntryHits(e, table[k]) {
        var k :| 0 <= k < |table| && EntryHits(e, table[k]);
        if k > 0 { assert table[1..][k - 1] == table[k]; }
      }
    }
  }

  /**
   * Two elements that agree on their tag and on every attribute of the
   * exclusion table agree on whether they block text.
   */
  lemma {:induction false} BlocksTextDependsOnTable(e: Element, f: Element, table: seq<(string, seq<string>)>)
    requires e.tag == f.tag
    requires forall k :: 0 <= k < |table| ==> (table[k].0 in e.attrs <==> table[k].0 in f.attrs)
    requires forall k :: 0 <= k < |table| && table[k].0 in e.attrs ==> e.attrs[table[k].0] == f.attrs[table[k].0]
    ensures ExcludedBy(e, table) == ExcludedBy(f, table)
  {
    if table != [] {
      assert forall k :: 0 <= k < |table[1..]| ==> table[1..][k] == table[k + 1];
      BlocksTextDependsOnTable(e, f, table[1..]);
      assert table[0].0 in e.attrs <==> table[0].0 in f.attrs;
    }
  }

  // ---------------------------------------------------------------------
  // `dataset`

  /** An ASCII upper-case letter becomes `-` and its lower-case form, as `dataset` names its attributes. */
  function CamelToKebab(key: string): string
  {
    if key == [] then []
    else (if IsAsciiUpper(key[0]) then ['-', LowerChar(key[0])] else [key[0]]) + CamelToKebab(key[1..])
  }

  /** The attribute behind `element.dataset[key]`. */
  function DatasetAttribute(key: string): string
  {
    "data-" + CamelToKebab(key)
  }

  // ---------------------------------------------------------------------
  // `mark[deadname]`

  /** `tagName.toLowerCase() === 'mark' && hasAttribute('deadname')`, the test of the walk and of the `mark[deadname]` selector. */
  predicate IsDeadnameMark(e: Element)
  {
    Lower(e.tag) == "mark" && "deadname" in e.attrs
  }

  /** The element `replaceTextInNode` creates: `<mark deadname data-original="...">`. */
  function MarkElement(id: nat, original: string): Element
  {
    Element(id, "mark", map["deadname" := "", "data-original" := original])
  }

  /** `mark` is its own lower-case form. */
  lemma LowerMark()
    ensures Lower("mark") == "mark"
  {
    assert Lower("mark") == [LowerChar('m')] + Lower("ark");
    assert Lower("ark") == [LowerChar('a')] + Lower("rk");
    assert Lower("rk") == [LowerChar('r')] + Lower("k");
  }

  /** The created element is a `mark[deadname]` that the walk visits. */
  lemma MarkElementIsDeadnameMark(id: nat, original: string)
    ensures IsDeadnameMark(MarkElement(id, original))
    ensures ShouldProcessElement(MarkElement(id, original))
    ensures MarkElement(id, original).attrs["data-original"] == original
  {
    LowerMark();
  }

  /** `markElement.dataset.original` is the attribute `data-original`. */
  lemma DatasetOriginal()
    ensures DatasetAttribute("original") == "data-original"
  {
    assert CamelToKebab("original") == "original";
  }
}
