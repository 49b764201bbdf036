/**
 * The three checks of the settings schema on the flattened list of name
 * entries: no two deadnames equal ignoring case, no entry mapping a name
 * to itself ignoring case, and no chosen name that is another entry's
 * deadname ignoring case.
 */
module Validations {
  import opened Chars
  import opened Names

  // ---------------------------------------------------------------------
  // validateNoDuplicateDeadnames

  /** `flatMap(({ mappings }) => mappings[0].toLowerCase())` */
  function LowerDeads(s: seq<NameEntry>): (r: seq<string>)
    ensures |r| == |s|
    ensures forall k :: 0 <= k < |s| ==> r[k] == Lower(s[k].dead)
  {
    if s == [] then [] else [Lower(s[0].dead)] + LowerDeads(s[1..])
  }

  /** `Array.prototype.indexOf`: the first position of `x`, or -1. */
  function IndexOf(s: seq<string>, x: string): (r: int)
    ensures r == -1 <==> x !in s
    ensures r != -1 ==> 0 <= r < |s| && s[r] == x && forall i :: 0 <= i < r ==> s[i] != x
  {
    if s == [] then -1
    else if s[0] == x then 0
    else
      var k := IndexOf(s[1..], x);
      if k < 0 then -1 else k + 1
  }

  /** `filter((item, index) => nameTuples.indexOf(item) !== index)`, from position `from` on. */
  function DuplicatesFrom(s: seq<string>, from: nat): seq<string>
    decreases |s| - from
  {
    if from >= |s| then []
    else (if IndexOf(s, s[from]) != from then [s[from]] else []) + DuplicatesFrom(s, from + 1)
  }

  function ValidateNoDuplicateDeadnames(n: Names): bool
  {
    |DuplicatesFrom(LowerDeads(Flat(n)), 0)| == 0
  }

  /** No two entries, at different positions, have deadnames equal after lower-casing. */
  predicate DistinctDeadnames(s: seq<NameEntry>)
  {
    forall i, j :: 0 <= i < |s| && 0 <= j < |s| && i != j ==> Lower(s[i].dead) != Lower(s[j].dead)
  }

  /** No duplicate is collected from `from` on iff every item from there on is its first occurrence. */
  lemma {:induction false} DuplicatesFromEmpty(s: seq<string>, from: nat)
    decreases |s| - from
    ensures DuplicatesFrom(s, from) == [] <==> forall j :: from <= j < |s| ==> IndexOf(s, s[j]) == j
  {
    if from < |s| {
      DuplicatesFromEmpty(s, from + 1);
      var head := if IndexOf(s, s[from]) != from then [s[from]] else [];
      assert DuplicatesFrom(s, from) == head + DuplicatesFrom(s, from + 1);
      assert DuplicatesFrom(s, from) == [] <==> head == [] && DuplicatesFrom(s, from + 1) == [];
    }
  }

  lemma NoDuplicateDeadnamesMeaning(n: Names)
    ensures ValidateNoDuplicateDeadnames(n) <==> DistinctDeadnames(Flat(n))
  {
    var s := Flat(n);
    var keys := LowerDeads(s);
    DuplicatesFromEmpty(keys, 0);
    if ValidateNoDuplicateDeadnames(n) {
      forall i, j | 0 <= i < |s| && 0 <= j < |s| && i != j ensures Lower(s[i].dead) != Lower(s[j].dead) {
        if i < j {
          assert IndexOf(keys, keys[j]) == j;
        } else {
          assert IndexOf(keys, keys[i]) == i;
        }
      }
    }
    if DistinctDeadnames(s) {
      forall j | 0 <= j < |keys| ensures IndexOf(keys, keys[j]) == j {
        var k := IndexOf(keys, keys[j]);
        assert keys[k] == keys[j];
      }
    }
  }

  // ---------------------------------------------------------------------
  // validateNoSelfMappings

  /** `filter(item => item[0].toLowerCase() === item[1].toLowerCase())` */
  function SelfMappingsOf(s: seq<NameEntry>): seq<NameEntry>
  {
    if s == [] then []
    else (if Lower(s[0].dead) == Lower(s[0].chosen) then [s[0]] else []) + SelfMappingsOf(s[1..])
  }

  function ValidateNoSelfMappings(n: Names): bool
  {
    |SelfMappingsOf(Flat(n))| == 0
  }

  /** No entry whose two names are equal after lower-casing. */
  predicate NoSelfMapping(s: seq<NameEntry>)
  {
    forall e :: e in s ==> Lower(e.dead) != Lower(e.chosen)
  }

  lemma {:induction false} SelfMappingsOfEmpty(s: seq<NameEntry>)
    ensures SelfMappingsOf(s) == [] <==> NoSelfMapping(s)
  {
    if s != [] {
      SelfMappingsOfEmpty(s[1..]);
      assert forall e :: e in s <==> e == s[0] || e in s[1..];
    }
  }

  lemma NoSelfMappingsMeaning(n: Names)
    ensures ValidateNoSelfMappings(n) <==> NoSelfMapping(Flat(n))
  {
    SelfMappingsOfEmpty(Flat(n));
  }

  // ---------------------------------------------------------------------
  // validateNoRecursiveMappings

  /** The inner `nameEntries.some((other, j) => i !== j && ...)`, from `j` on. */
  function SomeOther(s: seq<NameEntry>, i: nat, j: nat): bool
    requires i < |s|
    decreases |s| - j
  {
    j < |s| && ((i != j && Lower(s[i].chosen) == Lower(s[j].dead)) || SomeOther(s, i, j + 1))
  }

  /** The outer `nameEntries.some((entry, i) => ...)`, from `i` on. */
  function SomeEntry(s: seq<NameEntry>, i: nat): bool
    decreases |s| - i
  {
    i < |s| && (SomeOther(s, i, 0) || SomeEntry(s, i + 1))
  }

  function ValidateNoRecursiveMappings(n: Names): bool
  {
    !SomeEntry(Flat(n), 0)
  }

  /** No entry's chosen name is, ignoring case, the deadname of an entry at another position. */
  predicate NoRecursion(s: seq<NameEntry>)
  {
    forall i, j :: 0 <= i < |s| && 0 <= j < |s| && i != j ==> Lower(s[i].chosen) != Lower(s[j].dead)
  }

  lemma {:induction false} SomeOtherMeaning(s: seq<NameEntry>, i: nat, j: nat)
    requires i < |s|
    decreases |s| - j
    ensures SomeOther(s, i, j) <==> exists k :: j <= k < |s| && i != k && Lower(s[i].chosen) == Lower(s[k].dead)
  {
    if j < |s| {
      SomeOtherMeaning(s, i, j + 1);
    }
  }

  lemma {:induction false} SomeEntryMeaning(s: seq<NameEntry>, i: nat)
    decreases |s| - i
    ensures SomeEntry(s, i) <==> exists a, k :: i <= a < |s| && 0 <= k < |s| && a != k && Lower(s[a].chosen) == Lower(s[k].dead)
  {
    if i < |s| {
      SomeOtherMeaning(s, i, 0);
      SomeEntryMeaning(s, i + 1);
    }
  }

  lemma NoRecursiveMappingsMeaning(n: Names)
    ensures ValidateNoRecursiveMappings(n) <==> NoRecursion(Flat(n))
  {
    SomeEntryMeaning(Flat(n), 0);
  }

  // ---------------------------------------------------------------------
  // Order, categories and removal

  /** With no entries at all, every check passes. */
  lemma ValidatorsAcceptEmpty()
    ensures ValidateNoDuplicateDeadnames(Names([], [], []))
    ensures ValidateNoSelfMappings(Names([], [], []))
    ensures ValidateNoRecursiveMappings(Names([], [], []))
  {
    NoDuplicateDeadnamesMeaning(Names([], [], []));
    NoSelfMappingsMeaning(Names([], [], []));
    NoRecursiveMappingsMeaning(Names([], [], []));
  }

  /** Two equal values at different positions count twice. */
  lemma CountTwoFromIndices(s: seq<NameEntry>, i: nat, j: nat)
    requires i < |s| && j < |s| && i != j && s[i] == s[j]
    ensures multiset(s)[s[i]] >= 2
  {
    var lo, hi := if i < j then i else j, if i < j then j else i;
    assert s == s[..hi] + [s[hi]] + s[hi + 1..];
    assert s[..hi][lo] == s[lo];
    assert s[lo] in multiset(s[..hi]);
  }

  /** A value counted twice sits at two different positions. */
  lemma {:induction false} IndicesFromCountTwo(s: seq<NameEntry>, x: NameEntry)
    requires multiset(s)[x] >= 2
    ensures exists i, j :: 0 <= i < |s| && 0 <= j < |s| && i != j && s[i] == x && s[j] == x
  {
    assert s == [s[0]] + s[1..];
    if s[0] == x {
      assert x in multiset(s[1..]);
      var k :| 0 <= k < |s[1..]| && s[1..][k] == x;
      assert s[k + 1] == x;
    } else {
      IndicesFromCountTwo(s[1..], x);
      var i, j :| 0 <= i < |s[1..]| && 0 <= j < |s[1..]| && i != j && s[1..][i] == x && s[1..][j] == x;
      assert s[i + 1] == x && s[j + 1] == x;
    }
  }

  /** Two positions of a sub-multiset come from two positions of the larger list. */
  lemma PairFrom(a: seq<NameEntry>, b: seq<NameEntry>, i: nat, j: nat)
    requires multiset(b) <= multiset(a)
    requires i < |b| && j < |b| && i != j
    ensures exists x, y :: 0 <= x < |a| && 0 <= y < |a| && x != y && a[x] == b[i] && a[y] == b[j]
  {
    if b[i] == b[j] {
      CountTwoFromIndices(b, i, j);
      IndicesFromCountTwo(a, b[i]);
    } else {
      assert b[i] in multiset(a) && b[j] in multiset(a);
      var x :| 0 <= x < |a| && a[x] == b[i];
      var y :| 0 <= y < |a| && a[y] == b[j];
    }
  }

  lemma DistinctDeadnamesKept(a: seq<NameEntry>, b: seq<NameEntry>)
    requires multiset(b) <= multiset(a) && DistinctDeadnames(a)
    ensures DistinctDeadnames(b)
  {
    forall i, j | 0 <= i < |b| && 0 <= j < |b| && i != j ensures Lower(b[i].dead) != Lower(b[j].dead) {
      PairFrom(a, b, i, j);
    }
  }

  lemma NoSelfMappingKept(a: seq<NameEntry>, b: seq<NameEntry>)
    requires multiset(b) <= multiset(a) && NoSelfMapping(a)
    ensures NoSelfMapping(b)
  {
    forall e | e in b ensures Lower(e.dead) != Lower(e.chosen) {
      assert e in multiset(b);
    }
  }

  lemma NoRecursionKept(a: seq<NameEntry>, b: seq<NameEntry>)
    requires multiset(b) <= multiset(a) && NoRecursion(a)
    ensures NoRecursion(b)
  {
    forall i, j | 0 <= i < |b| && 0 <= j < |b| && i != j ensures Lower(b[i].chosen) != Lower(b[j].dead) {
      PairFrom(a, b, i, j);
    }
  }

  /**
   * Each check only looks for an offending entry or pair, so dropping
   * entries, reordering them or moving them between categories never
   * turns a pass into a failure.
   */
  lemma ValidatorsKeepUnderRemoval(na: Names, nb: Names)
    requires multiset(Flat(nb)) <= multiset(Flat(na))
    ensures ValidateNoDuplicateDeadnames(na) ==> ValidateNoDuplicateDeadnames(nb)
    ensures ValidateNoSelfMappings(na) ==> ValidateNoSelfMappings(nb)
    ensures ValidateNoRecursiveMappings(na) ==> ValidateNoRecursiveMappings(nb)
  {
    NoDuplicateDeadnamesMeaning(na);
    NoDuplicateDeadnamesMeaning(nb);
    NoSelfMappingsMeaning(na);
    NoSelfMappingsMeaning(nb);
    NoRecursiveMappingsMeaning(na);
    NoRecursiveMappingsMeaning(nb);
    if DistinctDeadnames(Flat(na)) { DistinctDeadnamesKept(Flat(na), Flat(nb)); }
    if NoSelfMapping(Flat(na)) { NoSelfMappingKept(Flat(na), Flat(nb)); }
    if NoRecursion(Flat(na)) { NoRecursionKept(Flat(na), Flat(nb)); }
  }

  /** The checks depend only on the multiset of entries: order and category do not matter. */
  lemma ValidatorsIgnoreOrder(na: Names, nb: Names)
    requires multiset(Flat(nb)) == multiset(Flat(na))
    ensures ValidateNoDuplicateDeadnames(na) == ValidateNoDuplicateDeadnames(nb)
    ensures ValidateNoSelfMappings(na) == ValidateNoSelfMappings(nb)
    ensures ValidateNoRecursiveMappings(na) == ValidateNoRecursiveMappings(nb)
  {
    ValidatorsKeepUnderRemoval(na, nb);
    ValidatorsKeepUnderRemoval(nb, na);
  }
}
