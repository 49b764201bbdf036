/** `Array.prototype.filter` and the facts about it the model uses. */
module Seqs {
  /** The elements of `s` that satisfy `p`, in order. */
  function Filter<T>(p: T -> bool, s: seq<T>): seq<T>
  {
    if s == [] then [] else (if p(s[0]) then [s[0]] else []) + Filter(p, s[1..])
  }

  /** An element survives iff it is in the input and passes the test; the result is no longer than the input. */
  lemma {:induction false} FilterMembership<T>(p: T -> bool, s: seq<T>)
    ensures forall x :: x in Filter(p, s) ==> x in s && p(x)
    ensures forall x :: x in s && p(x) ==> x in Filter(p, s)
    ensures |Filter(p, s)| <= |s|
  {
    if s != [] {
      FilterMembership(p, s[1..]);
      var head := if p(s[0]) then [s[0]] else [];
      assert Filter(p, s) == head + Filter(p, s[1..]);
      assert forall x :: x in s <==> x == s[0] || x in s[1..];
    }
  }

  /** Filtering a concatenation filters each part: the survivors keep their order. */
  lemma {:induction false} FilterConcat<T>(p: T -> bool, a: seq<T>, b: seq<T>)
    ensures Filter(p, a + b) == Filter(p, a) + Filter(p, b)
  {
    if a != [] {
      assert (a + b)[1..] == a[1..] + b;
      FilterConcat(p, a[1..], b);
    } else {
      assert a + b == b;
    }
  }

  /** A list whose every element passes is returned whole. */
  lemma {:induction false} FilterKeepsAll<T>(p: T -> bool, s: seq<T>)
    requires forall k :: 0 <= k < |s| ==> p(s[k])
    ensures Filter(p, s) == s
  {
    if s != [] {
      assert forall k :: 0 <= k < |s[1..]| ==> s[1..][k] == s[k + 1];
      FilterKeepsAll(p, s[1..]);
      assert s == [s[0]] + s[1..];
    }
  }

  /** Filtering twice with the same test is filtering once. */
  lemma FilterIdempotent<T>(p: T -> bool, s: seq<T>)
    ensures Filter(p, Filter(p, s)) == Filter(p, s)
  {
    FilterMembership(p, s);
    var r := Filter(p, s);
    forall k | 0 <= k < |r| ensures p(r[k]) {
      var x := r[k];
      assert x in r;
    }
    FilterKeepsAll(p, r);
  }

  /** The prefix one longer is the prefix and the next element. */
  lemma TakeNext<T>(s: seq<T>, k: nat)
    requires k < |s|
    ensures s[..k + 1] == s[..k] + [s[k]]
  {
  }

  /** A sequence is what lies before position `i`, the element there, and what follows. */
  lemma SplitAt<T>(s: seq<T>, i: nat)
    requires i < |s|
    ensures s == s[..i] + [s[i]] + s[i + 1..]
  {
  }

  /**
   * Replacing the element just after `pre + out` by `em` in `pre + out + rest`
   * moves `em` to the end of `out` and drops the first element of `rest`.
   */
  lemma ReplaceNext<T>(pre: seq<T>, out: seq<T>, rest: seq<T>, em: seq<T>)
    requires rest != []
    ensures var s := pre + out + rest;
      s[|pre| + |out|] == rest[0] &&
      s[..|pre| + |out|] + em + s[|pre| + |out| + 1..] == pre + (out + em) + rest[1..]
  {
    var s := pre + out + rest;
    assert s[..|pre| + |out|] == pre + out;
    assert s[|pre| + |out| + 1..] == rest[1..];
  }

  /** Dropping the first element of the suffix from `i` leaves the suffix from `i + 1`. */
  lemma DropNext<T>(s: seq<T>, i: nat)
    requires i < |s|
    ensures s[i..] != [] && s[i..][0] == s[i] && s[i..][1..] == s[i + 1..]
  {
  }

  /** The head and the tail of a concatenation with a non-empty front. */
  lemma ConcatFront<T>(a: seq<T>, b: seq<T>)
    requires a != []
    ensures (a + b)[0] == a[0] && (a + b)[1..] == a[1..] + b
  {
  }

  lemma ConcatEmpty<T>(a: seq<T>, b: seq<T>)
    requires a == []
    ensures a + b == b
  {
  }

  lemma ConcatAssoc<T>(a: seq<T>, b: seq<T>, c: seq<T>)
    ensures a + b + c == a + (b + c)
  {
  }

  /** The next element of `input` in `pre + out + input[i..]` replaced by `em` joins `out`. */
  lemma SpliceStep<T>(pre: seq<T>, out: seq<T>, input: seq<T>, i: nat, em: seq<T>, before: seq<T>, after: seq<T>)
    requires i < |input| && before == pre + out + input[i..]
    requires after == before[..|pre| + |out|] + em + before[|pre| + |out| + 1..]
    ensures |pre| + |out| < |before| && before[|pre| + |out|] == input[i]
    ensures after == pre + (out + em) + input[i + 1..]
  {
    ReplaceNext(pre, out, input[i..], em);
    DropNext(input, i);
  }
}
