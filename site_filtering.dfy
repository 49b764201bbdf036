/**
 * The site scope resolver: decides from the allow list, the block list and
 * the default mode whether names are replaced on the page being visited.
 *
 * A site is the page's hostname, less one leading `www.`, followed by its
 * pathname. A list entry is either a literal pattern, matched with a
 * boundary check, or a pattern containing `*`, compiled to an anchored
 * regular expression in which each `*` stands for a run of characters other
 * than the URL separators `/`, `?` and `#`.
 */
module SiteFiltering {
  import opened Wrappers

  /** The separators that may follow a matched prefix: path, query, fragment. */
  predicate IsBoundary(c: char) { c == '/' || c == '?' || c == '#' }

  // ---------------------------------------------------------------------
  // Literal patterns

  /** `matchesExactPattern` */
  function MatchesExactPattern(pattern: string, site: string): bool
  {
    if pattern == site then true
    else if !(|pattern| <= |site| && site[..|pattern|] == pattern) then false
    else
      // `site[pattern.length]` is undefined past the end of the site
      var nextChar := if |pattern| < |site| then Some(site[|pattern|]) else None;
      nextChar.None? || IsBoundary(nextChar.value)
  }

  /** A literal pattern matches the whole site, or a prefix of it that ends right before a separator. */
  lemma ExactPatternMeaning(pattern: string, site: string)
    ensures MatchesExactPattern(pattern, site) <==>
      (site == pattern || (|pattern| < |site| && site[..|pattern|] == pattern && IsBoundary(site[|pattern|])))
  {
  }

  // ---------------------------------------------------------------------
  // Wildcard patterns

  /**
   * One element of the regular expression built from a wildcard pattern:
   * an escaped literal character, or `[^/?#]*` for a `*`.
   */
  datatype GlobAtom = Literal(c: char) | AnyRun

  /**
   * The escaping step of `matchesWildcardPattern`: every regular-expression
   * metacharacter is escaped, so every character other than `*` stands for
   * itself, and every `*` becomes `[^/?#]*`.
   */
  function CompileWildcard(pattern: string): (atoms: seq<GlobAtom>)
    ensures |atoms| == |pattern|
    ensures forall i :: 0 <= i < |pattern| ==>
      atoms[i] == if pattern[i] == '*' then AnyRun else Literal(pattern[i])
  {
    if pattern == [] then []
    else [if pattern[0] == '*' then AnyRun else Literal(pattern[0])] + CompileWildcard(pattern[1..])
  }

  /**
   * A backtracking matcher for `^atoms(?:[/?#]|$)` tested against `s`:
   * the atoms match a prefix of `s` that is the whole of `s` or is followed
   * by a separator.
   */
  function GlobMatch(atoms: seq<GlobAtom>, s: string): bool
    decreases |atoms| + |s|
  {
    if atoms == [] then s == [] || IsBoundary(s[0])
    else match atoms[0]
      case Literal(c) => s != [] && s[0] == c && GlobMatch(atoms[1..], s[1..])
      case AnyRun =>
        GlobMatch(atoms[1..], s) || (s != [] && !IsBoundary(s[0]) && GlobMatch(atoms, s[1..]))
  }

  /** `matchesWildcardPattern` */
  function MatchesWildcardPattern(pattern: string, site: string): bool
  {
    GlobMatch(CompileWildcard(pattern), site)
  }

  /** `matchesPattern`: a pattern containing `*` anywhere is a wildcard pattern. */
  function MatchesPattern(pattern: string, site: string): bool
  {
    if '*' in pattern then MatchesWildcardPattern(pattern, site)
    else MatchesExactPattern(pattern, site)
  }

  // Reference semantics of a wildcard pattern, independent of the matcher:
  // choose one filler string per `*`, none of them containing a separator,
  // and substitute them; the result must be an admissible prefix of the site.

  function StarCount(atoms: seq<GlobAtom>): nat
  {
    if atoms == [] then 0 else (if atoms[0] == AnyRun then 1 else 0) + StarCount(atoms[1..])
  }

  predicate NoBoundary(f: string) { forall i :: 0 <= i < |f| ==> !IsBoundary(f[i]) }

  predicate ValidFills(atoms: seq<GlobAtom>, fills: seq<string>)
  {
    |fills| == StarCount(atoms) && forall k :: 0 <= k < |fills| ==> NoBoundary(fills[k])
  }

  /** The string obtained by replacing the i-th `*` by `fills[i]`. */
  function Expand(atoms: seq<GlobAtom>, fills: seq<string>): string
    requires |fills| == StarCount(atoms)
  {
    if atoms == [] then []
    else match atoms[0]
      case Literal(c) => [c] + Expand(atoms[1..], fills)
      case AnyRun => fills[0] + Expand(atoms[1..], fills[1..])
  }

  /** `t` is a prefix of `s` that is all of `s` or is followed by a separator. */
  predicate Admissible(s: string, t: string)
  {
    |t| <= |s| && s[..|t|] == t && (|t| == |s| || IsBoundary(s[|t|]))
  }

  ghost predicate WildcardAccepts(atoms: seq<GlobAtom>, s: string)
  {
    exists fills :: ValidFills(atoms, fills) && Admissible(s, Expand(atoms, fills))
  }

  lemma {:induction false} GlobWitness(atoms: seq<GlobAtom>, s: string) returns (fills: seq<string>)
    requires GlobMatch(atoms, s)
    ensures ValidFills(atoms, fills) && Admissible(s, Expand(atoms, fills))
    decreases |atoms| + |s|
  {
    if atoms == [] {
      fills := [];
    } else {
      match atoms[0]
      case Literal(c) =>
        var rest := GlobWitness(atoms[1..], s[1..]);
        fills := rest;
        assert Expand(atoms, fills) == [c] + Expand(atoms[1..], rest);
        assert s == [s[0]] + s[1..];
      case AnyRun =>
        if GlobMatch(atoms[1..], s) {
          var rest := GlobWitness(atoms[1..], s);
          fills := [""] + rest;
          assert fills[1..] == rest;
          assert Expand(atoms, fills) == "" + Expand(atoms[1..], rest);
        } else {
          var longer := GlobWitness(atoms, s[1..]);
          fills := [[s[0]] + longer[0]] + longer[1..];
          assert fills[1..] == longer[1..];
          assert Expand(atoms, longer) == longer[0] + Expand(atoms[1..], longer[1..]);
          assert Expand(atoms, fills) == [s[0]] + Expand(atoms, longer);
          assert s == [s[0]] + s[1..];
          assert NoBoundary(fills[0]) by {
            forall i | 0 <= i < |fills[0]| ensures !IsBoundary(fills[0][i]) {
              if i > 0 { assert fills[0][i] == longer[0][i - 1]; }
            }
          }
        }
    }
  }

  lemma {:induction false} GlobFromFills(atoms: seq<GlobAtom>, s: string, fills: seq<string>)
    requires ValidFills(atoms, fills) && Admissible(s, Expand(atoms, fills))
    ensures GlobMatch(atoms, s)
    decreases |atoms| + |s|
  {
    if atoms == [] {
    } else {
      match atoms[0]
      case Literal(c) =>
        var t := Expand(atoms[1..], fills);
        assert Expand(atoms, fills) == [c] + t;
        assert s[1..][..|t|] == t;
        GlobFromFills(atoms[1..], s[1..], fills);
      case AnyRun =>
        var t := Expand(atoms[1..], fills[1..]);
        assert Expand(atoms, fills) == fills[0] + t;
        if fills[0] == "" {
          assert ValidFills(atoms[1..], fills[1..]);
          assert fills[0] + t == t;
          GlobFromFills(atoms[1..], s, fills[1..]);
        } else {
          var shorter := [fills[0][1..]] + fills[1..];
          assert shorter[1..] == fills[1..];
          assert Expand(atoms, shorter) == fills[0][1..] + t;
          assert fills[0] + t == [fills[0][0]] + (fills[0][1..] + t);
          assert ValidFills(atoms, shorter) by {
            assert NoBoundary(shorter[0]) by {
              forall i | 0 <= i < |shorter[0]| ensures !IsBoundary(shorter[0][i]) {
                assert shorter[0][i] == fills[0][i + 1];
              }
            }
          }
          var w := fills[0] + t;
          var u := fills[0][1..] + t;
          assert s[..|w|] == w;
          assert w == [fills[0][0]] + u;
          assert s[1..][..|u|] == s[..|w|][1..];
          assert s[0] == fills[0][0];
          GlobFromFills(atoms, s[1..], shorter);
        }
    }
  }

  /**
   * The matcher agrees with the reference semantics: literal characters
   * match themselves, each `*` matches a run of non-separators, the match
   * is anchored at the start and is followed by a separator or the end.
   */
  lemma WildcardMeaning(pattern: string, site: string)
    ensures MatchesWildcardPattern(pattern, site) <==> WildcardAccepts(CompileWildcard(pattern), site)
  {
    var atoms := CompileWildcard(pattern);
    if GlobMatch(atoms, site) {
      var fills := GlobWitness(atoms, site);
    }
    if WildcardAccepts(atoms, site) {
      var fills :| ValidFills(atoms, fills) && Admissible(site, Expand(atoms, fills));
      GlobFromFills(atoms, site, fills);
    }
  }

  /** Without a `*`, the wildcard matcher would agree with the literal one. */
  lemma {:induction false} StarFreeGlobIsExact(pattern: string, site: string)
    requires '*' !in pattern
    ensures MatchesWildcardPattern(pattern, site) == MatchesExactPattern(pattern, site)
  {
    var atoms := CompileWildcard(pattern);
    assert StarCount(atoms) == 0 by { StarFreeCount(pattern); }
    assert Expand(atoms, []) == pattern by { StarFreeExpand(pattern); }
    if GlobMatch(atoms, site) {
      var fills := GlobWitness(atoms, site);
      assert fills == [];
    }
    if MatchesExactPattern(pattern, site) {
      GlobFromFills(atoms, site, []);
    }
  }

  lemma {:induction false} StarFreeCount(pattern: string)
    requires '*' !in pattern
    ensures StarCount(CompileWildcard(pattern)) == 0
  {
    if pattern != [] {
      assert CompileWildcard(pattern)[1..] == CompileWildcard(pattern[1..]);
      assert '*' !in pattern[1..] by { assert forall c :: c in pattern[1..] ==> c in pattern; }
      StarFreeCount(pattern[1..]);
    }
  }

  lemma {:induction false} StarFreeExpand(pattern: string)
    requires '*' !in pattern
    ensures StarCount(CompileWildcard(pattern)) == 0
    ensures Expand(CompileWildcard(pattern), []) == pattern
  {
    StarFreeCount(pattern);
    if pattern != [] {
      var atoms := CompileWildcard(pattern);
      var tail := pattern[1..];
      assert atoms[1..] == CompileWildcard(tail) && '*' !in tail by {
        assert forall c :: c in tail ==> c in pattern;
      }
      StarFreeExpand(tail);
      ExpandLiteral(atoms, pattern[0]);
      assert pattern == [pattern[0]] + tail;
    }
  }

  lemma ExpandLiteral(atoms: seq<GlobAtom>, c: char)
    requires atoms != [] && atoms[0] == Literal(c) && StarCount(atoms) == 0
    ensures StarCount(atoms[1..]) == 0 && Expand(atoms, []) == [c] + Expand(atoms[1..], [])
  {
  }

  // ---------------------------------------------------------------------
  // Most specific match

  /** `list.filter(entry => matchesPattern(entry, site))` */
  function MatchingEntries(list: seq<string>, site: string): (ms: seq<string>)
    ensures forall e :: e in ms <==> e in list && MatchesPattern(e, site)
    ensures |ms| <= |list|
  {
    if list == [] then []
    else (if MatchesPattern(list[0], site) then [list[0]] else []) + MatchingEntries(list[1..], site)
  }

  /** `reduce((a, b) => (b.length > a.length ? b : a))` with `acc` as the running value. */
  function Longest(acc: string, rest: seq<string>): string
    decreases |rest|
  {
    if rest == [] then acc
    else Longest(if |rest[0]| > |acc| then rest[0] else acc, rest[1..])
  }

  /**
   * The reduction returns the first element of `[acc] + rest` of maximal
   * length: it switches only on a strictly longer element.
   */
  lemma {:induction false} LongestIsFirstMaximal(acc: string, rest: seq<string>) returns (p: nat)
    ensures var xs := [acc] + rest;
      && p < |xs| && xs[p] == Longest(acc, rest)
      && (forall q :: 0 <= q < |xs| ==> |xs[q]| <= |xs[p]|)
      && (forall q :: 0 <= q < p ==> |xs[q]| < |xs[p]|)
    decreases |rest|
  {
    var xs := [acc] + rest;
    if rest == [] {
      p := 0;
    } else {
      var next := if |rest[0]| > |acc| then rest[0] else acc;
      var p' := LongestIsFirstMaximal(next, rest[1..]);
      var ys := [next] + rest[1..];
      // ys is xs with its first two elements merged into the longer one
      assert xs[0] == acc && xs[1] == rest[0] && ys[0] == next;
      assert |acc| <= |next| && |rest[0]| <= |next|;
      if p' == 0 {
        p := if |rest[0]| > |acc| then 1 else 0;
      } else {
        p := p' + 1;
      }
      assert xs[p] == ys[p'];
      forall q | 0 <= q < |xs| ensures |xs[q]| <= |xs[p]| {
        if q >= 2 { assert xs[q] == ys[q - 1]; } else { assert |ys[0]| <= |ys[p']|; }
      }
      forall q | 0 <= q < p ensures |xs[q]| < |xs[p]| {
        if q >= 2 { assert xs[q] == ys[q - 1]; } else if p' > 0 { assert |ys[0]| < |ys[p']|; }
      }
    }
  }

  /** If `list[i]` is the first occurrence there of a matching entry, everything matched before it precedes it in the filtered list. */
  lemma {:induction false} MatchingEntriesIndex(list: seq<string>, site: string, p: nat) returns (i: nat)
    requires p < |MatchingEntries(list, site)|
    ensures i < |list| && list[i] == MatchingEntries(list, site)[p]
    ensures forall j :: 0 <= j < i && MatchesPattern(list[j], site) ==>
      list[j] in MatchingEntries(list, site)[..p]
  {
    var ms := MatchingEntries(list, site);
    var tail := MatchingEntries(list[1..], site);
    if MatchesPattern(list[0], site) {
      assert ms == [list[0]] + tail;
      if p == 0 {
        i := 0;
      } else {
        var i' := MatchingEntriesIndex(list[1..], site, p - 1);
        i := i' + 1;
        forall j | 0 <= j < i && MatchesPattern(list[j], site) ensures list[j] in ms[..p] {
          if j == 0 { assert ms[..p][0] == list[0]; }
          else {
            assert list[j] == list[1..][j - 1];
            assert list[j] in tail[..p - 1];
            assert ms[..p] == [list[0]] + tail[..p - 1];
          }
        }
      }
    } else {
      assert ms == tail;
      var i' := MatchingEntriesIndex(list[1..], site, p);
      i := i' + 1;
      forall j | 0 <= j < i && MatchesPattern(list[j], site) ensures list[j] in ms[..p] {
        assert j != 0;
        assert list[j] == list[1..][j - 1];
      }
    }
  }

  /**
   * `getMostSpecificMatch`: none when no entry matches; otherwise a
   * matching entry of the list that no matching entry outranks by length,
   * and the earliest such entry.
   */
  function GetMostSpecificMatch(list: seq<string>, site: string): (r: Option<string>)
    ensures r.None? <==> forall e :: e in list ==> !MatchesPattern(e, site)
    ensures r.Some? ==> r.value in list && MatchesPattern(r.value, site)
    ensures r.Some? ==> forall e :: e in list && MatchesPattern(e, site) ==> |e| <= |r.value|
    ensures r.Some? ==> exists i :: 0 <= i < |list| && list[i] == r.value &&
                          (forall j :: 0 <= j < i && MatchesPattern(list[j], site) ==> |list[j]| < |r.value|)
  {
    var matches := MatchingEntries(list, site);
    if |matches| == 0 then
      None
    else
      var best := Longest(matches[0], matches[1..]);
      assert best in list && MatchesPattern(best, site) &&
        (forall e :: e in list && MatchesPattern(e, site) ==> |e| <= |best|) &&
        (exists i :: 0 <= i < |list| && list[i] == best &&
          forall j :: 0 <= j < i && MatchesPattern(list[j], site) ==> |list[j]| < |best|)
      by {
        var p := LongestIsFirstMaximal(matches[0], matches[1..]);
        assert [matches[0]] + matches[1..] == matches;
        assert best in matches;
        forall e | e in list && MatchesPattern(e, site) ensures |e| <= |best| {
          assert e in matches;
          var q :| 0 <= q < |matches| && matches[q] == e;
        }
        var i := MatchingEntriesIndex(list, site, p);
        forall j | 0 <= j < i && MatchesPattern(list[j], site) ensures |list[j]| < |best| {
          var q :| 0 <= q < p && matches[..p][q] == list[j];
        }
      }
      Some(best)
  }

  // ---------------------------------------------------------------------
  // The decision

  /** The site string: hostname less one leading `www.`, then the pathname. */
  function SiteString(hostname: string, pathname: string): (site: string)
    ensures |hostname| >= 4 && hostname[..4] == "www." ==> site == hostname[4..] + pathname
    ensures !(|hostname| >= 4 && hostname[..4] == "www.") ==> site == hostname + pathname
  {
    (if |hostname| >= 4 && hostname[..4] == "www." then hostname[4..] else hostname) + pathname
  }

  datatype Reason =
    | ExtensionDisabled
    | BlockedByBlocklist
    | AllowedByAllowlist
    | BlockedByDefault
    | Enabled

  datatype Decision = Decision(shouldParse: bool, allowMatch: Option<string>, blockMatch: Option<string>, reason: Reason)

  /** The fields of the settings that the decision reads. */
  datatype SiteConfig = SiteConfig(allowlist: seq<string>, blocklist: seq<string>, defaultAllowMode: bool)

  /** JavaScript truthiness of a `string | null`: the empty string is falsy. */
  predicate Truthy(m: Option<string>) { m.Some? && m.value != "" }

  /** `shouldParseSite`, with `window.location`'s hostname and pathname as inputs. */
  function ShouldParseSite(config: SiteConfig, hostname: string, pathname: string): (r: Decision)
    ensures r.allowMatch == GetMostSpecificMatch(config.allowlist, SiteString(hostname, pathname))
    ensures r.blockMatch == GetMostSpecificMatch(config.blocklist, SiteString(hostname, pathname))
    ensures r.reason != ExtensionDisabled
    ensures r.shouldParse <==> r.reason in {Enabled, AllowedByAllowlist}
  {
    var site := SiteString(hostname, pathname);
    var allowMatch := GetMostSpecificMatch(config.allowlist, site);
    var blockMatch := GetMostSpecificMatch(config.blocklist, site);
    if config.defaultAllowMode then
      if !Truthy(blockMatch) then Decision(true, allowMatch, blockMatch, Enabled)
      else if !Truthy(allowMatch) then Decision(false, allowMatch, blockMatch, BlockedByBlocklist)
      else
        var shouldParse := |allowMatch.value| >= |blockMatch.value|;
        Decision(shouldParse, allowMatch, blockMatch, if shouldParse then AllowedByAllowlist else BlockedByBlocklist)
    else
      if !Truthy(allowMatch) then Decision(false, allowMatch, blockMatch, BlockedByDefault)
      else if !Truthy(blockMatch) then Decision(true, allowMatch, blockMatch, AllowedByAllowlist)
      else
        var shouldParse := |allowMatch.value| >= |blockMatch.value|;
        Decision(shouldParse, allowMatch, blockMatch, if shouldParse then AllowedByAllowlist else BlockedByBlocklist)
  }

  /** Allow-by-default mode: without a block match the page is parsed, whatever the allow list says. */
  lemma DefaultAllowWithoutBlock(config: SiteConfig, hostname: string, pathname: string)
    requires config.defaultAllowMode
    requires !Truthy(GetMostSpecificMatch(config.blocklist, SiteString(hostname, pathname)))
    ensures ShouldParseSite(config, hostname, pathname).shouldParse
    ensures ShouldParseSite(config, hostname, pathname).reason == Enabled
  {
  }

  /** Allow-by-default mode: a block match with no allow match blocks the page. */
  lemma DefaultAllowBlockOnly(config: SiteConfig, hostname: string, pathname: string)
    requires config.defaultAllowMode
    requires Truthy(GetMostSpecificMatch(config.blocklist, SiteString(hostname, pathname)))
    requires !Truthy(GetMostSpecificMatch(config.allowlist, SiteString(hostname, pathname)))
    ensures !ShouldParseSite(config, hostname, pathname).shouldParse
    ensures ShouldParseSite(config, hostname, pathname).reason == BlockedByBlocklist
  {
  }

  /** Block-by-default mode: without an allow match the page is blocked. */
  lemma DefaultDenyWithoutAllow(config: SiteConfig, hostname: string, pathname: string)
    requires !config.defaultAllowMode
    requires !Truthy(GetMostSpecificMatch(config.allowlist, SiteString(hostname, pathname)))
    ensures !ShouldParseSite(config, hostname, pathname).shouldParse
    ensures ShouldParseSite(config, hostname, pathname).reason == BlockedByDefault
  {
  }

  /** Block-by-default mode: an allow match with no block match parses the page. */
  lemma DefaultDenyAllowOnly(config: SiteConfig, hostname: string, pathname: string)
    requires !config.defaultAllowMode
    requires Truthy(GetMostSpecificMatch(config.allowlist, SiteString(hostname, pathname)))
    requires !Truthy(GetMostSpecificMatch(config.blocklist, SiteString(hostname, pathname)))
    ensures ShouldParseSite(config, hostname, pathname).shouldParse
    ensures ShouldParseSite(config, hostname, pathname).reason == AllowedByAllowlist
  {
  }

  /** With both matches, in either mode, the longer one wins and a tie favours the allow list. */
  lemma BothMatchesLongerWins(config: SiteConfig, hostname: string, pathname: string)
    requires Truthy(GetMostSpecificMatch(config.allowlist, SiteString(hostname, pathname)))
    requires Truthy(GetMostSpecificMatch(config.blocklist, SiteString(hostname, pathname)))
    ensures var r := ShouldParseSite(config, hostname, pathname);
      && (r.shouldParse <==> |r.allowMatch.value| >= |r.blockMatch.value|)
      && r.reason == (if r.shouldParse then AllowedByAllowlist else BlockedByBlocklist)
  {
  }
}
