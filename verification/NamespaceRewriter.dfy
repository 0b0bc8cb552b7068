/**
 The rewriter as it runs: match lists collected over the masked text, replacements made
 from the last match to the first, one pass after the other.
 */
module NamespaceRewriter {
  import opened NamespaceIdempotence
  import opened NamespacePasses
  import opened NamespacePatterns
  import opened NamespaceRewrite
  import opened NamespaceShift
  import opened ProtoInsert
  import opened ProtoMask
  import opened Text

  method PreviousNonWhitespace(source: string, index: int) returns (r: int)
    requires -1 <= index < |source|
    ensures r == Previous(source, index)
  {
    r := index;
    while r >= 0 && IsSpace(source[r])
      invariant -1 <= r <= index
      invariant Previous(source, r) == Previous(source, index)
    {
      r := r - 1;
    }
  }

  // A word ends before `end`, with nothing but white space in between.
  ghost predicate WordBefore(masked: string, end: nat)
    requires end <= |masked|
  {
    exists j :: 0 <= j < end && WordChar(masked[j]) && AllSpace(masked[j + 1..end])
  }

  // A word precedes `start`, directly or behind one dot.
  ghost predicate Qualified(masked: string, start: nat)
    requires start <= |masked|
  {
    || WordBefore(masked, start)
    || exists dot ::
         0 <= dot < start && masked[dot] == '.' && AllSpace(masked[dot + 1..start]) && WordBefore(masked, dot)
  }

  lemma PreviousIs(s: string, end: nat, j: nat)
    requires j < end <= |s| && !IsSpace(s[j]) && AllSpace(s[j + 1..end])
    ensures Previous(s, end - 1) == j
  {
    hide IsSpace, Previous;
    assert forall i :: j < i < end ==> s[i] == s[j + 1..end][i - j - 1];
  }

  lemma PreviousWord(s: string, end: nat)
    requires end <= |s|
    ensures var p := Previous(s, end - 1);
            WordBefore(s, end) <==> p >= 0 && WordChar(s[p])
  {
    hide Previous, IsSpace;
    WordsAreSolid();
    var p := Previous(s, end - 1);
    if j: nat :| j < end && WordChar(s[j]) && AllSpace(s[j + 1..end]) {
      PreviousIs(s, end, j);
    }
    assert p >= 0 ==> AllSpace(s[p + 1..end]) by {
      assert forall i :: 0 <= i && p < i < end ==> IsSpace(s[i]);
    }
  }

  lemma WordsAreSolid()
    ensures forall c :: WordChar(c) ==> !IsSpace(c)
  {
  }

  lemma RootUnlessQualified(masked: string, start: nat)
    requires start <= |masked|
    ensures IsRoot(masked, start) <==> !Qualified(masked, start)
  {
    hide IsSpace, WordChar, WordBefore, Previous;
    var previous := Previous(masked, start - 1);
    PreviousWord(masked, start);
    DotsAndWords();
    assert previous >= 0 ==> AllSpace(masked[previous + 1..start]);
    forall dot: nat | dot < start && masked[dot] == '.' && AllSpace(masked[dot + 1..start]) ensures dot == previous {
      PreviousIs(masked, start, dot);
    }
    if previous >= 0 {
      PreviousWord(masked, previous);
    }
  }

  lemma DotsAndWords()
    ensures !IsSpace('.') && !WordChar('.')
  {
  }

  method IsRootQualifiedSymbol(masked: string, start: nat) returns (root: bool)
    requires start <= |masked|
    ensures root == IsRoot(masked, start)
    ensures root <==> !Qualified(masked, start)
  {
    RootUnlessQualified(masked, start);
    var previous := PreviousNonWhitespace(masked, start - 1);
    if previous < 0 {
      return true;
    }
    if masked[previous] != '.' {
      return !WordChar(masked[previous]);
    }
    var beforeDot := PreviousNonWhitespace(masked, previous - 1);
    root := beforeDot < 0 || !WordChar(masked[beforeDot]);
  }

  /** The start of every `target` group, from left to right. */
  method FindTargets(k: Pattern, masked: string) returns (matches: seq<nat>)
    ensures matches == Sites(k, masked, 0)
  {
    hide Target, IsRoot, DotAt, Sites;
    matches := [];
    SitesEnd(k, masked);
    for p := 0 to |masked|
      invariant matches + Sites(k, masked, p) == Sites(k, masked, 0)
    {
      var found := false;
      if !k.Symbol? {
        found := Target(k, masked, p);
      } else if exists e | p <= e < |masked| :: DotAt(masked, p, e) {
        found := IsRootQualifiedSymbol(masked, p);
      }
      FoundIsTarget(k, masked, p, found);
      if found {
        matches := matches + [p];
      }
    }
  }

  lemma SitesEnd(k: Pattern, m: string)
    ensures Sites(k, m, |m|) == []
  {
  }

  lemma FoundIsTarget(k: Pattern, m: string, p: nat, found: bool)
    requires p < |m|
    requires !k.Symbol? ==> found == Target(k, m, p)
    requires k.Symbol? ==> found == (IsRoot(m, p) && exists e | p <= e < |m| :: DotAt(m, p, e))
    ensures found == Target(k, m, p)
    ensures Sites(k, m, p) == (if found then [p] else []) + Sites(k, m, p + 1)
  {
    hide IsRoot, DotAt;
  }

  /** Replaces the target group at each match, the last match first. */
  method ReplaceMatches(k: Pattern, source: string, matches: seq<nat>) returns (rewritten: string)
    requires Spaced(k, source, 0, matches)
    ensures rewritten == Replaced(k, source, 0, matches)
  {
    hide At, Added, Replacement, TargetText, Insert, Spaced, FromRight, Replaced, Offset;
    rewritten := source;
    assert matches[..|matches|] == matches;
    var left := |matches|;
    while left > 0
      invariant 0 <= left <= |matches|
      invariant Spaced(k, rewritten, 0, matches[..left])
      invariant FromRight(k, rewritten, matches[..left]) == FromRight(k, source, matches)
    {
      ghost var before := matches[..left];
      left := left - 1;
      var start := matches[left];
      assert before[left] == start && before[..left] == matches[..left];
      LastRoom(k, rewritten, before);
      var end := start + |TargetText(k)|;
      ghost var next := rewritten[..start] + Replacement(k) + rewritten[end..];
      LastMatch(k, rewritten, before, start, next);
      rewritten := rewritten[..start] + Replacement(k) + rewritten[end..];
    }
    NoMatch(k, rewritten);
    RightToLeft(k, source, matches);
  }

  lemma LastRoom(k: Pattern, s: string, ps: seq<nat>)
    requires Spaced(k, s, 0, ps) && ps != []
    ensures ps[|ps| - 1] + |TargetText(k)| <= |s|
  {
    hide TargetText;
    assert At(s, ps[|ps| - 1], TargetText(k));
  }

  // Replacing the last match is one step of the specification.
  lemma LastMatch(k: Pattern, s: string, ps: seq<nat>, start: nat, t: string)
    requires Spaced(k, s, 0, ps) && ps != [] && start == ps[|ps| - 1]
    requires start + |TargetText(k)| <= |s|
    requires t == s[..start] + Replacement(k) + s[start + |TargetText(k)|..]
    ensures Spaced(k, t, 0, ps[..|ps| - 1])
    ensures FromRight(k, t, ps[..|ps| - 1]) == FromRight(k, s, ps)
  {
    hide At, Added, Replacement, TargetText, Insert, Spaced, Offset;
    SpacedButLast(k, s, ps);
    LastShows(k, s, ps);
    ReplaceOne(k, s, 0, start);
  }

  lemma NoMatch(k: Pattern, s: string)
    ensures Spaced(k, s, 0, []) && FromRight(k, s, []) == s
  {
  }

  lemma LastShows(k: Pattern, s: string, ps: seq<nat>)
    requires Spaced(k, s, 0, ps) && ps != []
    ensures At(s, ps[|ps| - 1], TargetText(k))
  {
    hide At;
  }

  method RewriteTargetMatches(k: Pattern, source: string) returns (rewritten: string)
    ensures rewritten == PassOver(k, source)
  {
    hide Sites, Target, Replaced, Spaced, Ready, View;
    var masked := View(k, source);
    var matches := FindTargets(k, masked);
    PassReady(k, source);
    ReadySpaced(k, source, matches);
    if matches == [] {
      NothingToReplace(k, source);
      return source;
    }
    rewritten := ReplaceMatches(k, source, matches);
  }

  lemma NothingToReplace(k: Pattern, s: string)
    requires PassSites(k, s) == []
    ensures PassOver(k, s) == s
  {
    assert s[0..] == s;
  }

  /** All four passes over one source. */
  method RewriteProtoSource(source: string) returns (rewritten: string)
    ensures rewritten == RewriteAll(source)
    ensures RewriteAll(rewritten) == rewritten
    ensures Protected(rewritten, false) == Protected(source, false)
  {
    hide PassOver, Protected;
    rewritten := RewriteTargetMatches(Package, source);
    rewritten := RewriteTargetMatches(Import, rewritten);
    rewritten := RewriteTargetMatches(Nanopb, rewritten);
    rewritten := RewriteTargetMatches(Symbol, rewritten);
    RewriteIsIdempotent(source);
    CommentsKept(source);
  }
}
