/**
 Replacing the `target` groups of one pass: from the last match to the first, and all at
 once, which comes to the same text.
 */
module NamespaceRewrite {
  import opened NamespacePatterns
  import opened NamespaceShift
  import opened NamespaceSymbols
  import opened ProtoInsert
  import opened ProtoMask
  import opened Text

  // ----- one pass

  /** The masked text a pass looks at: only symbols are sought with strings hidden. */
  function View(k: Pattern, s: string): (m: string)
    ensures |m| == |s|
  {
    Mask(s, k.Symbol?)
  }

  /** Every position of the target group, in order. */
  function Sites(k: Pattern, m: string, from: nat): seq<nat>
    decreases |m| - from
  {
    if from >= |m| then []
    else (if Target(k, m, from) then [from] else []) + Sites(k, m, from + 1)
  }

  /** All replacements at once: what stands between the targets is copied. */
  function Replaced(k: Pattern, s: string, from: nat, ps: seq<nat>): string
    requires Spaced(k, s, from, ps)
    decreases |ps|
  {
    if ps == [] then s[from..]
    else s[from..ps[0]] + Replacement(k) + Replaced(k, s, ps[0] + |TargetText(k)|, ps[1..])
  }

  // The targets are in order, apart from one another, and show the target text.
  ghost predicate Spaced(k: Pattern, s: string, from: nat, ps: seq<nat>) {
    && from <= |s|
    && (forall x :: 0 <= x < |ps| ==> from <= ps[x] && At(s, ps[x], TargetText(k)))
    && (forall x, y :: 0 <= x < y < |ps| ==> ps[x] + |TargetText(k)| <= ps[y])
  }

  /** The same replacements one after the other, the last one first. */
  function FromRight(k: Pattern, s: string, ps: seq<nat>): string
    requires Spaced(k, s, 0, ps)
    decreases |ps|
  {
    if ps == [] then s
    else
      var last := |ps| - 1;
      SpacedButLast(k, s, ps);
      FromRight(k, Insert(s, ps[last] + Offset(k), Added(k)), ps[..last])
  }

  lemma SpacedButLast(k: Pattern, s: string, ps: seq<nat>)
    requires Spaced(k, s, 0, ps) && ps != []
    ensures ps[|ps| - 1] + Offset(k) <= |s|
    ensures Spaced(k, Insert(s, ps[|ps| - 1] + Offset(k), Added(k)), 0, ps[..|ps| - 1])
  {
    hide Added, Replacement, TargetText, Offset, At, Insert, Copies;
    var last := |ps| - 1;
    var i, w := ps[last] + Offset(k), Added(k);
    ReplacementInserts(k);
    assert At(s, ps[last], TargetText(k));
    AtRoom(s, ps[last], TargetText(k));
    InsertCopies(s, i, w);
    forall x | 0 <= x < last ensures At(Insert(s, i, w), ps[..last][x], TargetText(k)) {
      AtCarry(s, Insert(s, i, w), 0, i, 0, ps[x], TargetText(k));
    }
  }

  lemma AtRoom(s: string, p: int, w: string)
    requires At(s, p, w)
    ensures 0 <= p && p + |w| <= |s| && s[p..p + |w|] == w
  {
  }

  // One replacement, on its own.
  lemma {:induction false} ReplaceOne(k: Pattern, s: string, from: nat, p: nat)
    requires from <= p && At(s, p, TargetText(k))
    ensures p + |TargetText(k)| <= |s| && p + Offset(k) <= |s|
    ensures s[..p] + Replacement(k) + s[p + |TargetText(k)|..] == Insert(s, p + Offset(k), Added(k))
    ensures s[from..p] + Replacement(k) + s[p + |TargetText(k)|..] == Insert(s, p + Offset(k), Added(k))[from..]
  {
    hide At, Replacement, Added, TargetText, Offset;
    ReplacementInserts(k);
    AtRoom(s, p, TargetText(k));
    SpliceIsInsert(s, 0, p, p + |TargetText(k)|, Offset(k), Added(k));
    SpliceIsInsert(s, from, p, p + |TargetText(k)|, Offset(k), Added(k));
    assert s[0..p] == s[..p];
    assert Insert(s, p + Offset(k), Added(k))[0..] == Insert(s, p + Offset(k), Added(k));
  }

  lemma SpliceIsInsert(s: string, from: nat, p: nat, e: nat, off: nat, w: string)
    requires from <= p && p + off <= e <= |s|
    ensures s[from..p] + (s[p..e][..off] + w + s[p..e][off..]) + s[e..] == Insert(s, p + off, w)[from..]
  {
    assert s[p..e][..off] == s[p..p + off] && s[p..e][off..] == s[p + off..e];
    assert s[from..p] + s[p..p + off] == s[from..p + off];
    assert s[p + off..e] + s[e..] == s[p + off..];
    assert Insert(s, p + off, w)[from..] == s[from..p + off] + w + s[p + off..];
  }

  /** The loop from right to left computes the simultaneous replacement. */
  lemma {:induction false} RightToLeft(k: Pattern, s: string, ps: seq<nat>)
    requires Spaced(k, s, 0, ps)
    ensures FromRight(k, s, ps) == Replaced(k, s, 0, ps)
    decreases |ps|
  {
    hide Added, Replacement, TargetText, At, Insert;
    if ps == [] {
      assert s[0..] == s;
    } else {
      var last := |ps| - 1;
      SpacedButLast(k, s, ps);
      RightToLeft(k, Insert(s, ps[last] + Offset(k), Added(k)), ps[..last]);
      SpacedFrom(k, s, 0, ps);
      ReplacedLast(k, s, 0, ps);
    }
  }

  lemma {:induction false} SpacedFrom(k: Pattern, s: string, from: nat, ps: seq<nat>)
    requires Spaced(k, s, from, ps) && ps != []
    ensures var last := |ps| - 1;
            ps[last] + Offset(k) <= |s| && Spaced(k, Insert(s, ps[last] + Offset(k), Added(k)), from, ps[..last])
  {
    hide Added, Replacement, TargetText, At, Insert;
    SpacedButLast(k, s, ps);
  }

  lemma ReplacedStep(k: Pattern, s: string, from: nat, ps: seq<nat>)
    requires Spaced(k, s, from, ps) && ps != []
    ensures from <= ps[0] <= ps[|ps| - 1] && ps[0] <= |s| && Spaced(k, s, ps[0] + |TargetText(k)|, ps[1..])
    ensures Replaced(k, s, from, ps)
            == s[from..ps[0]] + Replacement(k) + Replaced(k, s, ps[0] + |TargetText(k)|, ps[1..])
  {
    hide TargetText, Replacement;
    SpacedFirst(k, s, from, ps);
    SpacedTail(k, s, from, ps);
  }

  lemma {:induction false} ReplacedLast(k: Pattern, s: string, from: nat, ps: seq<nat>)
    requires Spaced(k, s, from, ps) && ps != []
    requires var last := |ps| - 1;
             ps[last] + Offset(k) <= |s| && Spaced(k, Insert(s, ps[last] + Offset(k), Added(k)), from, ps[..last])
    ensures var last := |ps| - 1;
            Replaced(k, Insert(s, ps[last] + Offset(k), Added(k)), from, ps[..last]) == Replaced(k, s, from, ps)
    decreases |ps|
  {
    hide Added, Replacement, TargetText, At, Insert, Offset, Spaced, Replaced;
    var last := |ps| - 1;
    var t := Insert(s, ps[last] + Offset(k), Added(k));
    ReplacedStep(k, s, from, ps);
    if last == 0 {
      SpacedFirst(k, s, from, ps);
      ReplaceOne(k, s, from, ps[0]);
      ReplacedNone(k, s, ps[0] + |TargetText(k)|);
      ReplacedNone(k, t, from);
      assert ps[1..] == [] && ps[..0] == [];
    } else {
      assert ps[1..][last - 1] == ps[last] && ps[1..][..last - 1] == ps[..last][1..] && ps[..last][0] == ps[0];
      ReplacedStep(k, t, from, ps[..last]);
      ReplacedLast(k, s, ps[0] + |TargetText(k)|, ps[1..]);
      InsertBefore(s, ps[last] + Offset(k), Added(k), from, ps[0]);
    }
  }

  lemma ReplacedNone(k: Pattern, s: string, from: nat)
    requires from <= |s|
    ensures Spaced(k, s, from, []) && Replaced(k, s, from, []) == s[from..]
  {
  }

  lemma SpacedFirst(k: Pattern, s: string, from: nat, ps: seq<nat>)
    requires Spaced(k, s, from, ps) && ps != []
    ensures from <= ps[0] <= ps[|ps| - 1] && At(s, ps[0], TargetText(k)) && ps[0] <= |s|
  {
    hide TargetText;
  }

  lemma InsertBefore(s: string, i: nat, w: string, from: nat, e: nat)
    requires from <= e <= i <= |s|
    ensures Insert(s, i, w)[from..e] == s[from..e]
  {
  }

  lemma SpacedTail(k: Pattern, s: string, from: nat, ps: seq<nat>)
    requires Spaced(k, s, from, ps) && ps != []
    ensures Spaced(k, s, ps[0] + |TargetText(k)|, ps[1..])
  {
    AtRoom(s, ps[0], TargetText(k));
    hide At, TargetText;
  }
}
