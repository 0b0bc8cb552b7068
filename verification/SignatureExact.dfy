/**
 Where the gate is exact: for legal old signatures whose parameters can all be passed by
 position and by keyword, and for no others.  Outside that class it reports a change that
 no call can tell.
 */
module SignatureExact {
  import opened SignatureCalls
  import opened SignatureShape

  // ----- changes no call can tell

  /** The three kinds of false alarm, each at one parameter `p`. */
  predicate Harmless(base: Shape, pr: Shape, p: nat) {
    && p < |base|
    && (|| (base[p].kind.Variadic() && pr == Renamed(base, p))
        || (base[p].kind == PositionalOnly && pr == Relaxed(base, p))
        || (base[p].kind == KeywordOnly && pr == base[p := Param(base[p].name, PositionalOrKeyword, false)]))
  }

  /** A name longer than every other. */
  function FreshName(sig: Shape): (r: string)
    ensures forall i :: 0 <= i < |sig| ==> |sig[i].name| < |r|
  {
    if sig == [] then "x"
    else
      var rest := FreshName(sig[1..]);
      if |sig[0].name| < |rest| then rest else sig[0].name + "x"
  }

  // ----- each of them is reported

  lemma ChangeIsReported(base: Shape, p: nat, q: Param)
    requires UniqueNames(base) && p < |base|
    requires q.name == base[p].name ==> q.kind != base[p].kind
    requires forall i :: 0 <= i < |base| && i != p ==> base[i].name != q.name
    ensures !Compatible(base, base[p := q], map[])
  {
    var pr := base[p := q];
    forall j: nat ensures !StandsFor(base[p], pr, j) {
    }
    if Compatible(base, pr, map[]) {
      CompatibleKeeps(base, pr, p);
    }
  }

  lemma CompatibleKeeps(base: Shape, pr: Shape, p: nat)
    requires Compatible(base, pr, map[]) && p < |base|
    ensures exists j: nat :: StandsFor(base[p], pr, j)
  {
    var f := CompatibleEmbeds(base, pr);
    assert StandsFor(base[p], pr, f[p]);
  }

  // ----- and preserved

  lemma {:induction false} SameCount(a: Shape, b: Shape)
    requires |a| == |b| && forall i :: 0 <= i < |a| ==> a[i].kind.Positional() == b[i].kind.Positional()
    ensures PositionalCount(a) == PositionalCount(b)
    decreases |a|
  {
    if a != [] {
      SameCount(a[1..], b[1..]);
    }
  }

  // The same keywords mean the same if they are found in the same places.
  lemma SameKeyword(a: Shape, b: Shape, positional: nat, k: string)
    requires UniqueNames(a) && UniqueNames(b) && |a| == |b| && HasKind(a, VarKeyword) == HasKind(b, VarKeyword)
    requires forall i :: KeywordIndex(a, k, i) <==> KeywordIndex(b, k, i)
    requires forall i :: KeywordIndex(a, k, i) && i < positional ==> a[i].kind.Positional() == b[i].kind.Positional()
    ensures KeywordSlot(a, positional, k) == KeywordSlot(b, positional, k)
  {
    if i :| KeywordIndex(a, k, i) {
      KeywordSlotAt(a, positional, k, i);
      KeywordSlotAt(b, positional, k, i);
    }
  }

  lemma KindsKept(a: Shape, p: nat, q: Param, kind: Kind)
    requires p < |a| && (a[p].kind == kind <==> q.kind == kind)
    ensures HasKind(a, kind) == HasKind(a[p := q], kind)
  {
    var b := a[p := q];
    forall i | 0 <= i < |a| ensures a[i].kind == kind <==> b[i].kind == kind {
    }
    if HasKind(a, kind) {
      var i :| 0 <= i < |a| && a[i].kind == kind;
      assert b[i].kind == kind;
    }
    if HasKind(b, kind) {
      var i :| 0 <= i < |b| && b[i].kind == kind;
      assert a[i].kind == kind;
    }
  }

  // A call that binds on the old signature binds on a changed one that treats it alike.
  lemma AlikeCall(base: Shape, pr: Shape, call: Call)
    requires Binds(base, call) && |pr| == |base|
    requires forall i: nat :: i < call.positional ==> PositionalSlot(pr, i) == PositionalSlot(base, i)
    requires forall k :: k in call.keywords ==>
        KeywordSlot(pr, call.positional, k) == KeywordSlot(base, call.positional, k)
    requires forall i :: 0 <= i < |pr| && pr[i].required ==>
        base[i].required && (Filled(base, call, i) ==> Filled(pr, call, i))
    ensures Binds(pr, call) && SameDelivery(base, pr, call)
  {
    hide PositionalSlot, KeywordSlot, Filled;
  }

  function Renamed(base: Shape, p: nat): (pr: Shape)
    requires p < |base|
    ensures |pr| == |base|
  {
    base[p := base[p].(name := FreshName(base))]
  }

  lemma RenamedLegal(base: Shape, p: nat)
    requires Legal(base) && p < |base|
    ensures Legal(Renamed(base, p))
  {
    hide FreshName;
  }

  lemma RenamedSlots(base: Shape, p: nat, positional: nat, k: string)
    requires Legal(base) && p < |base| && base[p].kind.Variadic()
    ensures PositionalCount(Renamed(base, p)) == PositionalCount(base)
    ensures HasKind(base, VarPositional) == HasKind(Renamed(base, p), VarPositional)
    ensures KeywordSlot(Renamed(base, p), positional, k) == KeywordSlot(base, positional, k)
  {
    hide FreshName, Canonical;
    RenamedLegal(base, p);
    var pr := Renamed(base, p);
    SameCount(base, pr);
    KindsKept(base, p, pr[p], VarPositional);
    KindsKept(base, p, pr[p], VarKeyword);
    hide PositionalCount, HasKind;
    SameKeyword(base, pr, positional, k);
  }

  lemma RenamedVariadic(base: Shape, p: nat)
    requires Legal(base) && p < |base| && base[p].kind.Variadic()
    ensures Legal(Renamed(base, p)) && Preserves(base, Renamed(base, p))
  {
    hide FreshName, KeywordSlot, PositionalCount, HasKind;
    RenamedLegal(base, p);
    var pr := Renamed(base, p);
    assert !base[p].required && !base[p].kind.Positional();
    hide Legal;
    forall call | Binds(base, call) ensures Binds(pr, call) && SameDelivery(base, pr, call) {
      forall k ensures KeywordSlot(pr, call.positional, k) == KeywordSlot(base, call.positional, k) {
        RenamedSlots(base, p, call.positional, k);
      }
      RenamedSlots(base, p, 0, "");
      PositionalsAlike(base, pr, p);
      hide Binds;
      AlikeCall(base, pr, call);
    }
  }

  lemma PositionalsAlike(base: Shape, pr: Shape, p: nat)
    requires p < |base| == |pr| && PositionalCount(pr) == PositionalCount(base)
    requires HasKind(base, VarPositional) == HasKind(pr, VarPositional)
    requires forall i :: 0 <= i < |base| && (i != p || base[p].kind.Positional()) ==> pr[i].name == base[i].name
    ensures forall i: nat :: PositionalSlot(pr, i) == PositionalSlot(base, i)
  {
    forall i: nat ensures PositionalSlot(pr, i) == PositionalSlot(base, i) {
      assert i < PositionalCount(base) ==> base[i].kind.Positional();
    }
  }

  function Relaxed(base: Shape, p: nat): (pr: Shape)
    requires p < |base|
    ensures |pr| == |base|
  {
    base[p := base[p].(kind := PositionalOrKeyword)]
  }

  lemma RelaxedLegal(base: Shape, p: nat)
    requires Legal(base) && p < |base| && base[p].kind == PositionalOnly
    requires forall i :: p < i < |base| ==> base[i].kind != PositionalOnly
    ensures Legal(Relaxed(base, p))
  {
  }

  lemma RelaxedSlots(base: Shape, p: nat, positional: nat, k: string)
    requires p < |base| && base[p].kind == PositionalOnly && UniqueNames(base) && UniqueNames(Relaxed(base, p))
    requires !HasKind(base, VarKeyword)
    ensures PositionalCount(Relaxed(base, p)) == PositionalCount(base)
    ensures HasKind(base, VarPositional) == HasKind(Relaxed(base, p), VarPositional)
    ensures KeywordSlot(base, positional, k) != Rejected
        ==> KeywordSlot(Relaxed(base, p), positional, k) == KeywordSlot(base, positional, k)
  {
    var pr := Relaxed(base, p);
    SameCount(base, pr);
    KindsKept(base, p, pr[p], VarPositional);
    KindsKept(base, p, pr[p], VarKeyword);
    hide PositionalCount, HasKind;
    if i :| KeywordIndex(base, k, i) {
      assert KeywordIndex(pr, k, i);
      KeywordSlotAt(base, positional, k, i);
      KeywordSlotAt(pr, positional, k, i);
    }
  }

  // The last positional-only parameter of a signature without `**kwargs`.
  lemma RelaxedPositional(base: Shape, p: nat)
    requires Legal(base) && p < |base| && base[p].kind == PositionalOnly && !HasKind(base, VarKeyword)
    requires forall i :: p < i < |base| ==> base[i].kind != PositionalOnly
    ensures Legal(Relaxed(base, p)) && Preserves(base, Relaxed(base, p))
  {
    hide KeywordSlot, PositionalCount, HasKind, Canonical;
    RelaxedLegal(base, p);
    var pr := Relaxed(base, p);
    forall call | Binds(base, call) ensures Binds(pr, call) && SameDelivery(base, pr, call) {
      forall k | k in call.keywords
          ensures KeywordSlot(pr, call.positional, k) == KeywordSlot(base, call.positional, k) {
        RelaxedSlots(base, p, call.positional, k);
      }
      RelaxedSlots(base, p, 0, "");
      PositionalsAlike(base, pr, p);
      hide Binds, UniqueNames;
      AlikeCall(base, pr, call);
    }
  }

  // The first keyword-only parameter of a signature without variadic ones.
  lemma OpenedKeyword(base: Shape, p: nat)
    requires Legal(base) && p < |base| && base[p].kind == KeywordOnly && p == PositionalCount(base)
    requires !HasKind(base, VarKeyword) && !HasKind(base, VarPositional)
    ensures var pr := base[p := Param(base[p].name, PositionalOrKeyword, false)]; Legal(pr) && Preserves(base, pr)
  {
    var q := Param(base[p].name, PositionalOrKeyword, false);
    var pr := base[p := q];
    KindsKept(base, p, q, VarPositional);
    KindsKept(base, p, q, VarKeyword);
    OneMorePositional(base, p, q);
    hide PositionalCount, HasKind;
    assert Legal(pr) by { OpenedLegal(base, p); }
    forall k, i ensures KeywordIndex(base, k, i) <==> KeywordIndex(pr, k, i) {
    }
    forall call | Binds(base, call) ensures Binds(pr, call) && SameDelivery(base, pr, call) {
      assert call.positional > p ==> PositionalSlot(base, p) != Rejected;
      forall k | k in call.keywords
          ensures KeywordSlot(base, call.positional, k) == KeywordSlot(pr, call.positional, k) {
        SameKeyword(base, pr, call.positional, k);
      }
      hide KeywordSlot, Binds;
      AlikeCall(base, pr, call);
    }
  }

  lemma {:induction false} OneMorePositional(base: Shape, p: nat, q: Param)
    requires p < |base| && p == PositionalCount(base) && q.kind.Positional()
    ensures PositionalCount(base[p := q]) > p
    decreases p
  {
    if p > 0 {
      assert base[1..][p - 1] == base[p] && base[p := q][1..] == base[1..][p - 1 := q];
      OneMorePositional(base[1..], p - 1, q);
    }
  }

  lemma OpenedLegal(base: Shape, p: nat)
    requires Legal(base) && p < |base| && base[p].kind == KeywordOnly && p == PositionalCount(base)
    ensures Legal(base[p := Param(base[p].name, PositionalOrKeyword, false)])
  {
    forall i | p < i < |base| ensures base[i].kind.Rank() >= 3 {
      RankOrder(base, p, i);
    }
  }

  // ----- the exact class

  /** Outside the class there is always a harmless change that is reported. */
  lemma FalseAlarm(base: Shape) returns (pr: Shape, p: nat)
    requires Legal(base) && !Plain(base)
    ensures Harmless(base, pr, p) && Legal(pr) && Preserves(base, pr) && !Compatible(base, pr, map[])
  {
    hide Legal, Preserves, Compatible, PositionalCount;
    if v :| 0 <= v < |base| && base[v].kind.Variadic() {
      p, pr := v, Renamed(base, v);
      RenamedVariadic(base, v);
      LegalNames(base);
      ChangeIsReported(base, v, pr[v]);
    } else if o :| 0 <= o < |base| && base[o].kind == PositionalOnly {
      p := LastPositionalOnly(base, o);
      pr := Relaxed(base, p);
      RelaxedPositional(base, p);
      LegalNames(base);
      ChangeIsReported(base, p, pr[p]);
    } else {
      p := PositionalCount(base);
      AllPositional(base);
      pr := base[p := Param(base[p].name, PositionalOrKeyword, false)];
      OpenedKeyword(base, p);
      LegalNames(base);
      ChangeIsReported(base, p, pr[p]);
    }
  }

  lemma LegalNames(sig: Shape)
    requires Legal(sig)
    ensures UniqueNames(sig)
  {
  }

  // Without other kinds, the first parameter that is not positional is keyword-only.
  lemma AllPositional(base: Shape)
    requires !Plain(base)
    requires forall i :: 0 <= i < |base| ==> base[i].kind == PositionalOrKeyword || base[i].kind == KeywordOnly
    ensures PositionalCount(base) < |base| && base[PositionalCount(base)].kind == KeywordOnly
  {
  }

  lemma LastPositionalOnly(base: Shape, o: nat) returns (p: nat)
    requires o < |base| && base[o].kind == PositionalOnly
    ensures p < |base| && base[p].kind == PositionalOnly
    ensures forall i :: p < i < |base| ==> base[i].kind != PositionalOnly
    decreases |base| - o
  {
    if i :| o < i < |base| && base[i].kind == PositionalOnly {
      p := LastPositionalOnly(base, i);
    } else {
      p := o;
    }
  }

  /** The gate is exact for a legal old signature if and only if all its parameters are plain. */
  lemma ExactForPlainOnly(base: Shape)
    requires Legal(base)
    ensures (forall pr :: Legal(pr) ==> (Compatible(base, pr, map[]) <==> Preserves(base, pr))) <==> Plain(base)
  {
    if Plain(base) {
      forall pr | Legal(pr) ensures Compatible(base, pr, map[]) <==> Preserves(base, pr) {
        PlainExact(base, pr);
      }
    } else {
      var pr, p := FalseAlarm(base);
    }
  }
}
