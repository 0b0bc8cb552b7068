/**
 Which changes the comparison accepts, told in terms of names, kinds and required flags
 alone: for every kind of parameter, and with approved aliases.
 */
module SignatureAccept {
  import opened SignatureCalls
  import opened SignatureShape

  // ----- the verdict in plain terms

  /** Parameter `j` of the new signature is the old one: its name and kind, and not required where it was not. */
  ghost predicate Stays(b: Param, pr: Shape, j: int) {
    0 <= j < |pr| && pr[j].name == b.name && pr[j].kind == b.kind && (pr[j].required ==> b.required)
  }

  ghost predicate StaysSomewhere(b: Param, pr: Shape) {
    exists j :: Stays(b, pr, j)
  }

  /** Every old parameter is still there. */
  ghost predicate AllStay(base: Shape, pr: Shape) {
    forall i :: 0 <= i < |base| ==> StaysSomewhere(base[i], pr)
  }

  ghost predicate Names(p: Param, b: Param) {
    p.name == b.name
  }

  /** The old parameters come in their old order. */
  ghost predicate OrderKept(base: Shape, pr: Shape) {
    forall i, k, j, l | 0 <= i < k < |base| && 0 <= j < |pr| && 0 <= l < |pr| ::
      Names(pr[j], base[i]) && Names(pr[l], base[k]) ==> j < l
  }

  ghost predicate Known(base: Shape, name: string) {
    exists i :: 0 <= i < |base| && base[i].name == name
  }

  /** A new parameter is optional, and if it can be passed by position, no old one follows it. */
  ghost predicate Unobtrusive(base: Shape, pr: Shape, j: nat)
    requires j < |pr|
  {
    && !pr[j].required
    && (pr[j].kind == PositionalOnly || pr[j].kind == PositionalOrKeyword ==>
          forall l :: j < l < |pr| ==> !Known(base, pr[l].name))
  }

  ghost predicate NewOnesUnobtrusive(base: Shape, pr: Shape) {
    forall j :: 0 <= j < |pr| && !Known(base, pr[j].name) ==> Unobtrusive(base, pr, j)
  }

  // ----- from an embedding, and back

  lemma PlaceIs(base: Shape, pr: Shape, f: seq<nat>, i: nat, j: nat)
    requires UniqueNames(pr) && Embeds(base, pr, f) && i < |base| && j < |pr| && pr[j].name == base[i].name
    ensures f[i] == j
  {
    hide Leftover, Replaces;
    assert StandsFor(base[i], pr, f[i]);
    SameName(pr, f[i], j);
  }

  lemma SameName(sig: Shape, i: nat, j: nat)
    requires UniqueNames(sig) && i < |sig| && j < |sig|
    ensures sig[i].name == sig[j].name ==> i == j
  {
    assert i < j ==> sig[i].name != sig[j].name;
    assert j < i ==> sig[j].name != sig[i].name;
  }

  lemma EmbeddedStay(base: Shape, pr: Shape, f: seq<nat>)
    requires Embeds(base, pr, f)
    ensures AllStay(base, pr)
  {
    hide Leftover;
    forall i | 0 <= i < |base| ensures StaysSomewhere(base[i], pr) {
      assert StandsFor(base[i], pr, f[i]);
      assert Stays(base[i], pr, f[i]);
    }
  }

  lemma EmbeddedOrder(base: Shape, pr: Shape, f: seq<nat>)
    requires UniqueNames(pr) && Embeds(base, pr, f)
    ensures OrderKept(base, pr)
  {
    hide Embeds, UniqueNames;
    forall i, k, j, l | 0 <= i < k < |base| && 0 <= j < |pr| && 0 <= l < |pr|
                        && Names(pr[j], base[i]) && Names(pr[l], base[k])
      ensures j < l
    {
      PlaceIs(base, pr, f, i, j);
      PlaceIs(base, pr, f, k, l);
      EmbedsGrows(base, pr, f, i, k);
    }
  }

  lemma EmbedsGrows(base: Shape, pr: Shape, f: seq<nat>, i: nat, k: nat)
    requires Embeds(base, pr, f) && i < k < |base|
    ensures |f| == |base| && f[i] < f[k]
  {
    hide Leftover, StandsFor;
  }

  lemma EmbeddedUnobtrusive(base: Shape, pr: Shape, f: seq<nat>, j: nat)
    requires UniqueNames(pr) && Embeds(base, pr, f) && j < |pr| && !Known(base, pr[j].name)
    ensures Unobtrusive(base, pr, j)
  {
    hide UniqueNames, Replaces;
    forall i | 0 <= i < |f| ensures f[i] != j {
      assert StandsFor(base[i], pr, f[i]);
    }
    assert Leftover(pr, f, j);
    if pr[j].kind.Positional() {
      forall l, i | 0 <= l < |pr| && 0 <= i < |base| && base[i].name == pr[l].name ensures l <= j {
        PlaceIs(base, pr, f, i, l);
        if i < |f| - 1 {
          EmbedsGrows(base, pr, f, i, |f| - 1);
        }
      }
    }
  }

  lemma AcceptedMeans(base: Shape, pr: Shape)
    requires UniqueNames(pr) && Compatible(base, pr, map[])
    ensures AllStay(base, pr) && OrderKept(base, pr) && NewOnesUnobtrusive(base, pr)
  {
    hide Embeds, UniqueNames, Compatible, Unobtrusive, Known;
    var f := CompatibleEmbeds(base, pr);
    EmbeddedStay(base, pr, f);
    EmbeddedOrder(base, pr, f);
    forall j | 0 <= j < |pr| && !Known(base, pr[j].name) ensures Unobtrusive(base, pr, j) {
      EmbeddedUnobtrusive(base, pr, f, j);
    }
  }

  ghost function Places(base: Shape, pr: Shape): (f: seq<nat>)
    requires AllStay(base, pr)
    ensures |f| == |base| && forall i :: 0 <= i < |f| ==> Stays(base[i], pr, f[i])
  {
    seq(|base|, i requires 0 <= i < |base| => assert StaysSomewhere(base[i], pr); var j :| Stays(base[i], pr, j); j)
  }

  lemma MeansAccepted(base: Shape, pr: Shape)
    requires UniqueNames(pr)
    requires AllStay(base, pr) && OrderKept(base, pr) && NewOnesUnobtrusive(base, pr)
    ensures Compatible(base, pr, map[])
  {
    hide Compatible, UniqueNames, AllStay, Unobtrusive, Leftover;
    var f := Places(base, pr);
    forall i, k | 0 <= i < k < |f| ensures f[i] < f[k] {
      assert Stays(base[i], pr, f[i]) && Stays(base[k], pr, f[k]);
      assert Names(pr[f[i]], base[i]) && Names(pr[f[k]], base[k]);
    }
    forall i | 0 <= i < |f| ensures StandsFor(base[i], pr, f[i]) {
      assert Stays(base[i], pr, f[i]);
    }
    forall j | 0 <= j < |pr| && j !in f ensures Leftover(pr, f, j) {
      NotPlaced(base, pr, f, j);
    }
    assert Embeds(base, pr, f);
    EmbedsCompatible(base, pr, f);
  }

  lemma NotPlaced(base: Shape, pr: Shape, f: seq<nat>, j: nat)
    requires UniqueNames(pr) && NewOnesUnobtrusive(base, pr)
    requires |f| == |base| && forall i :: 0 <= i < |f| ==> Stays(base[i], pr, f[i])
    requires j < |pr| && j !in f
    ensures Leftover(pr, f, j)
  {
    forall i | 0 <= i < |base| ensures base[i].name != pr[j].name {
      assert Stays(base[i], pr, f[i]) && f[i] != j;
    }
    assert Unobtrusive(base, pr, j);
    if f != [] {
      var last := |f| - 1;
      assert Stays(base[last], pr, f[last]);
      assert Known(base, pr[f[last]].name);
    }
  }

  /** The whole verdict on new signatures of distinct names, without aliases. */
  lemma AcceptedExactly(base: Shape, pr: Shape)
    requires UniqueNames(pr)
    ensures Compatible(base, pr, map[]) <==> AllStay(base, pr) && OrderKept(base, pr) && NewOnesUnobtrusive(base, pr)
  {
    hide Compatible, AllStay, OrderKept, NewOnesUnobtrusive;
    if Compatible(base, pr, map[]) {
      AcceptedMeans(base, pr);
    } else if AllStay(base, pr) && OrderKept(base, pr) && NewOnesUnobtrusive(base, pr) {
      MeansAccepted(base, pr);
    }
  }

  // ----- changes that are never reported

  ghost predicate Relaxes(base: Shape, pr: Shape) {
    |pr| == |base| && forall i :: 0 <= i < |base| ==> Stays(base[i], pr, i)
  }

  lemma RelaxedOrder(base: Shape, pr: Shape)
    requires UniqueNames(pr) && Relaxes(base, pr)
    ensures OrderKept(base, pr)
  {
    hide UniqueNames;
    forall i, k, j, l | 0 <= i < k < |base| && 0 <= j < |pr| && 0 <= l < |pr|
                        && Names(pr[j], base[i]) && Names(pr[l], base[k])
      ensures j < l
    {
      assert Stays(base[i], pr, i) && Stays(base[k], pr, k);
      SameName(pr, i, j);
      SameName(pr, k, l);
    }
  }

  /** Making parameters optional, of whatever kind, is not breaking. */
  lemma RelaxingAccepted(base: Shape, pr: Shape)
    requires UniqueNames(base) && Relaxes(base, pr)
    ensures Compatible(base, pr, map[])
  {
    hide Compatible, OrderKept;
    assert forall i :: 0 <= i < |pr| ==> Stays(base[i], pr, i) && pr[i].name == base[i].name;
    assert forall i :: 0 <= i < |pr| ==> Known(base, pr[i].name);
    assert UniqueNames(pr);
    assert forall i :: 0 <= i < |base| ==> StaysSomewhere(base[i], pr);
    RelaxedOrder(base, pr);
    MeansAccepted(base, pr);
  }

  /** The signature with `p` put in at `at`. */
  function With(pr: Shape, at: nat, p: Param): (r: Shape)
    requires at <= |pr|
    ensures |r| == |pr| + 1 && r[at] == p
    ensures forall j :: 0 <= j < |pr| ==> r[Beyond(at, j)] == pr[j]
  {
    pr[..at] + [p] + pr[at..]
  }

  function Beyond(at: nat, j: nat): nat {
    if j < at then j else j + 1
  }

  lemma BeforeWith(at: nat, m: nat) returns (j: nat)
    requires m != at
    ensures Beyond(at, j) == m && j <= m
    ensures m > at ==> j == m - 1
  {
    j := if m < at then m else m - 1;
  }

  /** Nor is one more optional parameter that cannot be passed by position, anywhere. */
  lemma AddingAccepted(base: Shape, pr: Shape, at: nat, p: Param)
    requires UniqueNames(pr) && Compatible(base, pr, map[]) && at <= |pr|
    requires !p.required && (p.kind == VarPositional || p.kind == KeywordOnly || p.kind == VarKeyword)
    requires !Known(base, p.name) && !Known(pr, p.name)
    ensures UniqueNames(With(pr, at, p)) && Compatible(base, With(pr, at, p), map[])
  {
    hide Compatible, With, AllStay, OrderKept, NewOnesUnobtrusive, UniqueNames;
    AcceptedMeans(base, pr);
    WithUnique(pr, at, p);
    WithStay(base, pr, at, p);
    WithOrder(base, pr, at, p);
    WithUnobtrusive(base, pr, at, p);
    MeansAccepted(base, With(pr, at, p));
  }

  lemma WithUnique(pr: Shape, at: nat, p: Param)
    requires UniqueNames(pr) && at <= |pr| && !Known(pr, p.name)
    ensures UniqueNames(With(pr, at, p))
  {
    hide With;
    var more := With(pr, at, p);
    forall m, n | 0 <= m < n < |more| ensures more[m].name != more[n].name {
      if m == at {
        var l := BeforeWith(at, n);
        assert more[n] == pr[l];
      } else {
        var j := BeforeWith(at, m);
        assert more[m] == pr[j];
        if n != at {
          var l := BeforeWith(at, n);
          assert more[n] == pr[l] && j < l;
        }
      }
    }
  }

  lemma WithStay(base: Shape, pr: Shape, at: nat, p: Param)
    requires AllStay(base, pr) && at <= |pr|
    ensures AllStay(base, With(pr, at, p))
  {
    hide With;
    forall i | 0 <= i < |base| ensures StaysSomewhere(base[i], With(pr, at, p)) {
      assert StaysSomewhere(base[i], pr);
      var j :| Stays(base[i], pr, j);
      assert With(pr, at, p)[Beyond(at, j)] == pr[j];
      assert Stays(base[i], With(pr, at, p), Beyond(at, j));
    }
  }

  lemma WithOrder(base: Shape, pr: Shape, at: nat, p: Param)
    requires OrderKept(base, pr) && at <= |pr| && !Known(base, p.name)
    ensures OrderKept(base, With(pr, at, p))
  {
    hide With;
    var more := With(pr, at, p);
    forall i, k, m, n | 0 <= i < k < |base| && 0 <= m < |more| && 0 <= n < |more|
                        && Names(more[m], base[i]) && Names(more[n], base[k])
      ensures m < n
    {
      assert m != at && n != at;
      var j := BeforeWith(at, m);
      var l := BeforeWith(at, n);
      assert more[m] == pr[j] && more[n] == pr[l];
      assert Names(pr[j], base[i]) && Names(pr[l], base[k]);
    }
  }

  lemma WithUnobtrusive(base: Shape, pr: Shape, at: nat, p: Param)
    requires NewOnesUnobtrusive(base, pr) && at <= |pr|
    requires !p.required && !p.kind.Positional() && !Known(base, p.name)
    ensures NewOnesUnobtrusive(base, With(pr, at, p))
  {
    hide With, Known, Unobtrusive;
    var more := With(pr, at, p);
    forall m | 0 <= m < |more| && !Known(base, more[m].name) ensures Unobtrusive(base, more, m) {
      if m == at {
        AddedUnobtrusive(base, more, at);
      } else {
        var j := BeforeWith(at, m);
        assert more[m] == pr[j] && Unobtrusive(base, pr, j);
        StaysUnobtrusive(base, pr, at, p, m, j);
      }
    }
  }

  lemma AddedUnobtrusive(base: Shape, more: Shape, at: nat)
    requires at < |more| && !more[at].required && !more[at].kind.Positional()
    ensures Unobtrusive(base, more, at)
  {
    hide Known;
  }

  lemma StaysUnobtrusive(base: Shape, pr: Shape, at: nat, p: Param, m: nat, j: nat)
    requires at <= |pr| && !Known(base, p.name) && m != at && Beyond(at, j) == m && j < |pr|
    requires Unobtrusive(base, pr, j)
    ensures Unobtrusive(base, With(pr, at, p), m)
  {
    hide With, Known;
    var more := With(pr, at, p);
    assert more[m] == pr[j];
    if pr[j].kind.Positional() {
      forall n | m < n < |more| ensures !Known(base, more[n].name) {
        if n != at {
          var l := BeforeWith(at, n);
          assert more[n] == pr[l] && j < l;
        }
      }
    }
  }

  // ----- approved aliases

  /** The new signature with every alias replaced by the old name it is approved for. */
  function Unaliased(pr: Shape, aliases: map<string, string>): (r: Shape)
    ensures |r| == |pr|
    ensures forall j :: 0 <= j < |r| ==>
              r[j] == if pr[j].name in aliases then pr[j].(name := aliases[pr[j].name]) else pr[j]
  {
    seq(|pr|, j requires 0 <= j < |pr| =>
      if pr[j].name in aliases then pr[j].(name := aliases[pr[j].name]) else pr[j])
  }

  /** No alias is itself the name of an old parameter. */
  ghost predicate Unambiguous(base: Shape, pr: Shape, aliases: map<string, string>) {
    forall j :: 0 <= j < |pr| && pr[j].name in aliases ==> !Known(base, pr[j].name)
  }

  lemma {:induction false} FirstMatchUnaliased(pr: Shape, name: string, aliases: map<string, string>)
    requires forall j :: 0 <= j < |pr| && pr[j].name in aliases ==> pr[j].name != name
    ensures FirstMatch(pr, name, aliases) == FirstMatch(Unaliased(pr, aliases), name, map[])
  {
    if pr != [] {
      FirstMatchUnaliased(pr[1..], name, aliases);
      assert Unaliased(pr, aliases)[1..] == Unaliased(pr[1..], aliases);
    }
  }

  lemma UnaliasedParts(pr: Shape, aliases: map<string, string>, i: nat)
    requires i < |pr|
    ensures AllInsertable(pr[..i]) == AllInsertable(Unaliased(pr, aliases)[..i])
    ensures Unaliased(pr[i + 1..], aliases) == Unaliased(pr, aliases)[i + 1..]
  {
    var old_ := Unaliased(pr, aliases);
    assert forall j :: 0 <= j < i ==> Insertable(pr[..i][j]) == Insertable(old_[..i][j]);
  }

  lemma UnaliasedOptional(pr: Shape, aliases: map<string, string>)
    ensures AllOptional(pr) == AllOptional(Unaliased(pr, aliases))
  {
    var old_ := Unaliased(pr, aliases);
    assert forall j :: 0 <= j < |pr| ==> pr[j].required == old_[j].required;
  }

  lemma UnambiguousTail(base: Shape, pr: Shape, aliases: map<string, string>, i: nat)
    requires Unambiguous(base, pr, aliases) && base != [] && i < |pr|
    ensures Unambiguous(base[1..], pr[i + 1..], aliases)
  {
    var later := pr[i + 1..];
    forall j | 0 <= j < |later| && later[j].name in aliases ensures !Known(base[1..], later[j].name) {
      assert later[j] == pr[i + 1 + j];
      assert forall k :: 0 <= k < |base[1..]| ==> base[1..][k] == base[k + 1];
    }
  }

  /** With aliases, the verdict is the one on the new signature under its old names. */
  lemma {:induction false} AliasIsRenaming(base: Shape, pr: Shape, aliases: map<string, string>)
    requires Unambiguous(base, pr, aliases)
    ensures Compatible(base, pr, aliases) == Compatible(base, Unaliased(pr, aliases), map[])
    decreases base
  {
    hide Unambiguous, AllInsertable, AllOptional, Unaliased, FirstMatch;
    UnaliasedOptional(pr, aliases);
    if base != [] {
      NotBaseName(base, pr, aliases);
      FirstMatchUnaliased(pr, base[0].name, aliases);
      var i := FirstMatch(pr, base[0].name, aliases);
      if i < |pr| {
        UnaliasedParts(pr, aliases, i);
        UnambiguousTail(base, pr, aliases, i);
        AliasIsRenaming(base[1..], pr[i + 1..], aliases);
      }
    }
  }

  lemma NotBaseName(base: Shape, pr: Shape, aliases: map<string, string>)
    requires Unambiguous(base, pr, aliases) && base != []
    ensures forall j :: 0 <= j < |pr| && pr[j].name in aliases ==> pr[j].name != base[0].name
  {
  }

  /** The table maps new names to old ones; read the other way it accepts nothing. */
  lemma AliasOneWay(old_: Param, new_: Param)
    requires old_.name != new_.name && old_.kind == new_.kind && old_.required == new_.required
    ensures Compatible([old_], [new_], map[new_.name := old_.name])
    ensures !Compatible([new_], [old_], map[new_.name := old_.name])
    ensures !Compatible([old_], [new_], map[])
  {
    var one, other := [old_], [new_];
    assert one[1..] == [] && other[1..] == [] && other[..0] == [] && one[..0] == [];
    assert FirstMatch(other, old_.name, map[new_.name := old_.name]) == 0;
  }
}
