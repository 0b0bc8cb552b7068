/**
 The meaning the API-surface gate is there to protect: which calls bind, and to what,
 after the Python Language Reference, section 6.3.4 (Calls).  The decision is sound for
 it, is a preorder, and is exact for plain old signatures.
 */
module SignatureCalls {
  import opened SignatureShape

  // ----- what a call does with its arguments (section 6.3.4)

  /** A call, seen from the outside: how many positional arguments and which keywords. */
  datatype Call = Call(positional: nat, keywords: set<string>)

  /** Where one argument ends up. */
  datatype Slot = Named(name: string) | ExtraPositional(index: nat) | ExtraKeyword(name: string) | Rejected

  function PositionalCount(sig: Shape): (n: nat)
    ensures n <= |sig|
    ensures forall i :: 0 <= i < n ==> sig[i].kind.Positional()
    ensures n < |sig| ==> !sig[n].kind.Positional()
  {
    if sig != [] && sig[0].kind.Positional() then 1 + PositionalCount(sig[1..]) else 0
  }

  ghost predicate HasKind(sig: Shape, kind: Kind) {
    exists i :: 0 <= i < |sig| && sig[i].kind == kind
  }

  ghost predicate KeywordIndex(sig: Shape, name: string, i: int) {
    0 <= i < |sig| && sig[i].name == name && sig[i].kind.AcceptsKeyword()
  }

  ghost function PositionalSlot(sig: Shape, i: nat): Slot {
    if i < PositionalCount(sig) then Named(sig[i].name)
    else if HasKind(sig, VarPositional) then ExtraPositional(i - PositionalCount(sig))
    else Rejected
  }

  ghost function KeywordSlot(sig: Shape, positional: nat, name: string): Slot {
    if exists i :: KeywordIndex(sig, name, i) then
      var i :| KeywordIndex(sig, name, i);
      if sig[i].kind.Positional() && i < positional then Rejected else Named(name)
    else if HasKind(sig, VarKeyword) then ExtraKeyword(name)
    else Rejected
  }

  // A parameter without a default must receive an argument.
  ghost predicate Filled(sig: Shape, call: Call, i: nat)
    requires i < |sig|
  {
    || (sig[i].kind.Positional() && i < call.positional)
    || (sig[i].kind.AcceptsKeyword() && sig[i].name in call.keywords)
  }

  ghost predicate Binds(sig: Shape, call: Call) {
    && (forall i: nat :: i < call.positional ==> PositionalSlot(sig, i) != Rejected)
    && (forall k :: k in call.keywords ==> KeywordSlot(sig, call.positional, k) != Rejected)
    && (forall i :: 0 <= i < |sig| && sig[i].required ==> Filled(sig, call, i))
  }

  // ----- the decision, read as an embedding of the old parameters into the new

  /** `f` sends each old parameter to the new one that stands for it. */
  ghost predicate Embeds(base: Shape, pr: Shape, f: seq<nat>) {
    && |f| == |base|
    && Increasing(f)
    && (forall i :: 0 <= i < |f| ==> StandsFor(base[i], pr, f[i]))
    && (forall j :: 0 <= j < |pr| && j !in f ==> Leftover(pr, f, j))
  }

  ghost predicate Increasing(f: seq<nat>) {
    forall i, j :: 0 <= i < j < |f| ==> f[i] < f[j]
  }

  ghost predicate StandsFor(b: Param, pr: Shape, j: nat) {
    j < |pr| && pr[j].name == b.name && Replaces(b, pr[j])
  }

  // A new parameter that stands for no old one is optional, and not positional
  // unless it comes after all those that do.
  ghost predicate Leftover(pr: Shape, f: seq<nat>, j: nat)
    requires j < |pr|
  {
    && !pr[j].required
    && (f != [] && j < f[|f| - 1] ==> !pr[j].kind.Positional())
  }

  function Shifted(f: seq<nat>, d: nat): (g: seq<nat>)
    ensures |g| == |f| && forall i :: 0 <= i < |f| ==> g[i] == f[i] + d
  {
    seq(|f|, i requires 0 <= i < |f| => f[i] + d)
  }

  lemma LeftoverCons(pr: Shape, i: nat, g: seq<nat>, j: nat)
    requires i < |pr| && forall k :: 0 <= k < i ==> Insertable(pr[k])
    requires i < j < |pr| ==> j - i - 1 !in g && Leftover(pr[i + 1..], g, j - i - 1)
    requires j < |pr| && j != i
    ensures Leftover(pr, [i] + Shifted(g, i + 1), j)
  {
    if i < j {
      assert pr[i + 1..][j - i - 1] == pr[j];
    } else {
      assert Insertable(pr[j]);
    }
  }

  lemma ShiftedMember(g: seq<nat>, d: nat, j: nat)
    requires j in g
    ensures j + d in Shifted(g, d)
  {
    var k :| 0 <= k < |g| && g[k] == j;
    assert Shifted(g, d)[k] == j + d;
  }

  lemma EmbedsCons(b: Param, base: Shape, pr: Shape, i: nat, g: seq<nat>)
    requires StandsFor(b, pr, i)
    requires forall j :: 0 <= j < i ==> Insertable(pr[j])
    requires Embeds(base, pr[i + 1..], g)
    ensures Embeds([b] + base, pr, [i] + Shifted(g, i + 1))
  {
    hide Insertable, Leftover, Replaces;
    var f, rest := [i] + Shifted(g, i + 1), pr[i + 1..];
    forall k | 0 <= k < |f| ensures StandsFor(([b] + base)[k], pr, f[k]) {
      if k > 0 {
        assert StandsFor(base[k - 1], rest, g[k - 1]);
      }
    }
    forall x: nat | x in g ensures x + i + 1 in f {
      ShiftedMember(g, i + 1, x);
    }
    forall j | 0 <= j < |pr| && j !in f ensures Leftover(pr, f, j) {
      assert j != i by { assert f[0] == i; }
      if i < j {
        assert Leftover(rest, g, j - i - 1);
      }
      LeftoverCons(pr, i, g, j);
    }
  }

  lemma {:induction false} CompatibleEmbeds(base: Shape, pr: Shape) returns (f: seq<nat>)
    requires Compatible(base, pr, map[])
    ensures Embeds(base, pr, f)
  {
    if base == [] {
      f := [];
    } else {
      hide Insertable, Replaces;
      var i := FirstMatch(pr, base[0].name, map[]);
      var g := CompatibleEmbeds(base[1..], pr[i + 1..]);
      assert forall j :: 0 <= j < i ==> pr[..i][j] == pr[j];
      EmbedsCons(base[0], base[1..], pr, i, g);
      assert base == [base[0]] + base[1..];
      f := [i] + Shifted(g, i + 1);
    }
  }

  function Unshifted(f: seq<nat>, d: nat): (g: seq<nat>)
    requires forall k :: 0 <= k < |f| ==> f[k] >= d
    ensures |g| == |f| && forall k :: 0 <= k < |f| ==> g[k] == f[k] - d
  {
    seq(|f|, k requires 0 <= k < |f| => f[k] - d)
  }

  lemma LeftoverTail(pr: Shape, f: seq<nat>, g: seq<nat>, j: nat)
    requires f != [] && Increasing(f) && f[0] < |pr| && j < |pr| - f[0] - 1
    requires |g| == |f| - 1 && forall k :: 0 <= k < |g| ==> f[k + 1] == g[k] + f[0] + 1
    requires Leftover(pr, f, j + f[0] + 1)
    ensures Leftover(pr[f[0] + 1..], g, j)
  {
    assert g != [] ==> g[|g| - 1] == f[|f| - 1] - f[0] - 1;
  }

  lemma TailMember(f: seq<nat>, g: seq<nat>, j: nat)
    requires f != [] && |g| == |f| - 1 && forall k :: 0 <= k < |g| ==> f[k + 1] == g[k] + f[0] + 1
    requires j !in g
    ensures j + f[0] + 1 !in f
  {
    forall k | 0 <= k < |f| ensures f[k] != j + f[0] + 1 {
      assert k > 0 ==> g[k - 1] in g;
    }
  }

  lemma EmbedsTail(base: Shape, pr: Shape, f: seq<nat>) returns (g: seq<nat>)
    requires base != [] && Embeds(base, pr, f)
    ensures StandsFor(base[0], pr, f[0])
    ensures Embeds(base[1..], pr[f[0] + 1..], g)
    ensures AllInsertable(pr[..f[0]])
  {
    hide Leftover, Replaces;
    var i, rest := f[0], pr[f[0] + 1..];
    g := Unshifted(f[1..], i + 1);
    forall k | 0 <= k < |g| ensures StandsFor(base[1..][k], rest, g[k]) {
      assert StandsFor(base[k + 1], pr, f[k + 1]);
    }
    forall j | 0 <= j < |rest| && j !in g ensures Leftover(rest, g, j) {
      TailMember(f, g, j);
      assert Leftover(pr, f, j + i + 1);
      LeftoverTail(pr, f, g, j);
    }
    BeforeFirst(pr, f);
  }

  lemma BeforeFirst(pr: Shape, f: seq<nat>)
    requires f != [] && Increasing(f) && f[0] < |pr|
    requires forall j :: 0 <= j < |pr| && j !in f ==> Leftover(pr, f, j)
    ensures AllInsertable(pr[..f[0]])
  {
    forall j | 0 <= j < f[0] ensures Insertable(pr[j]) {
      assert forall k :: 0 <= k < |f| ==> f[k] >= f[0];
      assert Leftover(pr, f, j);
    }
  }

  lemma {:induction false} EmbedsCompatible(base: Shape, pr: Shape, f: seq<nat>)
    requires UniqueNames(pr)
    requires Embeds(base, pr, f)
    ensures Compatible(base, pr, map[])
  {
    if base == [] {
      forall j | 0 <= j < |pr| ensures !pr[j].required {
        assert j !in f;
        assert Leftover(pr, f, j);
      }
    } else {
      var g := EmbedsTail(base, pr, f);
      assert FirstMatch(pr, base[0].name, map[]) == f[0];
      EmbedsCompatible(base[1..], pr[f[0] + 1..], g);
    }
  }

  // ----- a preorder

  lemma {:induction false} CompatibleReflexive(sig: Shape)
    requires UniqueNames(sig)
    ensures Compatible(sig, sig, map[])
  {
    var f: seq<nat> := seq(|sig|, i => i);
    forall j | 0 <= j < |sig| ensures j in f {
      assert f[j] == j;
    }
    EmbedsCompatible(sig, sig, f);
  }

  lemma {:induction false} CompatibleTransitive(a: Shape, b: Shape, c: Shape)
    requires UniqueNames(c)
    requires Compatible(a, b, map[]) && Compatible(b, c, map[])
    ensures Compatible(a, c, map[])
  {
    var f := CompatibleEmbeds(a, b);
    var g := CompatibleEmbeds(b, c);
    var h := Composed(f, g);
    assert Embeds(a, c, h) by { EmbedsCompose(a, b, c, f, g); }
    EmbedsCompatible(a, c, h);
  }

  function Composed(f: seq<nat>, g: seq<nat>): (h: seq<nat>)
    requires forall i :: 0 <= i < |f| ==> f[i] < |g|
    ensures |h| == |f| && forall i :: 0 <= i < |f| ==> h[i] == g[f[i]]
  {
    seq(|f|, i requires 0 <= i < |f| => g[f[i]])
  }

  lemma EmbedsCompose(a: Shape, b: Shape, c: Shape, f: seq<nat>, g: seq<nat>)
    requires Embeds(a, b, f) && Embeds(b, c, g)
    ensures forall i :: 0 <= i < |f| ==> f[i] < |g|
    ensures Embeds(a, c, Composed(f, g))
  {
    forall i | 0 <= i < |f| ensures f[i] < |g| {
      assert StandsFor(a[i], b, f[i]);
    }
    var h := Composed(f, g);
    forall i | 0 <= i < |h| ensures StandsFor(a[i], c, h[i]) {
      assert StandsFor(a[i], b, f[i]) && StandsFor(b[f[i]], c, g[f[i]]);
    }
    forall j | 0 <= j < |c| && j !in h ensures Leftover(c, h, j) {
      LeftoverCompose(a, b, c, f, g, j);
    }
  }

  lemma LeftoverCompose(a: Shape, b: Shape, c: Shape, f: seq<nat>, g: seq<nat>, j: nat)
    requires Embeds(a, b, f) && Embeds(b, c, g)
    requires forall i :: 0 <= i < |f| ==> f[i] < |g|
    requires j < |c| && j !in Composed(f, g)
    ensures Leftover(c, Composed(f, g), j)
  {
    var h := Composed(f, g);
    if m :| 0 <= m < |g| && g[m] == j {
      forall i | 0 <= i < |f| ensures f[i] != m {
        assert h[i] in h;
      }
      assert Leftover(b, f, m) && StandsFor(b[m], c, j);
      assert h != [] && f[|f| - 1] < m ==> h[|h| - 1] < j;
    } else {
      assert j !in g;
      assert Leftover(c, g, j);
      assert h != [] ==> h[|h| - 1] <= g[|g| - 1];
    }
  }

  // ----- soundness: a change the gate lets through breaks no call

  lemma RankOrder(sig: Shape, i: nat, j: nat)
    requires Canonical(sig) && i <= j < |sig|
    ensures sig[i].kind.Rank() <= sig[j].kind.Rank()
  {
  }

  lemma PositionalPrefix(sig: Shape, i: nat)
    requires Canonical(sig) && i < |sig|
    ensures sig[i].kind.Positional() <==> i < PositionalCount(sig)
  {
    hide Canonical;
    var n := PositionalCount(sig);
    if n < i {
      RankOrder(sig, n, i);
    }
  }

  lemma {:induction false} PositionalsStayInPlace(base: Shape, pr: Shape, f: seq<nat>, i: nat)
    requires Canonical(pr) && Embeds(base, pr, f)
    requires i < PositionalCount(base)
    ensures f[i] == i
  {
    hide Canonical;
    if i > 0 {
      PositionalsStayInPlace(base, pr, f, i - 1);
    }
    assert StandsFor(base[i], pr, f[i]);
    RankOrder(pr, i, f[i]);
    assert i !in f ==> Leftover(pr, f, i);
    assert f[i] <= f[|f| - 1];
  }

  lemma {:induction false} PositionalCounts(base: Shape, pr: Shape, f: seq<nat>)
    requires Canonical(base) && Canonical(pr) && Embeds(base, pr, f)
    ensures PositionalCount(base) <= PositionalCount(pr)
    ensures HasKind(base, VarPositional) ==> PositionalCount(base) == PositionalCount(pr)
  {
    hide Canonical;
    var n, m := PositionalCount(base), PositionalCount(pr);
    if m < n {
      PositionalsStayInPlace(base, pr, f, m);
    }
    if HasKind(base, VarPositional) && n < m {
      var v :| 0 <= v < |base| && base[v].kind == VarPositional;
      NoNewPositional(base, pr, f, v);
    }
  }

  // No positional parameter can have been added in front of an old *args.
  lemma {:induction false} NoNewPositional(base: Shape, pr: Shape, f: seq<nat>, v: nat)
    requires Canonical(base) && Canonical(pr) && Embeds(base, pr, f)
    requires v < |base| && base[v].kind == VarPositional
    ensures PositionalCount(pr) <= PositionalCount(base)
  {
    hide Canonical;
    var n, m := PositionalCount(base), PositionalCount(pr);
    assert StandsFor(base[v], pr, f[v]);
    PositionalPrefix(pr, f[v]);
    if n < m {
      assert n < f[v] <= f[|f| - 1];
      assert n in f || Leftover(pr, f, n);
      forall k | 0 <= k < |f| ensures f[k] != n {
        assert StandsFor(base[k], pr, f[k]);
        PositionalPrefix(base, k);
        if k < n {
          PositionalsStayInPlace(base, pr, f, k);
        }
      }
    }
  }

  // Every argument of a surviving call reaches the parameter of the same name; only
  // a keyword the old signature swept into its ** parameter may get a name of its own.
  ghost predicate SameDelivery(base: Shape, pr: Shape, call: Call) {
    && (forall i: nat :: i < call.positional ==> PositionalSlot(pr, i) == PositionalSlot(base, i))
    && (forall k :: k in call.keywords ==> Redelivered(base, pr, call.positional, k))
  }

  ghost predicate Redelivered(base: Shape, pr: Shape, positional: nat, k: string) {
    var was, now := KeywordSlot(base, positional, k), KeywordSlot(pr, positional, k);
    now == was || (was == ExtraKeyword(k) && now == Named(k))
  }

  lemma SurvivingPositional(base: Shape, pr: Shape, f: seq<nat>, i: nat)
    requires Legal(base) && Legal(pr) && Embeds(base, pr, f)
    requires PositionalSlot(base, i) != Rejected
    ensures PositionalSlot(pr, i) == PositionalSlot(base, i)
  {
    PositionalCounts(base, pr, f);
    if i < PositionalCount(base) {
      PositionalsStayInPlace(base, pr, f, i);
    } else {
      var v :| 0 <= v < |base| && base[v].kind == VarPositional;
      assert pr[f[v]].kind == VarPositional;
    }
  }

  // The index behind a keyword is unique, and so is what the keyword means.
  lemma KeywordSlotAt(sig: Shape, positional: nat, name: string, i: nat)
    requires UniqueNames(sig) && KeywordIndex(sig, name, i)
    ensures KeywordSlot(sig, positional, name)
         == if sig[i].kind.Positional() && i < positional then Rejected else Named(name)
  {
    assert forall j :: KeywordIndex(sig, name, j) ==> j == i;
  }

  lemma NamedKeyword(base: Shape, pr: Shape, f: seq<nat>, positional: nat, k: string, i: nat)
    requires Legal(base) && Legal(pr) && Embeds(base, pr, f) && KeywordIndex(base, k, i)
    ensures KeywordSlot(pr, positional, k) == KeywordSlot(base, positional, k)
  {
    hide Canonical;
    assert StandsFor(base[i], pr, f[i]);
    KeywordSlotAt(base, positional, k, i);
    KeywordSlotAt(pr, positional, k, f[i]);
    if base[i].kind.Positional() {
      PositionalPrefix(base, i);
      PositionalsStayInPlace(base, pr, f, i);
    }
  }

  // A parameter that picks up a keyword from an old **kwargs was inserted before it,
  // so it is keyword-only.
  lemma AdoptedKeyword(base: Shape, pr: Shape, f: seq<nat>, k: string, j: nat, v: nat)
    requires Canonical(pr) && Embeds(base, pr, f)
    requires v < |base| && base[v].kind == VarKeyword
    requires KeywordIndex(pr, k, j) && forall i :: !KeywordIndex(base, k, i)
    ensures pr[j].kind == KeywordOnly
  {
    hide Canonical;
    assert StandsFor(base[v], pr, f[v]);
    if f[v] <= j {
      RankOrder(pr, f[v], j);
    }
    forall i | 0 <= i < |f| ensures f[i] != j {
      assert StandsFor(base[i], pr, f[i]) && !KeywordIndex(base, k, i);
    }
    assert Leftover(pr, f, j) && f[v] <= f[|f| - 1];
  }

  lemma SurvivingKeyword(base: Shape, pr: Shape, f: seq<nat>, positional: nat, k: string)
    requires Legal(base) && Legal(pr) && Embeds(base, pr, f)
    requires KeywordSlot(base, positional, k) != Rejected
    ensures Redelivered(base, pr, positional, k)
  {
    hide Canonical, UniqueNames;
    if i :| KeywordIndex(base, k, i) {
      NamedKeyword(base, pr, f, positional, k, i);
    } else {
      var v :| 0 <= v < |base| && base[v].kind == VarKeyword;
      assert StandsFor(base[v], pr, f[v]);
      if j :| KeywordIndex(pr, k, j) {
        AdoptedKeyword(base, pr, f, k, j, v);
        KeywordSlotAt(pr, positional, k, j);
      }
    }
  }

  lemma SurvivingRequired(base: Shape, pr: Shape, f: seq<nat>, call: Call, j: nat)
    requires Legal(base) && Legal(pr) && Embeds(base, pr, f)
    requires Binds(base, call)
    requires j < |pr| && pr[j].required
    ensures Filled(pr, call, j)
  {
    assert !Leftover(pr, f, j);
    var i :| 0 <= i < |f| && f[i] == j;
    assert StandsFor(base[i], pr, j) && Filled(base, call, i);
    if base[i].kind.Positional() {
      PositionalPrefix(base, i);
      PositionalsStayInPlace(base, pr, f, i);
    }
  }

  lemma {:induction false} CompatibleCallsSurvive(base: Shape, pr: Shape, call: Call)
    requires Legal(base) && Legal(pr)
    requires Compatible(base, pr, map[])
    requires Binds(base, call)
    ensures Binds(pr, call) && SameDelivery(base, pr, call)
  {
    var f := CompatibleEmbeds(base, pr);
    forall i: nat | i < call.positional
      ensures PositionalSlot(pr, i) == PositionalSlot(base, i)
    {
      SurvivingPositional(base, pr, f, i);
    }
    forall k | k in call.keywords
      ensures Redelivered(base, pr, call.positional, k)
    {
      SurvivingKeyword(base, pr, f, call.positional, k);
    }
    forall j | 0 <= j < |pr| && pr[j].required ensures Filled(pr, call, j) {
      SurvivingRequired(base, pr, f, call, j);
    }
  }

  // ----- exactness: for a plain old signature, the gate reports only real breaks

  ghost predicate Plain(sig: Shape) {
    forall i :: 0 <= i < |sig| ==> sig[i].kind == PositionalOrKeyword
  }

  ghost predicate Preserves(base: Shape, pr: Shape) {
    forall call :: Binds(base, call) ==> Binds(pr, call) && SameDelivery(base, pr, call)
  }

  ghost function NamesFrom(sig: Shape, i: nat): set<string>
    requires i <= |sig|
  {
    set j | i <= j < |sig| :: sig[j].name
  }

  // The call that passes the first `i` arguments by position and those from `k` on by keyword.
  ghost function SplitCall(sig: Shape, i: nat, k: nat): Call
    requires k <= |sig|
  {
    Call(i, NamesFrom(sig, k))
  }

  lemma PlainCount(sig: Shape)
    requires Plain(sig)
    ensures PositionalCount(sig) == |sig|
  {
  }

  lemma SplitCallBinds(sig: Shape, i: nat, k: nat)
    requires Legal(sig) && Plain(sig)
    requires i <= k <= |sig| && forall j :: i <= j < k ==> !sig[j].required
    ensures Binds(sig, SplitCall(sig, i, k))
    ensures forall j :: k <= j < |sig| ==> KeywordSlot(sig, i, sig[j].name) == Named(sig[j].name)
  {
    PlainCount(sig);
    forall j | k <= j < |sig| ensures KeywordSlot(sig, i, sig[j].name) == Named(sig[j].name) {
      assert KeywordIndex(sig, sig[j].name, j);
      assert forall j' :: KeywordIndex(sig, sig[j].name, j') ==> j' == j;
    }
  }

  // A preserved plain parameter is still there, in place, under its name, and no stricter.
  lemma PreservedInPlace(base: Shape, pr: Shape, i: nat)
    requires Legal(base) && Legal(pr) && Plain(base) && Preserves(base, pr)
    requires i < |base|
    ensures StandsFor(base[i], pr, i)
  {
    PlainCount(base);
    var all := SplitCall(base, |base|, |base|);
    SplitCallBinds(base, |base|, |base|);
    assert SameDelivery(base, pr, all);
    assert PositionalSlot(base, i) == Named(base[i].name) == PositionalSlot(pr, i);

    var keyed := SplitCall(base, i, i);
    SplitCallBinds(base, i, i);
    assert SameDelivery(base, pr, keyed);
    assert base[i].name in keyed.keywords && Redelivered(base, pr, i, base[i].name);
    assert exists j :: KeywordIndex(pr, base[i].name, j);

    if !base[i].required {
      var omitted := SplitCall(base, i, i + 1);
      SplitCallBinds(base, i, i + 1);
      assert Binds(pr, omitted);
      assert !Filled(pr, omitted, i);
    }
  }

  lemma {:induction false} PlainExact(base: Shape, pr: Shape)
    requires Legal(base) && Legal(pr) && Plain(base)
    ensures Compatible(base, pr, map[]) <==> Preserves(base, pr)
  {
    if Compatible(base, pr, map[]) {
      forall call | Binds(base, call) ensures Binds(pr, call) && SameDelivery(base, pr, call) {
        CompatibleCallsSurvive(base, pr, call);
      }
    }
    if Preserves(base, pr) {
      var f: seq<nat> := seq(|base|, i => i);
      forall i | 0 <= i < |base| ensures StandsFor(base[i], pr, f[i]) {
        PreservedInPlace(base, pr, i);
      }
      SplitCallBinds(base, |base|, |base|);
      assert Binds(pr, SplitCall(base, |base|, |base|));
      forall j | 0 <= j < |base| ensures j in f {
        assert f[j] == j;
      }
      forall j | 0 <= j < |pr| && j !in f ensures Leftover(pr, f, j) {
        assert j >= |base|;
        assert !Filled(pr, SplitCall(base, |base|, |base|), j);
      }
      EmbedsCompatible(base, pr, f);
    }
  }

  // With keyword-only parameters the gate is stricter than the language: it reports
  // their reordering, which no call can see.
  lemma KeywordReorderIsReported()
    ensures
      var x, y := Param("x", KeywordOnly, false), Param("y", KeywordOnly, false);
      Legal([x, y]) && Legal([y, x]) && Preserves([x, y], [y, x]) && !Compatible([x, y], [y, x], map[])
  {
    var x, y := Param("x", KeywordOnly, false), Param("y", KeywordOnly, false);
    var a, b := [x, y], [y, x];
    assert FirstMatch(b, "x", map[]) == 1 by { assert FirstMatch(b[1..], "x", map[]) == 0; }
    assert a[1..] == [y] && b[2..] == [];
    assert FirstMatch(b[2..], "y", map[]) == 0;
    assert PositionalCount(a) == 0 == PositionalCount(b);
    forall call | Binds(a, call) ensures Binds(b, call) && SameDelivery(a, b, call) {
      assert forall i: nat :: PositionalSlot(a, i) == Rejected == PositionalSlot(b, i);
      forall k | k in call.keywords ensures KeywordSlot(b, call.positional, k) == KeywordSlot(a, call.positional, k) {
        assert KeywordIndex(a, k, 0) <==> KeywordIndex(b, k, 1);
        assert KeywordIndex(a, k, 1) <==> KeywordIndex(b, k, 0);
      }
    }
  }
}
