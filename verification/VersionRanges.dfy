/**
 Python version ranges: zero-padded release comparison, the reduction of a specifier
 set to one floor and one cap, and the check that two sets agree.
 */
module VersionRanges {
  import opened Text

  /** A plain dotted release, one number per component. */
  type Release = seq<nat>

  function Part(v: Release, i: nat): nat {
    if i < |v| then v[i] else 0
  }

  /** -1, 0 or 1: the order of releases, missing components counting as zero. */
  function Compare(a: Release, b: Release): (c: int)
    ensures -1 <= c <= 1
    decreases |a| + |b|
  {
    if a == [] && b == [] then 0
    else if Part(a, 0) != Part(b, 0) then if Part(a, 0) < Part(b, 0) then -1 else 1
    else Compare(if a == [] then [] else a[1..], if b == [] then [] else b[1..])
  }

  function Zeros(n: nat): (r: Release)
    ensures |r| == n && forall i :: 0 <= i < n ==> r[i] == 0
  {
    seq(n, _ => 0)
  }

  // The first component in which two releases differ decides.
  ghost predicate DiffersFirstAt(a: Release, b: Release, k: nat) {
    Part(a, k) != Part(b, k) && forall i: nat :: i < k ==> Part(a, i) == Part(b, i)
  }

  function Rest(v: Release): Release {
    if v == [] then [] else v[1..]
  }

  lemma RestPart(v: Release, i: nat)
    ensures Part(Rest(v), i) == Part(v, i + 1)
  {
  }

  lemma {:induction false} CompareDecided(a: Release, b: Release)
    ensures Compare(a, b) == 0 <==> forall i: nat :: Part(a, i) == Part(b, i)
    ensures forall k: nat :: DiffersFirstAt(a, b, k) ==> Compare(a, b) == if Part(a, k) < Part(b, k) then -1 else 1
    ensures Compare(a, b) != 0 ==> exists k: nat :: DiffersFirstAt(a, b, k)
    decreases |a| + |b|
  {
    if a == [] && b == [] {
    } else if Part(a, 0) != Part(b, 0) {
      assert DiffersFirstAt(a, b, 0);
    } else {
      CompareDecided(Rest(a), Rest(b));
      forall i: nat ensures Part(a, i + 1) == Part(Rest(a), i) && Part(b, i + 1) == Part(Rest(b), i) {
        RestPart(a, i);
        RestPart(b, i);
      }
      if Compare(a, b) == 0 {
        forall i: nat ensures Part(a, i) == Part(b, i) {
          if i > 0 { assert Part(Rest(a), i - 1) == Part(Rest(b), i - 1); }
        }
      }
      forall k: nat | DiffersFirstAt(a, b, k) ensures DiffersFirstAt(Rest(a), Rest(b), k - 1) && k > 0 {
        assert k > 0;
      }
      if Compare(a, b) != 0 {
        var k: nat :| DiffersFirstAt(Rest(a), Rest(b), k);
        forall i: nat | i < k + 1 ensures Part(a, i) == Part(b, i) {
          if i > 0 { assert Part(Rest(a), i - 1) == Part(Rest(b), i - 1); }
        }
        assert DiffersFirstAt(a, b, k + 1);
      }
    }
  }

  // ----- a total order, up to padding

  lemma CompareAntisymmetric(a: Release, b: Release)
    ensures Compare(a, b) == -Compare(b, a)
    decreases |a| + |b|
  {
  }

  lemma CompareTransitive(a: Release, b: Release, c: Release)
    requires Compare(a, b) <= 0 && Compare(b, c) <= 0
    ensures Compare(a, c) <= 0
    ensures Compare(a, b) < 0 || Compare(b, c) < 0 ==> Compare(a, c) < 0
    decreases |a| + |b| + |c|
  {
    if a != [] || b != [] || c != [] {
      if Part(a, 0) == Part(b, 0) == Part(c, 0) {
        StepTogether(a, b);
        StepTogether(b, c);
        StepTogether(a, c);
        CompareTransitive(Rest(a), Rest(b), Rest(c));
      }
    }
  }

  lemma StepTogether(a: Release, b: Release)
    requires Part(a, 0) == Part(b, 0)
    ensures Compare(a, b) == Compare(Rest(a), Rest(b))
  {
  }

  lemma CompareTotal(a: Release, b: Release)
    ensures Compare(a, b) <= 0 || Compare(b, a) <= 0
    ensures Compare(a, b) == 0 <==> forall i: nat :: Part(a, i) == Part(b, i)
  {
    CompareAntisymmetric(a, b);
    CompareDecided(a, b);
  }

  /** Pad both lists to one width, then compare element by element. */
  method CompareReleaseVersions(left: Release, right: Release) returns (c: int)
    ensures c == Compare(left, right)
  {
    var width := if |left| > |right| then |left| else |right|;
    var leftParts := left + Zeros(width - |left|);
    var rightParts := right + Zeros(width - |right|);
    CompareDecided(left, right);
    for i := 0 to width
      invariant forall j :: 0 <= j < i ==> leftParts[j] == rightParts[j]
    {
      assert leftParts[i] == Part(left, i) && rightParts[i] == Part(right, i);
      if leftParts[i] != rightParts[i] {
        assert forall j: nat :: j < i ==> leftParts[j] == Part(left, j) && rightParts[j] == Part(right, j);
        assert DiffersFirstAt(left, right, i);
        return if leftParts[i] < rightParts[i] then -1 else 1;
      }
    }
    assert forall j: nat :: j < width ==> leftParts[j] == Part(left, j) && rightParts[j] == Part(right, j);
    return 0;
  }

  // ----- specifiers and bounds

  datatype Op = AtLeast | Above | Below | AtMost | Other

  datatype Spec = Spec(op: Op, version: Release)

  predicate IsFloor(op: Op) {
    op == AtLeast || op == Above
  }

  predicate Admits(s: Spec, v: Release) {
    match s.op
    case AtLeast => Compare(v, s.version) >= 0
    case Above => Compare(v, s.version) > 0
    case Below => Compare(v, s.version) < 0
    case AtMost => Compare(v, s.version) <= 0
    case Other => false
  }

  predicate Within(bound: Option<Spec>, v: Release) {
    bound.Some? ==> Admits(bound.value, v)
  }

  datatype Bounds = Bounds(floor: Option<Spec>, cap: Option<Spec>)

  predicate InRange(b: Bounds, v: Release) {
    Within(b.floor, v) && Within(b.cap, v)
  }

  predicate BoundsOk(b: Bounds) {
    && (b.floor.Some? ==> IsFloor(b.floor.value.op))
    && (b.cap.Some? ==> b.cap.value.op == Below || b.cap.value.op == AtMost)
  }

  ghost predicate AdmittedByAll(specs: seq<Spec>, v: Release) {
    forall i :: 0 <= i < |specs| ==> Admits(specs[i], v)
  }

  // A floor met by every release.
  predicate ZeroFloor(floor: Option<Spec>) {
    floor.Some? && floor.value.op == AtLeast && Compare(floor.value.version, []) == 0
  }

  predicate PlainBounds(b: Bounds) {
    !ZeroFloor(b.floor)
  }

  // Of two floors, the one the reduction keeps admits what both admit.
  predicate Tighter(kept: Spec, other: Spec) {
    if IsFloor(kept.op) then
      Compare(kept.version, other.version) > 0
      || (Compare(kept.version, other.version) == 0 && (kept.op == Above || kept.op == other.op || other.op == AtLeast))
    else
      Compare(kept.version, other.version) < 0
      || (Compare(kept.version, other.version) == 0 && (kept.op == Below || kept.op == other.op || other.op == AtMost))
  }

  lemma TighterAdmits(kept: Spec, other: Spec, v: Release)
    requires kept.op != Other && other.op != Other && IsFloor(kept.op) == IsFloor(other.op) && Tighter(kept, other)
    requires Admits(kept, v)
    ensures Admits(other, v)
  {
    var k, o := kept.version, other.version;
    CompareAntisymmetric(k, o);
    CompareAntisymmetric(v, k);
    CompareAntisymmetric(v, o);
    if IsFloor(kept.op) {
      CompareTransitive(o, k, v);
    } else {
      CompareTransitive(v, k, o);
    }
  }

  lemma TighterDecides(kept: Spec, other: Spec)
    requires kept.op != Other && other.op != Other && IsFloor(kept.op) == IsFloor(other.op) && Tighter(kept, other)
    ensures forall v :: Admits(kept, v) ==> Admits(other, v)
  {
    forall v | Admits(kept, v) ensures Admits(other, v) {
      TighterAdmits(kept, other, v);
    }
  }

  // ----- the reduction

  // The tighter of two bounds of one side; the one already held wins a tie.
  function KeepFloor(held: Option<Spec>, s: Spec): Option<Spec> {
    if held.None? then Some(s)
    else
      var c := Compare(s.version, held.value.version);
      if c > 0 || (c == 0 && s.op == Above) then Some(s) else held
  }

  function KeepCap(held: Option<Spec>, s: Spec): Option<Spec> {
    if held.None? then Some(s)
    else
      var c := Compare(s.version, held.value.version);
      if c < 0 || (c == 0 && s.op == Below) then Some(s) else held
  }

  function Narrowed(b: Bounds, s: Spec): Bounds {
    if IsFloor(s.op) then b.(floor := KeepFloor(b.floor, s)) else b.(cap := KeepCap(b.cap, s))
  }

  /** The bounds of a list of specifiers, or none if an operator is not supported. */
  function Reduced(specs: seq<Spec>): Option<Bounds> {
    if specs == [] then Some(Bounds(None, None))
    else
      var last := specs[|specs| - 1];
      var before := Reduced(specs[..|specs| - 1]);
      if before.None? || last.op == Other then None else Some(Narrowed(before.value, last))
  }

  lemma NarrowedMeans(b: Bounds, s: Spec)
    requires BoundsOk(b) && s.op != Other
    ensures BoundsOk(Narrowed(b, s))
    ensures forall v :: InRange(Narrowed(b, s), v) <==> InRange(b, v) && Admits(s, v)
  {
    if IsFloor(s.op) && b.floor.Some? {
      KeptDecides(b.floor.value, s, KeepFloor(b.floor, s).value);
    } else if !IsFloor(s.op) && b.cap.Some? {
      KeptDecides(b.cap.value, s, KeepCap(b.cap, s).value);
    }
  }

  lemma KeptDecides(held: Spec, s: Spec, kept: Spec)
    requires held.op != Other && s.op != Other && IsFloor(held.op) == IsFloor(s.op)
    requires Some(kept) == if IsFloor(s.op) then KeepFloor(Some(held), s) else KeepCap(Some(held), s)
    ensures forall v :: Admits(kept, v) <==> Admits(held, v) && Admits(s, v)
  {
    CompareAntisymmetric(s.version, held.version);
    if kept == s {
      TighterDecides(s, held);
    } else {
      TighterDecides(held, s);
    }
  }

  /**
   The reduction keeps the meaning: whatever the order of the specifiers, the bounds
   admit exactly the releases that every specifier admits.
   */
  lemma {:induction false} ReducedMeans(specs: seq<Spec>)
    ensures Reduced(specs).None? <==> exists i :: 0 <= i < |specs| && specs[i].op == Other
    ensures Reduced(specs).Some? ==>
              && BoundsOk(Reduced(specs).value)
              && forall v :: InRange(Reduced(specs).value, v) <==> AdmittedByAll(specs, v)
  {
    hide InRange, Admits, Narrowed;
    if specs == [] {
      NoBounds();
    } else {
      var n := |specs| - 1;
      ReducedMeans(specs[..n]);
      assert forall i :: 0 <= i < n ==> specs[..n][i] == specs[i];
      if Reduced(specs).Some? {
        var before := Reduced(specs[..n]).value;
        NarrowedMeans(before, specs[n]);
        forall v ensures InRange(Reduced(specs).value, v) <==> AdmittedByAll(specs, v) {
          AdmittedSnoc(specs, n, v);
          assert specs[..n + 1] == specs;
        }
      }
    }
  }

  lemma NoBounds()
    ensures forall v :: InRange(Bounds(None, None), v)
  {
  }

  method PythonRangeBounds(specs: seq<Spec>) returns (r: Option<Bounds>)
    ensures r == Reduced(specs)
    ensures r.None? <==> exists i :: 0 <= i < |specs| && specs[i].op == Other
    ensures r.Some? ==> BoundsOk(r.value) && forall v :: InRange(r.value, v) <==> AdmittedByAll(specs, v)
  {
    hide Compare, InRange, AdmittedByAll, BoundsOk;
    ReducedMeans(specs);
    var floor: Option<Spec>, cap: Option<Spec> := None, None;
    for i := 0 to |specs|
      invariant Reduced(specs[..i]) == Some(Bounds(floor, cap))
    {
      var s := specs[i];
      assert specs[..i + 1][..i] == specs[..i];
      if s.op == Other {
        return None;
      }
      if IsFloor(s.op) {
        if floor.None? {
          floor := Some(s);
        } else {
          var c := CompareReleaseVersions(s.version, floor.value.version);
          if c > 0 || (c == 0 && s.op == Above) {
            floor := Some(s);
          }
        }
      } else if cap.None? {
        cap := Some(s);
      } else {
        var c := CompareReleaseVersions(s.version, cap.value.version);
        if c < 0 || (c == 0 && s.op == Below) {
          cap := Some(s);
        }
      }
    }
    assert specs[..|specs|] == specs;
    return Some(Bounds(floor, cap));
  }

  lemma AdmittedSnoc(specs: seq<Spec>, i: nat, v: Release)
    requires i < |specs|
    ensures AdmittedByAll(specs[..i + 1], v) <==> AdmittedByAll(specs[..i], v) && Admits(specs[i], v)
  {
    assert specs[..i + 1] == specs[..i] + [specs[i]];
  }

  // ----- the gate

  predicate BoundMatches(built: Option<Spec>, expected: Option<Spec>) {
    if built.None? || expected.None? then built.None? && expected.None?
    else built.value.op == expected.value.op && Compare(built.value.version, expected.value.version) == 0
  }

  predicate Matches(built: Bounds, expected: Bounds) {
    BoundMatches(built.floor, expected.floor) && BoundMatches(built.cap, expected.cap)
  }

  ghost predicate SameReleases(built: Bounds, expected: Bounds) {
    forall v :: InRange(built, v) <==> InRange(expected, v)
  }

  /** The gate's decision: both ranges reduce, and their bounds match. */
  predicate Accepted(built: seq<Spec>, expected: seq<Spec>) {
    Reduced(built).Some? && Reduced(expected).Some? && Matches(Reduced(built).value, Reduced(expected).value)
  }

  lemma EqualVersionsAdmit(s: Spec, t: Spec, v: Release)
    requires s.op == t.op && Compare(s.version, t.version) == 0
    ensures Admits(s, v) <==> Admits(t, v)
  {
    CompareAntisymmetric(s.version, t.version);
    if s.op != Other {
      if Admits(s, v) { TighterAdmits(s, t, v); }
      if Admits(t, v) { TighterAdmits(t, s, v); }
    }
  }

  lemma MatchingBoundsAgree(a: Bounds, b: Bounds)
    requires Matches(a, b)
    ensures SameReleases(a, b)
  {
    forall v ensures InRange(a, v) <==> InRange(b, v) {
      if a.floor.Some? { EqualVersionsAdmit(a.floor.value, b.floor.value, v); }
      if a.cap.Some? { EqualVersionsAdmit(a.cap.value, b.cap.value, v); }
    }
  }

  // ----- the converse: ranges with the same releases have the same bounds

  /** A release strictly between two others. */
  function Between(a: Release, b: Release): Release {
    a + Zeros(|b|) + [1]
  }

  lemma BetweenIs(a: Release, b: Release)
    requires Compare(a, b) < 0
    ensures Compare(a, Between(a, b)) < 0 && Compare(Between(a, b), b) < 0
  {
    var m := Between(a, b);
    CompareDecided(a, b);
    CompareDecided(a, m);
    CompareDecided(m, b);
    var k: nat :| DiffersFirstAt(a, b, k);
    assert k < |b|;
    forall i: nat | i < |a| + |b| ensures Part(m, i) == Part(a, i) {
    }
    assert DiffersFirstAt(m, b, k);
    assert Part(m, |a| + |b|) == 1 && DiffersFirstAt(a, m, |a| + |b|);
  }

  /** A release above a given one. */
  function Beyond(a: Release): Release {
    [Part(a, 0) + 1]
  }

  lemma BeyondIs(a: Release)
    ensures Compare(a, Beyond(a)) < 0
  {
  }

  lemma ZeroIsLeast(a: Release)
    ensures Compare([], a) <= 0
    decreases |a|
  {
  }

  lemma FloorGoesUp(s: Spec, x: Release, w: Release)
    requires IsFloor(s.op) && Admits(s, x) && Compare(x, w) <= 0
    ensures Admits(s, w)
  {
    CompareAntisymmetric(x, s.version);
    CompareAntisymmetric(w, s.version);
    CompareTransitive(s.version, x, w);
  }

  lemma CapGoesDown(s: Spec, x: Release, w: Release)
    requires (s.op == Below || s.op == AtMost) && Admits(s, x) && Compare(w, x) <= 0
    ensures Admits(s, w)
  {
    CompareTransitive(w, x, s.version);
  }

  // A release told apart by two different floors, below a release both ranges admit.
  lemma FloorWitness(a: Bounds, b: Bounds, x: Release) returns (w: Release)
    requires BoundsOk(a) && BoundsOk(b) && InRange(a, x) && InRange(b, x)
    requires a.floor.Some? && b.floor.Some?
    requires Compare(a.floor.value.version, b.floor.value.version) < 0
          || (Compare(a.floor.value.version, b.floor.value.version) == 0 && a.floor.value.op == AtLeast
              && b.floor.value.op == Above)
    ensures InRange(a, w) && !InRange(b, w)
  {
    var u, v := a.floor.value.version, b.floor.value.version;
    CompareAntisymmetric(x, v);
    w := if Compare(u, v) < 0 then Between(u, v) else u;
    if Compare(u, v) < 0 {
      BetweenIs(u, v);
    }
    CompareAntisymmetric(u, w);
    CompareAntisymmetric(w, u);
    CompareReflexive(u);
    CompareTransitive(w, v, x);
    if a.cap.Some? { CapGoesDown(a.cap.value, x, w); }
  }

  lemma CompareReflexive(a: Release)
    ensures Compare(a, a) == 0
    decreases |a|
  {
  }

  lemma MissingFloorWitness(a: Bounds, b: Bounds, x: Release) returns (w: Release)
    requires BoundsOk(a) && BoundsOk(b) && InRange(a, x) && PlainBounds(b)
    requires a.floor.None? && b.floor.Some?
    ensures InRange(a, w) && !InRange(b, w)
  {
    w := [];
    ZeroIsLeast(x);
    ZeroIsLeast(b.floor.value.version);
    CompareAntisymmetric([], b.floor.value.version);
    if a.cap.Some? { CapGoesDown(a.cap.value, x, w); }
  }

  lemma CapWitness(a: Bounds, b: Bounds, x: Release) returns (w: Release)
    requires BoundsOk(a) && BoundsOk(b) && InRange(a, x) && InRange(b, x)
    requires a.cap.Some? && b.cap.Some?
    requires Compare(a.cap.value.version, b.cap.value.version) < 0
          || (Compare(a.cap.value.version, b.cap.value.version) == 0 && a.cap.value.op == Below
              && b.cap.value.op == AtMost)
    ensures InRange(b, w) && !InRange(a, w)
  {
    var u, v := a.cap.value.version, b.cap.value.version;
    w := if Compare(u, v) < 0 then Between(u, v) else v;
    if Compare(u, v) < 0 {
      BetweenIs(u, v);
    }
    CompareAntisymmetric(u, w);
    CompareReflexive(v);
    CompareTransitive(x, u, w);
    if b.floor.Some? { FloorGoesUp(b.floor.value, x, w); }
  }

  lemma MissingCapWitness(a: Bounds, b: Bounds, x: Release) returns (w: Release)
    requires BoundsOk(a) && BoundsOk(b) && InRange(a, x) && InRange(b, x)
    requires a.cap.None? && b.cap.Some?
    ensures InRange(a, w) && !InRange(b, w)
  {
    var v := b.cap.value.version;
    w := Beyond(v);
    BeyondIs(v);
    CompareAntisymmetric(v, w);
    CompareTransitive(x, v, w);
    if a.floor.Some? { FloorGoesUp(a.floor.value, x, w); }
  }

  lemma AgreeingFloorsMatch(a: Bounds, b: Bounds, x: Release)
    requires BoundsOk(a) && BoundsOk(b) && PlainBounds(a) && PlainBounds(b)
    requires InRange(a, x) && forall v :: InRange(a, v) <==> InRange(b, v)
    ensures BoundMatches(a.floor, b.floor)
  {
    hide InRange, Compare;
    if a.floor.None? && b.floor.Some? {
      var w := MissingFloorWitness(a, b, x);
    } else if a.floor.Some? && b.floor.None? {
      var w := MissingFloorWitness(b, a, x);
    } else if a.floor.Some? && b.floor.Some? {
      var f, g := a.floor.value, b.floor.value;
      CompareAntisymmetric(f.version, g.version);
      if Compare(f.version, g.version) < 0 || (Compare(f.version, g.version) == 0 && f.op == AtLeast && g.op == Above) {
        var w := FloorWitness(a, b, x);
      } else if Compare(g.version, f.version) < 0
          || (Compare(g.version, f.version) == 0 && g.op == AtLeast && f.op == Above) {
        var w := FloorWitness(b, a, x);
      }
    }
  }

  lemma AgreeingCapsMatch(a: Bounds, b: Bounds, x: Release)
    requires BoundsOk(a) && BoundsOk(b)
    requires InRange(a, x) && forall v :: InRange(a, v) <==> InRange(b, v)
    ensures BoundMatches(a.cap, b.cap)
  {
    hide InRange, Compare;
    if a.cap.None? && b.cap.Some? {
      var w := MissingCapWitness(a, b, x);
    } else if a.cap.Some? && b.cap.None? {
      var w := MissingCapWitness(b, a, x);
    } else if a.cap.Some? && b.cap.Some? {
      var f, g := a.cap.value, b.cap.value;
      CompareAntisymmetric(f.version, g.version);
      if Compare(f.version, g.version) < 0 || (Compare(f.version, g.version) == 0 && f.op == Below && g.op == AtMost) {
        var w := CapWitness(a, b, x);
      } else if Compare(g.version, f.version) < 0
          || (Compare(g.version, f.version) == 0 && g.op == Below && f.op == AtMost) {
        var w := CapWitness(b, a, x);
      }
    }
  }

  lemma AgreeingBoundsMatch(a: Bounds, b: Bounds, x: Release)
    requires BoundsOk(a) && BoundsOk(b) && PlainBounds(a) && PlainBounds(b)
    requires InRange(a, x) && forall v :: InRange(a, v) <==> InRange(b, v)
    ensures Matches(a, b)
  {
    AgreeingFloorsMatch(a, b, x);
    AgreeingCapsMatch(a, b, x);
  }

  // ----- exactly when the gate is right

  /** No release lies within the bounds. */
  predicate Empty(b: Bounds) {
    b.cap.Some? &&
    if b.floor.None? then b.cap.value.op == Below && Compare(b.cap.value.version, []) == 0
    else
      var c := Compare(b.floor.value.version, b.cap.value.version);
      c > 0 || (c == 0 && !(b.floor.value.op == AtLeast && b.cap.value.op == AtMost))
  }

  lemma EmptyAdmitsNone(b: Bounds, v: Release)
    requires BoundsOk(b) && Empty(b)
    ensures !InRange(b, v)
  {
    var cap := b.cap.value.version;
    if b.floor.None? {
      ZeroIsLeast(v);
      CompareAntisymmetric(cap, []);
      CompareTransitive(cap, [], v);
      CompareAntisymmetric(cap, v);
    } else {
      var floor := b.floor.value.version;
      CompareAntisymmetric(floor, cap);
      CompareAntisymmetric(v, floor);
      CompareAntisymmetric(v, cap);
      if Compare(v, floor) >= 0 && Compare(v, cap) <= 0 {
        CompareTransitive(floor, v, cap);
      }
    }
  }

  // A release within bounds that are not empty.
  lemma Member(b: Bounds) returns (v: Release)
    requires BoundsOk(b) && !Empty(b)
    ensures InRange(b, v)
  {
    if b.floor.None? {
      v := [];
      if b.cap.Some? {
        ZeroIsLeast(b.cap.value.version);
        CompareAntisymmetric([], b.cap.value.version);
      }
    } else if b.cap.None? {
      v := Beyond(b.floor.value.version);
      BeyondIs(b.floor.value.version);
      CompareAntisymmetric(b.floor.value.version, v);
    } else {
      var floor, cap := b.floor.value.version, b.cap.value.version;
      CompareAntisymmetric(floor, cap);
      if Compare(floor, cap) < 0 {
        v := Between(floor, cap);
        BetweenIs(floor, cap);
        CompareAntisymmetric(floor, v);
      } else {
        v := floor;
        CompareReflexive(floor);
      }
    }
  }

  function WithoutZero(b: Bounds): Bounds {
    if ZeroFloor(b.floor) then b.(floor := None) else b
  }

  lemma WithoutZeroMeans(b: Bounds, v: Release)
    requires BoundsOk(b)
    ensures InRange(WithoutZero(b), v) <==> InRange(b, v)
  {
    if ZeroFloor(b.floor) {
      var zero := b.floor.value.version;
      ZeroIsLeast(v);
      CompareAntisymmetric(zero, v);
      CompareTransitive(zero, [], v);
    }
  }

  /**
   Two ranges admit the same releases exactly if both are empty, or their caps match and
   their floors match once a floor of zero is dropped.
   */
  lemma SameReleasesExact(a: Bounds, b: Bounds)
    requires BoundsOk(a) && BoundsOk(b)
    ensures SameReleases(a, b) <==> (Empty(a) && Empty(b)) || Matches(WithoutZero(a), WithoutZero(b))
  {
    hide InRange, Matches, Empty, WithoutZero, BoundsOk;
    var a', b' := WithoutZero(a), WithoutZero(b);
    WithoutZeroOk(a);
    WithoutZeroOk(b);
    forall v ensures (InRange(a', v) <==> InRange(a, v)) && (InRange(b', v) <==> InRange(b, v)) {
      WithoutZeroMeans(a, v);
      WithoutZeroMeans(b, v);
    }
    if Matches(a', b') {
      MatchingBoundsAgree(a', b');
    }
    if Empty(a) {
      forall v ensures !InRange(a, v) {
        EmptyAdmitsNone(a, v);
      }
    }
    if Empty(b) {
      forall v ensures !InRange(b, v) {
        EmptyAdmitsNone(b, v);
      }
    }
    if SameReleases(a, b) && !Empty(a) {
      var x := Member(a);
      AgreeingBoundsMatch(a', b', x);
    } else if SameReleases(a, b) && !Empty(b) {
      var x := Member(b);
      AgreeingBoundsMatch(a', b', x);
    }
  }

  lemma WithoutZeroOk(b: Bounds)
    requires BoundsOk(b)
    ensures BoundsOk(WithoutZero(b)) && PlainBounds(WithoutZero(b))
  {
  }

  /** Ranges the gate tells apart although they admit the same releases. */
  predicate Misjudged(a: Bounds, b: Bounds) {
    if Empty(a) && Empty(b) then !Matches(a, b)
    else
      && BoundMatches(a.cap, b.cap)
      && ((ZeroFloor(a.floor) && b.floor.None?) || (a.floor.None? && ZeroFloor(b.floor)))
  }

  /** Comparing the bounds is right, except for two empty ranges, and a floor of zero against none. */
  lemma MatchingExact(a: Bounds, b: Bounds)
    requires BoundsOk(a) && BoundsOk(b)
    ensures Matches(a, b) <==> SameReleases(a, b) && !Misjudged(a, b)
  {
    hide InRange, Empty;
    SameReleasesExact(a, b);
    if Matches(a, b) {
      MatchingBoundsAgree(a, b);
    }
    if ZeroFloor(a.floor) || ZeroFloor(b.floor) {
      ZeroFloorsMatch(a.floor, b.floor);
    }
  }

  lemma ZeroFloorsMatch(a: Option<Spec>, b: Option<Spec>)
    ensures ZeroFloor(a) && ZeroFloor(b) ==> BoundMatches(a, b)
    ensures ZeroFloor(a) != ZeroFloor(b) ==> !BoundMatches(a, b)
  {
    if a.Some? && b.Some? {
      var u, v := a.value.version, b.value.version;
      CompareZero(u, v);
    }
  }

  // Versions that are equal are both zero or neither is.
  lemma CompareZero(u: Release, v: Release)
    ensures Compare(u, v) == 0 ==> (Compare(u, []) == 0 <==> Compare(v, []) == 0)
    ensures Compare(u, []) == 0 && Compare(v, []) == 0 ==> Compare(u, v) == 0
  {
    CompareDecided(u, v);
    CompareDecided(u, []);
    CompareDecided(v, []);
  }

  /**
   The gate accepts exactly the built ranges that reduce and admit what the expected one
   admits, but for the misjudged pairs.
   */
  method ValidateRequiresPython(built: seq<Spec>, expected: seq<Spec>) returns (ok: bool)
    ensures ok <==> Accepted(built, expected)
    ensures ok ==> forall v :: AdmittedByAll(built, v) <==> AdmittedByAll(expected, v)
    ensures Reduced(built).Some? && Reduced(expected).Some? ==>
              (ok <==> (forall v :: AdmittedByAll(built, v) <==> AdmittedByAll(expected, v))
                       && !Misjudged(Reduced(built).value, Reduced(expected).value))
  {
    hide InRange, AdmittedByAll, Reduced, Misjudged, Matches;
    var e := PythonRangeBounds(expected);
    if e.None? {
      return false;
    }
    var b := PythonRangeBounds(built);
    if b.None? {
      return false;
    }
    MatchingExact(b.value, e.value);
    ok := Matches(b.value, e.value);
  }

  /** `>=0` constrains nothing, yet the gate tells it from no specifier at all. */
  lemma ZeroFloorIsRejected()
    ensures var zero := [Spec(AtLeast, [0])];
            (forall v :: AdmittedByAll(zero, v) <==> AdmittedByAll([], v)) && !Accepted(zero, []) && !Accepted([], zero)
  {
    var zero := [Spec(AtLeast, [0])];
    forall v ensures Compare(v, [0]) >= 0 {
      CompareAntisymmetric(v, [0]);
      CompareDecided([0], []);
      ZeroIsLeast(v);
      CompareTransitive([0], [], v);
    }
    assert Reduced([]) == Some(Bounds(None, None)) && zero[..0] == [];
    assert Reduced(zero) == Some(Bounds(Some(zero[0]), None));
  }

  /** Two ranges that admit nothing are told apart, too. */
  lemma EmptyRangesAreRejected()
    ensures var below, above := [Spec(Below, [0])], [Spec(Above, [3]), Spec(Below, [3])];
            (forall v :: !AdmittedByAll(below, v) && !AdmittedByAll(above, v)) && !Accepted(below, above)
  {
    var below, above := [Spec(Below, [0])], [Spec(Above, [3]), Spec(Below, [3])];
    var b, a := Bounds(None, Some(below[0])), Bounds(Some(above[0]), Some(above[1]));
    assert below[..0] == [] && above[..1] == [above[0]] && above[..1][..0] == [];
    assert Reduced([]) == Some(Bounds(None, None));
    assert Reduced(below) == Some(b);
    assert Reduced(above[..1]) == Some(Bounds(Some(above[0]), None));
    assert Reduced(above) == Some(a);
    CompareDecided([0], []);
    CompareReflexive([3]);
    ReducedMeans(below);
    ReducedMeans(above);
    forall v ensures !InRange(a, v) && !InRange(b, v) {
      EmptyAdmitsNone(a, v);
      EmptyAdmitsNone(b, v);
    }
  }
}
