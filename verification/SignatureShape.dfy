/**
 Compatibility of two Python signatures, as decided by the API-surface gate on
 parameter shapes: name, kind and required flag.  The kinds and their legal order
 are those of the Python Language Reference, section 8.7 (Function definitions).
 */
module SignatureShape {

  datatype Kind = PositionalOnly | PositionalOrKeyword | VarPositional | KeywordOnly | VarKeyword {
    predicate Positional() {
      this == PositionalOnly || this == PositionalOrKeyword
    }

    predicate AcceptsKeyword() {
      this == PositionalOrKeyword || this == KeywordOnly
    }

    predicate Variadic() {
      this == VarPositional || this == VarKeyword
    }

    // The order in which the kinds may follow each other in a signature.
    function Rank(): nat {
      match this
      case PositionalOnly => 0
      case PositionalOrKeyword => 1
      case VarPositional => 2
      case KeywordOnly => 3
      case VarKeyword => 4
    }
  }

  datatype Param = Param(name: string, kind: Kind, required: bool)

  type Shape = seq<Param>

  // ----- what the language allows a signature to be

  ghost predicate UniqueNames(sig: Shape) {
    forall i, j :: 0 <= i < j < |sig| ==> sig[i].name != sig[j].name
  }

  ghost predicate Canonical(sig: Shape) {
    && (forall i, j :: 0 <= i < j < |sig| ==> sig[i].kind.Rank() <= sig[j].kind.Rank())
    && (forall i, j :: 0 <= i < j < |sig| && sig[i].kind == sig[j].kind ==> !sig[i].kind.Variadic())
    && (forall i :: 0 <= i < |sig| && sig[i].kind.Variadic() ==> !sig[i].required)
  }

  ghost predicate Legal(sig: Shape) {
    UniqueNames(sig) && Canonical(sig)
  }

  // ----- the decision

  predicate NameMatches(prName: string, baseName: string, aliases: map<string, string>) {
    prName == baseName || (prName in aliases && aliases[prName] == baseName)
  }

  function FirstMatch(pr: Shape, baseName: string, aliases: map<string, string>): (i: nat)
    ensures i <= |pr|
    ensures i < |pr| ==> NameMatches(pr[i].name, baseName, aliases)
    ensures forall j :: 0 <= j < i ==> !NameMatches(pr[j].name, baseName, aliases)
  {
    if pr == [] || NameMatches(pr[0].name, baseName, aliases) then 0
    else 1 + FirstMatch(pr[1..], baseName, aliases)
  }

  // A parameter that may appear between two matched ones.
  predicate Insertable(p: Param) {
    !p.required && !p.kind.Positional()
  }

  predicate AllInsertable(ps: Shape) {
    forall j :: 0 <= j < |ps| ==> Insertable(ps[j])
  }

  predicate AllOptional(ps: Shape) {
    forall j :: 0 <= j < |ps| ==> !ps[j].required
  }

  predicate Replaces(b: Param, p: Param) {
    p.kind == b.kind && (p.required ==> b.required)
  }

  predicate Compatible(base: Shape, pr: Shape, aliases: map<string, string>) {
    if base == [] then AllOptional(pr)
    else
      var i := FirstMatch(pr, base[0].name, aliases);
      && i < |pr|
      && AllInsertable(pr[..i])
      && Replaces(base[0], pr[i])
      && Compatible(base[1..], pr[i + 1..], aliases)
  }

  lemma FirstMatchFrom(pr: Shape, baseName: string, aliases: map<string, string>, at: nat, found: nat)
    requires at <= found < |pr|
    requires NameMatches(pr[found].name, baseName, aliases)
    requires forall j :: at <= j < found ==> !NameMatches(pr[j].name, baseName, aliases)
    ensures FirstMatch(pr[at..], baseName, aliases) == found - at
  {
    hide NameMatches;
    var rest := pr[at..];
    assert forall j :: 0 <= j < |rest| ==> rest[j] == pr[at + j];
    assert rest[found - at] == pr[found];
  }

  lemma CompatibleStep(base: Shape, pr: Shape, aliases: map<string, string>, k: nat, at: nat, found: nat)
    requires k < |base| && at <= found < |pr|
    requires NameMatches(pr[found].name, base[k].name, aliases)
    requires forall j :: at <= j < found ==> !NameMatches(pr[j].name, base[k].name, aliases)
    ensures Compatible(base[k..], pr[at..], aliases)
        <==> && AllInsertable(pr[at..found])
             && Replaces(base[k], pr[found])
             && Compatible(base[k + 1..], pr[found + 1..], aliases)
  {
    hide NameMatches, AllInsertable, AllOptional, Replaces;
    var rest, i := pr[at..], found - at;
    FirstMatchFrom(pr, base[k].name, aliases, at, found);
    assert base[k..][0] == base[k] && base[k..][1..] == base[k + 1..];
    assert rest[i] == pr[found] && rest[..i] == pr[at..found] && rest[i + 1..] == pr[found + 1..];
  }

  lemma CompatibleStuck(base: Shape, pr: Shape, aliases: map<string, string>, k: nat, at: nat)
    requires k < |base| && at <= |pr|
    requires forall j :: at <= j < |pr| ==> !NameMatches(pr[j].name, base[k].name, aliases)
    ensures !Compatible(base[k..], pr[at..], aliases)
  {
    var rest := pr[at..];
    assert base[k..][0] == base[k];
    assert forall j :: 0 <= j < |rest| ==> rest[j] == pr[at + j];
  }

  method FindMatch(pr: Shape, at: nat, baseName: string, aliases: map<string, string>) returns (found: int)
    requires at <= |pr|
    ensures found == -1 || at <= found < |pr|
    ensures found == -1 ==> forall j :: at <= j < |pr| ==> !NameMatches(pr[j].name, baseName, aliases)
    ensures found != -1 ==> NameMatches(pr[found].name, baseName, aliases)
    ensures forall j :: at <= j < found ==> !NameMatches(pr[j].name, baseName, aliases)
  {
    for idx := at to |pr|
      invariant forall j :: at <= j < idx ==> !NameMatches(pr[j].name, baseName, aliases)
    {
      if NameMatches(pr[idx].name, baseName, aliases) {
        return idx;
      }
    }
    return -1;
  }

  method StepBreaks(b: Param, inserted: Shape, p: Param) returns (breaks: bool)
    ensures breaks == !(AllInsertable(inserted) && Replaces(b, p))
  {
    for j := 0 to |inserted|
      invariant forall m :: 0 <= m < j ==> Insertable(inserted[m])
    {
      if inserted[j].required {
        return true;
      }
      if inserted[j].kind == PositionalOnly || inserted[j].kind == PositionalOrKeyword {
        return true;
      }
    }
    if p.kind != b.kind {
      return true;
    }
    return !b.required && p.required;
  }

  method IsBreakingSignatureChange(base: Shape, pr: Shape, aliases: map<string, string>) returns (breaking: bool)
    ensures breaking == !Compatible(base, pr, aliases)
  {
    var prIndex := 0;
    assert base[0..] == base && pr[0..] == pr;
    for k := 0 to |base|
      invariant prIndex <= |pr|
      invariant Compatible(base, pr, aliases) == Compatible(base[k..], pr[prIndex..], aliases)
    {
      var foundIndex := FindMatch(pr, prIndex, base[k].name, aliases);
      if foundIndex == -1 {
        CompatibleStuck(base, pr, aliases, k, prIndex);
        return true;
      }
      CompatibleStep(base, pr, aliases, k, prIndex, foundIndex);
      var breaks := StepBreaks(base[k], pr[prIndex..foundIndex], pr[foundIndex]);
      if breaks {
        return true;
      }
      prIndex := foundIndex + 1;
    }
    return !AllOptional(pr[prIndex..]);
  }
}
