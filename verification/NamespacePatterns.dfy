/**
 The four places the namespace rewriter looks for, each as the positions at which its
 regular expression puts the `target` group; and what one rewrite does to all of them.
 */
module NamespacePatterns {
  import opened Text
  import opened ProtoInsert
  import opened ProtoMask

  datatype Pattern = Package | Import | Nanopb | Symbol

  /** The order in which the four passes run. */
  function Pass(k: Pattern): nat {
    match k
    case Package => 0
    case Import => 1
    case Nanopb => 2
    case Symbol => 3
  }

  function TargetText(k: Pattern): string {
    match k
    case Package => "meshtastic"
    case Import => "meshtastic/"
    case Nanopb => "nanopb.proto"
    case Symbol => "meshtastic"
  }

  function Replacement(k: Pattern): string {
    match k
    case Package => "meshtastic.protobuf"
    case Import => "meshtastic/protobuf/"
    case Nanopb => "meshtastic/protobuf/nanopb.proto"
    case Symbol => "meshtastic.protobuf"
  }

  // Every replacement is an insertion: `Added` at `Offset`.
  function Added(k: Pattern): string {
    match k
    case Package => ".protobuf"
    case Import => "/protobuf"
    case Nanopb => "meshtastic/protobuf/"
    case Symbol => ".protobuf"
  }

  function Offset(k: Pattern): nat {
    if k.Nanopb? then 0 else 10
  }

  lemma ReplacementInserts(k: Pattern)
    ensures Offset(k) <= |TargetText(k)|
    ensures Replacement(k) == TargetText(k)[..Offset(k)] + Added(k) + TargetText(k)[Offset(k)..]
  {
    match k
    case Package => assert "meshtastic"[..10] == "meshtastic" && "meshtastic"[10..] == "";
    case Import => assert "meshtastic/"[..10] == "meshtastic" && "meshtastic/"[10..] == "/";
    case Nanopb => assert "nanopb.proto"[..0] == "" && "nanopb.proto"[0..] == "nanopb.proto";
    case Symbol => assert "meshtastic"[..10] == "meshtastic" && "meshtastic"[10..] == "";
  }

  lemma AddedIsInert(k: Pattern)
    ensures Inert(Added(k))
  {
  }

  // ----- the patterns

  predicate At(m: string, p: int, w: string) {
    0 <= p <= |m| - |w| && forall x :: p <= x < p + |w| ==> m[x] == w[x - p]
  }

  predicate Blanks(m: string, a: int, b: int) {
    0 <= a <= b <= |m| && forall x :: a <= x < b ==> IsSpace(m[x])
  }

  predicate LineStart(m: string, a: int) {
    0 <= a <= |m| && (a > 0 ==> m[a - 1] == '\n')
  }

  predicate PackageMatch(m: string, a: int, b: int, p: int, e: int) {
    && LineStart(m, a) && Blanks(m, a, b) && At(m, b, "package")
    && b + 7 < p && Blanks(m, b + 7, p) && At(m, p, "meshtastic")
    && Blanks(m, p + 10, e) && e < |m| && m[e] == ';'
  }

  // `import`, perhaps `public` or `weak`, and a quote right before `p`.
  predicate ImportLead(m: string, a: int, b: int, c: int, d: int, p: int) {
    && LineStart(m, a) && Blanks(m, a, b) && At(m, b, "import")
    && (|| d == b + 6
        || (b + 6 < c && Blanks(m, b + 6, c)
            && ((At(m, c, "public") && d == c + 6) || (At(m, c, "weak") && d == c + 4))))
    && d + 1 < p <= |m| && Blanks(m, d, p - 1) && IsQuote(m[p - 1])
  }

  predicate NanopbTail(m: string, p: int, e: int) {
    && 0 < p && At(m, p, "nanopb.proto") && p + 12 < |m| && m[p + 12] == m[p - 1]
    && Blanks(m, p + 13, e) && e < |m| && m[e] == ';'
  }

  predicate ProtobufAt(m: string, f: int) {
    At(m, f, "protobuf") && (f + 8 < |m| ==> !WordChar(m[f + 8]))
  }

  predicate ProtobufFollows(m: string, e: int) {
    exists f | e < f < |m| :: Blanks(m, e + 1, f) && ProtobufAt(m, f)
  }

  predicate DotAt(m: string, p: int, e: int) {
    At(m, p, "meshtastic") && Blanks(m, p + 10, e) && e < |m| && m[e] == '.' && !ProtobufFollows(m, e)
  }

  /** The last offset up to `index` that is not white space, or -1. */
  function Previous(m: string, index: int): (r: int)
    requires index < |m|
    ensures -1 <= r < |m| && (index >= -1 ==> r <= index)
    ensures r >= 0 ==> !IsSpace(m[r])
    ensures forall x :: r < x <= index ==> x >= 0 ==> IsSpace(m[x])
    decreases index + 1
  {
    if index < 0 then -1 else if IsSpace(m[index]) then Previous(m, index - 1) else index
  }

  /** Whether the word at `start` begins a qualified name. */
  predicate IsRoot(m: string, start: nat)
    requires start <= |m|
  {
    var previous := Previous(m, start - 1);
    if previous < 0 then true
    else if m[previous] != '.' then !WordChar(m[previous])
    else
      var before := Previous(m, previous - 1);
      before < 0 || !WordChar(m[before])
  }

  /** Whether the pattern's `target` group starts at `p`. */
  predicate Target(k: Pattern, m: string, p: nat) {
    match k
    case Package => exists e, b, a | 0 <= a <= b <= p <= e < |m| :: PackageMatch(m, a, b, p, e)
    case Import =>
      && At(m, p, "meshtastic/") && !At(m, p + 11, "protobuf/")
      && exists d, c, b, a | 0 <= a <= b <= c <= d < p :: ImportLead(m, a, b, c, d, p)
    case Nanopb =>
      && (exists e | p <= e < |m| :: NanopbTail(m, p, e))
      && exists d, c, b, a | 0 <= a <= b <= c <= d < p :: ImportLead(m, a, b, c, d, p)
    case Symbol => p <= |m| && IsRoot(m, p) && exists e | p <= e < |m| :: DotAt(m, p, e)
  }
}
