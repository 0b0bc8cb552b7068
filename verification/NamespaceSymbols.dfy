/**
 The fourth pattern under a rewrite of its own kind: what decides that a qualified name
 is rooted at the relocated package, before and after.
 */
module NamespaceSymbols {
  import opened NamespacePatterns
  import opened NamespaceShift
  import opened ProtoInsert
  import opened ProtoMask
  import opened Text

  const ADDED := ".protobuf"

  function Longer(m: string, i: nat): (t: string)
    requires i <= |m|
    ensures |t| == |m| + 9
  {
    Insert(m, i, ADDED)
  }

  lemma LongerChars(m: string, i: nat)
    requires i <= |m|
    ensures Longer(m, i) == Insert(m, i, Added(Symbol))
    ensures Copies(m, Longer(m, i), 0, i, 0) && Copies(m, Longer(m, i), i, |m|, 9)
    ensures Copies(Longer(m, i), m, 0, i, 0) && Copies(Longer(m, i), m, i + 9, |m| + 9, -9)
    ensures var t := Longer(m, i);
            t[i] == '.' && t[i + 8] == 'f' && At(t, i + 1, "protobuf") && forall x :: i <= x < i + 9 ==> t[x] != 'm'
  {
    var t := Longer(m, i);
    InsertCopies(m, i, ADDED);
    hide Insert, Copies, Longer;
    forall x | 0 <= x < 9 ensures t[i + x] == ADDED[x] && t[i + x] != 'm' {
    }
    forall x | i + 1 <= x < i + 9 ensures t[x] == "protobuf"[x - (i + 1)] {
      assert t[i + (x - i)] == ADDED[x - i];
    }
    forall x | i <= x < i + 9 ensures t[x] != 'm' {
      assert t[i + (x - i)] == ADDED[x - i];
    }
    assert t[i + 0] == ADDED[0] && t[i + 8] == ADDED[8];
  }

  lemma LongerCopies(m: string, i: nat)
    requires i <= |m|
    ensures Copies(Longer(m, i), m, i + 9, |m| + 9, -9)
  {
    hide Longer, Copies;
    LongerChars(m, i);
  }

  lemma WordChars(t: string, p: int)
    requires At(t, p, "meshtastic")
    ensures 0 <= p && p + 10 <= |t| && t[p] == 'm' && forall x :: p <= x < p + 10 ==> t[x] != '.'
  {
    assert t[p] == "meshtastic"[0];
    forall x | p <= x < p + 10 ensures t[x] != '.' {
      assert t[x] == "meshtastic"[x - p];
    }
  }

  lemma DotNotHere(m: string, i: nat, e: int)
    requires 10 <= i < |m| && Next(Symbol, m, i)
    ensures !DotAt(Longer(m, i), i - 10, e)
  {
    hide Longer;
    var t := Longer(m, i);
    LongerChars(m, i);
    if e == i {
      assert t[i + 9] == m[i];
      assert Blanks(t, e + 1, i + 1) && ProtobufAt(t, i + 1);
    }
  }

  // ----- what follows the dot

  lemma FollowsCarry(m: string, t: string, lo: int, hi: int, d: int, e: int, f: int)
    requires Copies(m, t, lo, hi, d) && lo <= e < f && f + 8 <= hi && (f + 8 == hi ==> hi == |m| && hi + d == |t|)
    requires Blanks(m, e + 1, f) && ProtobufAt(m, f)
    ensures ProtobufFollows(t, e + d)
  {
    AtCarry(m, t, lo, hi, d, f, "protobuf");
    BlanksCarry(m, t, lo, hi, d, e + 1, f);
    hide Copies, At, Blanks;
    assert f + 8 < |m| && f + 8 < hi ==> m[f + 8] == t[f + 8 + d] by { LookUp(m, t, lo, hi, d, f + 8); }
    assert ProtobufAt(t, f + d);
    assert Blanks(t, e + d + 1, f + d);
  }

  // A tip is neither white space nor part of the word `protobuf`, nor the dot.
  lemma ProtobufBeforeTip(m: string, i: int, e: int, f: int)
    requires Tip(Symbol, m, i) && 0 <= e < i && m[e] == '.'
    requires e < f && Blanks(m, e + 1, f) && ProtobufAt(m, f)
    ensures f + 8 < i
  {
    TipChar(Symbol, m, i);
    forall x | f <= x < f + 8 ensures m[x] != 'c' {
      assert m[x] == "protobuf"[x - f];
    }
  }

  lemma FollowsLow(m: string, i: nat, e: int)
    requires i <= |m| && Tip(Symbol, m, i) && 0 <= e < i && m[e] == '.'
    requires ProtobufFollows(m, e)
    ensures ProtobufFollows(Longer(m, i), e)
  {
    hide Longer, Blanks, ProtobufAt, Tip, Copies;
    var f :| e < f < |m| && Blanks(m, e + 1, f) && ProtobufAt(m, f);
    ProtobufBeforeTip(m, i, e, f);
    LongerChars(m, i);
    FollowsCarry(m, Longer(m, i), 0, i, 0, e, f);
  }

  lemma FollowsHigh(m: string, i: nat, e: int)
    requires i <= e && ProtobufFollows(m, e) && i <= |m|
    ensures ProtobufFollows(Longer(m, i), e + 9)
  {
    hide Longer, Blanks, ProtobufAt, Copies;
    var f :| e < f < |m| && Blanks(m, e + 1, f) && ProtobufAt(m, f);
    ProtobufEnd(m, f);
    LongerChars(m, i);
    FollowsCarry(m, Longer(m, i), i, |m|, 9, e, f);
  }

  lemma ProtobufEnd(m: string, f: int)
    requires ProtobufAt(m, f)
    ensures f + 8 <= |m|
  {
  }

  // ----- what stands before the word

  lemma {:induction false} PreviousLow(m: string, t: string, i: int, index: int)
    requires Copies(m, t, 0, i, 0) && index < i
    ensures Previous(t, index) == Previous(m, index)
    decreases index + 1
  {
    if index >= 0 {
      assert m[index] == t[index + 0];
      if IsSpace(m[index]) {
        PreviousLow(m, t, i, index - 1);
      }
    }
  }

  lemma {:induction false} PreviousHigh(m: string, t: string, i: nat, index: int)
    requires |t| == |m| + 9 && Copies(m, t, i, |m|, 9) && !IsSpace(t[i + 8]) && i - 1 <= index < |m|
    ensures var r := Previous(m, index);
            Previous(t, index + 9) == if r >= i then r + 9 else i + 8
    decreases index
  {
    hide Copies, IsSpace;
    if index >= i {
      LookUp(m, t, i, |m|, 9, index);
      if IsSpace(m[index]) {
        PreviousHigh(m, t, i, index - 1);
      }
    } else {
      assert Previous(t, i + 8) == i + 8;
    }
  }

  lemma RootLow(m: string, i: nat, p: nat)
    requires p <= i <= |m| && IsRoot(Longer(m, i), p)
    ensures IsRoot(m, p)
  {
    hide Longer, Previous, Copies;
    var t := Longer(m, i);
    LongerChars(m, i);
    PreviousLow(m, t, i, p - 1);
    var previous := Previous(m, p - 1);
    if previous >= 0 {
      LookUp(m, t, 0, i, 0, previous);
      PreviousLow(m, t, i, previous - 1);
      var before := Previous(m, previous - 1);
      if before >= 0 {
        LookUp(m, t, 0, i, 0, before);
      }
    }
  }

  lemma RootHigh(m: string, i: nat, p: nat)
    requires i <= p <= |m| && IsRoot(Longer(m, i), p + 9)
    ensures IsRoot(m, p)
  {
    hide Longer, Previous, Copies;
    var t := Longer(m, i);
    LongerChars(m, i);
    PreviousHigh(m, t, i, p - 1);
    var previous := Previous(m, p - 1);
    if previous >= i {
      LookUp(m, t, i, |m|, 9, previous);
      PreviousHigh(m, t, i, previous - 1);
      var before := Previous(m, previous - 1);
      if before >= i {
        LookUp(m, t, i, |m|, 9, before);
      }
    }
  }

  // ----- together

  lemma DotLow(m: string, i: nat, p: nat, e: int)
    requires i <= |m| && Tip(Symbol, m, i) && p + 10 < i && DotAt(Longer(m, i), p, e)
    ensures e < i && DotAt(m, p, e)
  {
    hide Longer, Tip, At, ProtobufFollows;
    var t := Longer(m, i);
    LongerChars(m, i);
    TipChar(Symbol, m, i);
    assert m[i - 1] == t[i - 1 + 0];
    AtCarry(t, m, 0, i, 0, p, "meshtastic");
    assert e < i;
    BlanksCarry(t, m, 0, i, 0, p + 10, e);
    if ProtobufFollows(m, e) {
      FollowsLow(m, i, e);
    }
  }

  lemma DotHigh(m: string, i: nat, p: nat, e: int)
    requires i <= |m| && i + 9 <= p && DotAt(Longer(m, i), p, e)
    ensures DotAt(m, p - 9, e - 9)
  {
    hide Longer, At, Blanks, ProtobufFollows, Copies;
    var t := Longer(m, i);
    LongerCopies(m, i);
    BlanksBounds(t, p + 10, e);
    AtCarry(t, m, i + 9, |t|, -9, p, "meshtastic");
    BlanksCarry(t, m, i + 9, |t|, -9, p + 10, e);
    LookUp(t, m, i + 9, |t|, -9, e);
    if ProtobufFollows(m, e - 9) {
      FollowsHigh(m, i, e - 9);
    }
  }

  lemma SymbolBack(m: string, i: nat, p: nat, e: int)
    requires i < |m| && Tip(Symbol, m, i) && Next(Symbol, m, i)
    requires p <= |m| + 9 && IsRoot(Longer(m, i), p) && DotAt(Longer(m, i), p, e)
    ensures || (p + 10 < i && e < i && DotAt(m, p, e) && IsRoot(m, p))
            || (p >= i + 9 && DotAt(m, p - 9, e - 9) && IsRoot(m, p - 9))
  {
    hide Longer, Next, IsRoot, Tip, At, Blanks, ProtobufFollows;
    var t := Longer(m, i);
    LongerChars(m, i);
    WordChars(t, p);
    TipBounds(m, i);
    DotNotHere(m, i, e);
    if p + 10 < i {
      DotLow(m, i, p, e);
      RootLow(m, i, p);
    } else if p >= i + 9 {
      DotHigh(m, i, p, e);
      RootHigh(m, i, p - 9);
    }
  }

  lemma TipBounds(m: string, i: int)
    requires Tip(Symbol, m, i)
    ensures 10 <= i
  {
  }
}
