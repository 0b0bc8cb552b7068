/**
 When a device's channel set is what was requested: the early-return comparison, and
 the equivalence it decides.
 */
module ChannelSets {
  import opened Text

  /** One channel entry; `rest` is everything the comparison does not look at. */
  datatype Settings = Settings(
    psk: string, name: string, id: nat, uplink: bool, downlink: bool, precision: nat, muted: bool, rest: string)
  {
    // The compared fields.
    function View(): Settings {
      this.(rest := "")
    }
  }

  /** A LoRa configuration; `other` is every field that always counts. */
  datatype Lora = Lora(
    usePreset: bool, modemPreset: nat, bandwidth: nat, spreadFactor: nat, codingRate: nat, other: string)

  datatype ChannelSet = ChannelSet(settings: seq<Settings>, lora: Option<Lora>)

  const DEFAULT_CODING_RATE := 5

  // ----- the LoRa comparison

  function Dormant(l: Lora): Lora {
    if l.usePreset then l.(bandwidth := 0, spreadFactor := 0) else l.(modemPreset := 0)
  }

  /** The effective configuration: the side not in use cleared, a preset's zero rate read as the default. */
  function Canonical(l: Lora): Lora {
    var d := Dormant(l);
    if d.usePreset && d.codingRate == 0 then d.(codingRate := DEFAULT_CODING_RATE) else d
  }

  function Effective(lora: Option<Lora>): Option<Lora> {
    match lora case None => None case Some(l) => Some(Canonical(l))
  }

  method LoraConfigMatch(req: ChannelSet, dev: ChannelSet) returns (ok: bool)
    ensures ok <==> Effective(req.lora) == Effective(dev.lora)
  {
    if req.lora.Some? != dev.lora.Some? {
      return false;
    }
    var absent := Lora(false, 0, 0, 0, 0, "");
    var requested := if req.lora.Some? then req.lora.value else absent;
    var device := if dev.lora.Some? then dev.lora.value else absent;
    if requested.usePreset == device.usePreset {
      requested, device := Dormant(requested), Dormant(device);
      if requested.usePreset && requested.codingRate == 0 {
        requested := requested.(codingRate := DEFAULT_CODING_RATE);
      }
      if device.usePreset && device.codingRate == 0 {
        device := device.(codingRate := DEFAULT_CODING_RATE);
      }
    }
    return !(req.lora.Some? && requested != device);
  }

  predicate SettingsMatch(req: Settings, dev: Settings) {
    && req.psk == dev.psk
    && req.name == dev.name
    && req.id == dev.id
    && req.uplink == dev.uplink
    && req.downlink == dev.downlink
    && req.precision == dev.precision
    && req.muted == dev.muted
  }

  // ----- what a match means

  predicate UniqueNames(xs: seq<Settings>) {
    forall i, j :: 0 <= i < j < |xs| ==> xs[i].name != xs[j].name
  }

  function Views(xs: seq<Settings>): (r: seq<Settings>)
    ensures |r| == |xs| && forall i :: 0 <= i < |r| ==> r[i] == xs[i].View()
  {
    seq(|xs|, i requires 0 <= i < |xs| => xs[i].View())
  }

  /** Same primary, same effective radio, same secondaries in any order; names unambiguous. */
  ghost predicate SameChannels(a: ChannelSet, b: ChannelSet) {
    && a.settings != [] && b.settings != []
    && UniqueNames(a.settings) && UniqueNames(b.settings)
    && a.settings[0].View() == b.settings[0].View()
    && Effective(a.lora) == Effective(b.lora)
    && multiset(Views(a.settings[1..])) == multiset(Views(b.settings[1..]))
  }

  // ----- the comparison

  method HasDuplicateNames(xs: seq<Settings>) returns (dup: bool)
    ensures dup <==> !UniqueNames(xs)
  {
    var names := {};
    for i := 0 to |xs|
      invariant names == set j | 0 <= j < i :: xs[j].name
      invariant UniqueNames(xs[..i])
    {
      if xs[i].name in names {
        return true;
      }
      names := names + {xs[i].name};
    }
    assert xs[..|xs|] == xs;
    return false;
  }

  // The lookup by name; with unique names it is the entry itself.
  method Lookup(xs: seq<Settings>) returns (m: map<string, Settings>)
    requires UniqueNames(xs)
    ensures IsLookup(xs, m)
  {
    m := map[];
    for i := 0 to |xs|
      invariant forall j :: 0 <= j < i ==> xs[j].name in m && m[xs[j].name] == xs[j]
      invariant forall name :: name in m ==> m[name].name == name && m[name] in xs[..i]
    {
      m := m[xs[i].name := xs[i]];
    }
  }

  ghost predicate IsLookup(xs: seq<Settings>, m: map<string, Settings>) {
    && (forall i :: 0 <= i < |xs| ==> xs[i].name in m && m[xs[i].name] == xs[i])
    && (forall name :: name in m ==> m[name].name == name && m[name] in xs)
  }

  // Every compared entry of `a` is one of `b`.
  ghost predicate Within(a: seq<Settings>, b: seq<Settings>) {
    forall v :: v in Views(a) ==> v in Views(b)
  }

  lemma {:induction false} CountAtMostOne(vs: seq<Settings>, v: Settings)
    requires forall i, j :: 0 <= i < j < |vs| ==> vs[i] != vs[j]
    ensures multiset(vs)[v] == if v in vs then 1 else 0
  {
    if vs != [] {
      var front, last := vs[..|vs| - 1], vs[|vs| - 1];
      assert vs == front + [last];
      CountAtMostOne(front, v);
      forall i | 0 <= i < |front| ensures front[i] != last {
        assert vs[i] != vs[|vs| - 1];
      }
    }
  }

  lemma ViewCount(xs: seq<Settings>, v: Settings)
    requires UniqueNames(xs)
    ensures multiset(Views(xs))[v] == if v in Views(xs) then 1 else 0
  {
    var vs := Views(xs);
    forall i, j | 0 <= i < j < |vs| ensures vs[i] != vs[j] {
      assert vs[i].name == xs[i].name && vs[j].name == xs[j].name;
    }
    CountAtMostOne(vs, v);
  }

  /** Mutual containment of unambiguous lists is equality as collections. */
  lemma WithinBothWays(a: seq<Settings>, b: seq<Settings>)
    requires UniqueNames(a) && UniqueNames(b)
    ensures Within(a, b) && Within(b, a) <==> multiset(Views(a)) == multiset(Views(b))
  {
    hide UniqueNames;
    forall v
      ensures multiset(Views(a))[v] == (if v in Views(a) then 1 else 0)
      ensures multiset(Views(b))[v] == (if v in Views(b) then 1 else 0)
    {
      ViewCount(a, v);
      ViewCount(b, v);
    }
    if Within(a, b) && Within(b, a) {
      assert forall v :: multiset(Views(a))[v] == multiset(Views(b))[v];
    }
    if multiset(Views(a)) == multiset(Views(b)) {
      forall v ensures v in Views(a) <==> v in Views(b) {
        assert v in multiset(Views(a)) <==> v in multiset(Views(b));
      }
    }
  }

  lemma MatchIsView(a: Settings, b: Settings)
    ensures SettingsMatch(a, b) <==> a.View() == b.View()
  {
  }

  predicate AllMatch(ma: map<string, Settings>, mb: map<string, Settings>) {
    forall name :: name in ma ==> name in mb && SettingsMatch(ma[name], mb[name])
  }

  lemma AllMatchWithin(a: seq<Settings>, b: seq<Settings>, ma: map<string, Settings>, mb: map<string, Settings>)
    requires IsLookup(a, ma) && IsLookup(b, mb)
    ensures AllMatch(ma, mb) <==> Within(a, b)
  {
    if AllMatch(ma, mb) {
      forall v | v in Views(a) ensures v in Views(b) {
        var i :| 0 <= i < |a| && Views(a)[i] == v;
        var y := mb[a[i].name];
        MatchIsView(a[i], y);
        var j :| 0 <= j < |b| && b[j] == y;
        assert Views(b)[j] == v;
      }
    }
    if Within(a, b) {
      forall name | name in ma ensures name in mb && SettingsMatch(ma[name], mb[name]) {
        var i :| 0 <= i < |a| && a[i] == ma[name];
        assert Views(a)[i] in Views(b);
        var j :| 0 <= j < |b| && Views(b)[j] == Views(a)[i];
        assert b[j].name == name;
        MatchIsView(a[i], b[j]);
      }
    }
  }

  lemma AllMatchBack(ma: map<string, Settings>, mb: map<string, Settings>)
    requires ma.Keys == mb.Keys && AllMatch(ma, mb)
    ensures AllMatch(mb, ma)
  {
  }

  lemma ViewsCons(xs: seq<Settings>)
    requires xs != []
    ensures multiset(Views(xs)) == multiset{xs[0].View()} + multiset(Views(xs[1..]))
  {
    assert Views(xs) == [xs[0].View()] + Views(xs[1..]);
  }

  // With the primaries equal, comparing everything is comparing the secondaries.
  lemma PrimariesAside(a: seq<Settings>, b: seq<Settings>)
    requires a != [] && b != [] && a[0].View() == b[0].View()
    ensures multiset(Views(a)) == multiset(Views(b)) <==> multiset(Views(a[1..])) == multiset(Views(b[1..]))
  {
    hide Views;
    ViewsCons(a);
    ViewsCons(b);
    var p := multiset{a[0].View()};
    assert multiset(Views(a)) - p == multiset(Views(a[1..]));
    assert multiset(Views(b)) - p == multiset(Views(b[1..]));
  }

  lemma LookupsDecide(a: seq<Settings>, b: seq<Settings>, ma: map<string, Settings>, mb: map<string, Settings>)
    requires UniqueNames(a) && UniqueNames(b) && IsLookup(a, ma) && IsLookup(b, mb)
    ensures ma.Keys == mb.Keys && AllMatch(ma, mb) <==> multiset(Views(a)) == multiset(Views(b))
  {
    hide UniqueNames, IsLookup, Within, AllMatch;
    AllMatchWithin(a, b, ma, mb);
    AllMatchWithin(b, a, mb, ma);
    WithinBothWays(a, b);
    if ma.Keys == mb.Keys && AllMatch(ma, mb) {
      AllMatchBack(ma, mb);
    }
    if AllMatch(ma, mb) && AllMatch(mb, ma) {
      SameKeys(ma, mb);
    }
  }

  lemma SameKeys(ma: map<string, Settings>, mb: map<string, Settings>)
    requires AllMatch(ma, mb) && AllMatch(mb, ma)
    ensures ma.Keys == mb.Keys
  {
  }

  method VerifyChannelSetsMatch(req: ChannelSet, dev: ChannelSet) returns (ok: bool)
    ensures ok <==> SameChannels(req, dev)
  {
    hide UniqueNames, IsLookup, Views, Effective;
    if req.settings == [] || dev.settings == [] {
      return false;
    }
    MatchIsView(req.settings[0], dev.settings[0]);
    if !SettingsMatch(req.settings[0], dev.settings[0]) {
      return false;
    }
    var dupRequested := HasDuplicateNames(req.settings);
    var dupDevice := HasDuplicateNames(dev.settings);
    if dupRequested || dupDevice {
      return false;
    }
    var requestedLookup := Lookup(req.settings);
    var deviceLookup := Lookup(dev.settings);
    PrimariesAside(req.settings, dev.settings);
    LookupsDecide(req.settings, dev.settings, requestedLookup, deviceLookup);
    if requestedLookup.Keys != deviceLookup.Keys {
      return false;
    }
    var sameLora := LoraConfigMatch(req, dev);
    if !sameLora {
      return false;
    }
    return AllMatch(requestedLookup, deviceLookup);
  }

  // ----- a partial equivalence

  lemma {:induction false} MatchIsPartialEquivalence(a: ChannelSet, b: ChannelSet, c: ChannelSet)
    ensures SameChannels(a, b) ==> SameChannels(b, a)
    ensures SameChannels(a, b) && SameChannels(b, c) ==> SameChannels(a, c)
    ensures SameChannels(a, a) <==> a.settings != [] && UniqueNames(a.settings)
  {
  }

  // ----- the same, field by field

  /** Equal in every compared field. */
  predicate SameEntry(x: Settings, y: Settings) {
    && x.name == y.name && x.psk == y.psk && x.id == y.id && x.uplink == y.uplink && x.downlink == y.downlink
    && x.precision == y.precision && x.muted == y.muted
  }

  function Rate(n: nat): nat {
    if n == 0 then 5 else n
  }

  /** Equal in every field that has an effect in the mode both are in. */
  predicate SameRadio(x: Lora, y: Lora) {
    && x.usePreset == y.usePreset && x.other == y.other
    && if x.usePreset then x.modemPreset == y.modemPreset && Rate(x.codingRate) == Rate(y.codingRate)
       else x.bandwidth == y.bandwidth && x.spreadFactor == y.spreadFactor && x.codingRate == y.codingRate
  }

  ghost predicate EntryAmong(x: Settings, b: seq<Settings>) {
    exists j :: 1 <= j < |b| && SameEntry(x, b[j])
  }

  /** The secondary entries of `a` are among those of `b`. */
  ghost predicate EntriesAmong(a: seq<Settings>, b: seq<Settings>) {
    forall i :: 1 <= i < |a| ==> EntryAmong(a[i], b)
  }

  lemma ViewIsEntry(x: Settings, y: Settings)
    ensures x.View() == y.View() <==> SameEntry(x, y)
  {
  }

  lemma EffectiveIsRadio(x: Option<Lora>, y: Option<Lora>)
    ensures Effective(x) == Effective(y) <==>
            (x.None? && y.None?) || (x.Some? && y.Some? && SameRadio(x.value, y.value))
  {
  }

  lemma AmongIsWithin(a: seq<Settings>, b: seq<Settings>)
    requires a != [] && b != []
    ensures EntriesAmong(a, b) <==> Within(a[1..], b[1..])
  {
    hide SameEntry;
    if EntriesAmong(a, b) {
      forall v | v in Views(a[1..]) ensures v in Views(b[1..]) {
        var i :| 0 <= i < |a| - 1 && Views(a[1..])[i] == v;
        assert a[1..][i] == a[i + 1];
        assert EntryAmong(a[i + 1], b);
        var j :| 1 <= j < |b| && SameEntry(a[i + 1], b[j]);
        ViewIsEntry(a[i + 1], b[j]);
        assert b[1..][j - 1] == b[j] && Views(b[1..])[j - 1] == v;
      }
    }
    if Within(a[1..], b[1..]) {
      forall i | 1 <= i < |a| ensures EntryAmong(a[i], b) {
        assert a[1..][i - 1] == a[i] && Views(a[1..])[i - 1] in Views(b[1..]);
        var j :| 0 <= j < |b| - 1 && Views(b[1..])[j] == Views(a[1..])[i - 1];
        assert b[1..][j] == b[j + 1];
        ViewIsEntry(a[i], b[j + 1]);
      }
    }
  }

  lemma UniqueTail(xs: seq<Settings>)
    requires UniqueNames(xs) && xs != []
    ensures UniqueNames(xs[1..])
  {
    assert forall i :: 0 <= i < |xs| - 1 ==> xs[1..][i] == xs[i + 1];
  }

  /**
   The verdict field by field: both sets have a primary and distinct names; the primaries,
   the effective radio, and the secondaries in any order are equal in what is compared.
   */
  lemma SameChannelsExactly(a: ChannelSet, b: ChannelSet)
    ensures SameChannels(a, b) <==>
            && a.settings != [] && b.settings != []
            && UniqueNames(a.settings) && UniqueNames(b.settings)
            && SameEntry(a.settings[0], b.settings[0])
            && EntriesAmong(a.settings, b.settings) && EntriesAmong(b.settings, a.settings)
            && ((a.lora.None? && b.lora.None?)
                || (a.lora.Some? && b.lora.Some? && SameRadio(a.lora.value, b.lora.value)))
  {
    hide Effective, EntriesAmong, SameEntry, SameRadio, Views, UniqueNames, Within;
    EffectiveIsRadio(a.lora, b.lora);
    if a.settings != [] && b.settings != [] {
      ViewIsEntry(a.settings[0], b.settings[0]);
      AmongIsWithin(a.settings, b.settings);
      AmongIsWithin(b.settings, a.settings);
      if UniqueNames(a.settings) && UniqueNames(b.settings) {
        UniqueTail(a.settings);
        UniqueTail(b.settings);
        WithinBothWays(a.settings[1..], b.settings[1..]);
      }
    }
  }
}
