/**
 Verifying a configuration write by fresh readback: each touched section is cleared
 and requested again, and only payloads captured by this operation's own callbacks,
 while it still accepts them, count as evidence.

 Replies arrive at any time between the operation's own steps; time is a monotonic
 clock that every sleep advances by at least what was asked.
 */
module Readback {
  import ChannelSets
  import opened Text
  import opened ConnectRetry

  // ----- what is requested and what comes back

  datatype Root = LocalConfig | ModuleConfig

  datatype Key = Key(root: Root, section: string)

  datatype Value = Number(n: int) | Flag(b: bool) | Literal(text: string)

  /** All leaves of a section. */
  type Fields = map<string, Value>

  datatype Request = Request(key: Key, known: bool, values: Fields)

  /**
   A reply as the callback sees it: a refusal, a routing acknowledgment, the section's payload, or
   a reply without it, of which the settings handler still stores what sections it holds.
   */
  datatype Packet = Refusal(message: string) | Routine | Elsewhere(stored: map<Key, Fields>) | Payload(fields: Fields)

  datatype Delivery = Delivery(key: Key, packet: Packet)

  /** One payload taken as evidence, and whether the operation was accepting then. */
  datatype Capture = Capture(key: Key, fields: Fields, accepting: bool)

  datatype Status = Verified | Mismatch | ReloadFailed

  datatype Result = Finished(status: Status, mismatched: set<(string, string)>, missing: set<string>)
                  | Refused(message: string)
                  | SendFailed
                  | BadTimeout

  // ----- when a requested leaf is what the device holds

  const EFFECTIVE_DEFAULT: int := 21600
  const LORA: Key := Key(LocalConfig, "lora")

  function Numeric(v: Value): Option<int> {
    match v
    case Number(n) => Some(n)
    case Flag(b) => Some(if b then 1 else 0)
    case Literal(_) => None
  }

  // A flag equals the number it stands for.
  predicate Same(a: Value, b: Value) {
    a == b || (Numeric(a).Some? && Numeric(a) == Numeric(b))
  }

  // An unset field reads as false.
  predicate UsesPreset(fields: Fields) {
    "use_preset" in fields && fields["use_preset"] !in {Flag(false), Number(0), Literal("")}
  }

  /** A modem field without effect in the mode the captured configuration is in. */
  predicate DormantField(key: Key, field: string, fields: Fields) {
    key == LORA
    && if UsesPreset(fields) then field == "bandwidth" || field == "spread_factor" else field == "modem_preset"
  }

  /** Under a preset, a coding rate of 0 means the default. */
  predicate SameCodingRate(key: Key, field: string, requested: Value, fields: Fields)
    requires field in fields
  {
    && key == LORA && UsesPreset(fields) && field == "coding_rate"
    && (requested == Number(0) || requested == Number(ChannelSets.DEFAULT_CODING_RATE))
    && (Numeric(fields[field]) == Some(0) || Numeric(fields[field]) == Some(ChannelSets.DEFAULT_CODING_RATE))
  }

  /** A neighbour-info interval of 0 means the firmware default. */
  predicate SameInterval(section: string, field: string, requested: Value, actual: Value) {
    && section == "neighbor_info" && field == "update_interval"
    && (requested == Number(0) || requested == Number(EFFECTIVE_DEFAULT))
    && (actual == Number(0) || actual == Number(EFFECTIVE_DEFAULT))
  }

  predicate FieldMatches(r: Request, field: string, fields: Fields)
    requires field in r.values
  {
    && field in fields
    && (|| Same(r.values[field], fields[field])
        || DormantField(r.key, field, fields)
        || SameInterval(r.key.section, field, r.values[field], fields[field])
        || SameCodingRate(r.key, field, r.values[field], fields))
  }

  predicate AllFieldsMatch(r: Request, fields: Fields) {
    forall field :: field in r.values ==> FieldMatches(r, field, fields)
  }

  /** All leaves of a LoRa configuration, those that always count as one. */
  function LoraFields(l: ChannelSets.Lora): Fields {
    map["use_preset" := Flag(l.usePreset), "modem_preset" := Number(l.modemPreset), "bandwidth" := Number(l.bandwidth),
        "spread_factor" := Number(l.spreadFactor), "coding_rate" := Number(l.codingRate), "other" := Literal(l.other)]
  }

  /** Requesting all of a LoRa configuration, the readback matches exactly if both have the same effect. */
  lemma LoraReadback(requested: ChannelSets.Lora, device: ChannelSets.Lora)
    ensures AllFieldsMatch(Request(LORA, true, LoraFields(requested)), LoraFields(device))
       <==> ChannelSets.Canonical(requested) == ChannelSets.Canonical(device)
  {
    var r, fields := Request(LORA, true, LoraFields(requested)), LoraFields(device);
    assert AllFieldsMatch(r, fields) <==>
           && FieldMatches(r, "use_preset", fields) && FieldMatches(r, "modem_preset", fields)
           && FieldMatches(r, "bandwidth", fields) && FieldMatches(r, "spread_factor", fields)
           && FieldMatches(r, "coding_rate", fields) && FieldMatches(r, "other", fields);
  }

  // ----- the same, leaf by leaf, by effective values

  /** What a number stands for: 0 is the firmware's default interval of six hours. */
  function Interval(n: int): int {
    if n == 0 then 21600 else n
  }

  function CodingRate(n: int): int {
    if n == 0 then 5 else n
  }

  /** Equal values, a flag counting as 0 or 1. */
  predicate Equal(a: Value, b: Value) {
    match (a, b)
    case (Number(m), Number(n)) => m == n
    case (Flag(p), Flag(q)) => p == q
    case (Number(m), Flag(q)) => m == if q then 1 else 0
    case (Flag(p), Number(n)) => n == if p then 1 else 0
    case (Literal(s), Literal(t)) => s == t
    case _ => false
  }

  predicate PresetOn(fields: Fields) {
    "use_preset" in fields &&
    match fields["use_preset"] case Flag(b) => b case Number(n) => n != 0 case Literal(t) => t != ""
  }

  /** The requested leaf against the captured section. */
  predicate Agrees(key: Key, field: string, requested: Value, fields: Fields) {
    && field in fields
    && var actual := fields[field];
       if key.section == "neighbor_info" && field == "update_interval" && requested.Number? && actual.Number? then
         Interval(requested.n) == Interval(actual.n)
       else if key == Key(LocalConfig, "lora") then
         if field == "modem_preset" then !PresetOn(fields) || Equal(requested, actual)
         else if field == "bandwidth" || field == "spread_factor" then PresetOn(fields) || Equal(requested, actual)
         else if field == "coding_rate" && requested.Number? && actual.Number? && PresetOn(fields) then
           CodingRate(requested.n) == CodingRate(actual.n)
         else if field == "coding_rate" && requested == Number(5) && PresetOn(fields) then
           Equal(requested, actual) || actual == Flag(false)
         else Equal(requested, actual)
       else Equal(requested, actual)
  }

  /** The comparison accepts a leaf exactly if the effective values agree. */
  lemma MatchesExactly(r: Request, field: string, fields: Fields)
    requires field in r.values
    ensures FieldMatches(r, field, fields) <==> Agrees(r.key, field, r.values[field], fields)
  {
  }

  /** The neighbour-info interval: numbers match exactly if they are equal after reading 0 as 21600. */
  lemma IntervalMatches(r: Request, fields: Fields, a: int, b: int)
    requires r.key.section == "neighbor_info"
    requires "update_interval" in r.values && r.values["update_interval"] == Number(a)
    requires "update_interval" in fields && fields["update_interval"] == Number(b)
    ensures FieldMatches(r, "update_interval", fields) <==>
            (if a == 0 then 21600 else a) == (if b == 0 then 21600 else b)
  {
  }

  /** Every other leaf outside the LoRa section matches exactly if it is present and equal. */
  lemma OrdinaryMatches(r: Request, field: string, fields: Fields)
    requires field in r.values && r.key != Key(LocalConfig, "lora")
    requires !(r.key.section == "neighbor_info" && field == "update_interval")
    ensures FieldMatches(r, field, fields) <==> field in fields && Equal(r.values[field], fields[field])
  {
  }

  /** A capture of the section, taken while accepting, agrees with every requested leaf. */
  ghost predicate MetPlainly(r: Request, evidence: seq<Capture>) {
    exists c :: c in evidence && c.key == r.key && c.accepting
                && forall field :: field in r.values ==> Agrees(r.key, field, r.values[field], c.fields)
  }

  ghost predicate PlainlyContradicted(r: Request, field: string, evidence: seq<Capture>) {
    exists c :: c in evidence && c.key == r.key && c.accepting && field in r.values
                && !Agrees(r.key, field, r.values[field], c.fields)
  }

  lemma PlainlyMet(r: Request, evidence: seq<Capture>)
    requires Met(r, evidence)
    ensures MetPlainly(r, evidence)
  {
    hide FieldMatches, Agrees;
    var c :| c in evidence && c.key == r.key && c.accepting && AllFieldsMatch(r, c.fields);
    forall field | field in r.values ensures Agrees(r.key, field, r.values[field], c.fields) {
      MatchesExactly(r, field, c.fields);
    }
  }

  lemma ContradictedPlainly(r: Request, field: string, evidence: seq<Capture>)
    requires Contradicted(r, field, evidence)
    ensures PlainlyContradicted(r, field, evidence)
  {
    hide FieldMatches, Agrees;
    var c :| c in evidence && c.key == r.key && c.accepting && field in r.values && !FieldMatches(r, field, c.fields);
    MatchesExactly(r, field, c.fields);
  }

  const MIN_POLL: real := 0.01

  // Every snapshot entry was captured while the operation was accepting.
  ghost predicate Evidenced(snapshot: map<Key, Fields>, evidence: seq<Capture>) {
    forall k :: k in snapshot ==> Capture(k, snapshot[k], true) in evidence
  }

  // Evidence and refusals are what arrived, unaltered.
  ghost predicate Sourced(evidence: seq<Capture>, errors: map<Key, string>, arrived: seq<Delivery>) {
    && (forall c :: c in evidence ==> Delivery(c.key, Payload(c.fields)) in arrived)
    && (forall k :: k in errors ==> Delivery(k, Refusal(errors[k])) in arrived)
  }

  /** A request met by evidence: some capture of its section, taken while accepting, has every requested leaf. */
  ghost predicate Met(r: Request, evidence: seq<Capture>) {
    exists c :: c in evidence && c.key == r.key && c.accepting && AllFieldsMatch(r, c.fields)
  }

  /** A requested leaf that a capture of its section contradicts. */
  ghost predicate Contradicted(r: Request, field: string, evidence: seq<Capture>) {
    exists c :: c in evidence && c.key == r.key && c.accepting && field in r.values && !FieldMatches(r, field, c.fields)
  }

  predicate WrongLeaf(r: Request, skip: set<string>, snapshot: map<Key, Fields>, leaf: (string, string)) {
    && r.key.section == leaf.0 && leaf.0 !in skip && r.key in snapshot
    && leaf.1 in r.values && !FieldMatches(r, leaf.1, snapshot[r.key])
  }

  predicate AbsentSection(r: Request, skip: set<string>, snapshot: map<Key, Fields>, section: string) {
    r.key.section == section && section !in skip && r.key !in snapshot
  }

  /** Why a section may be reported missing: it is unknown, or the time for it ran out. */
  predicate Unanswered(r: Request, section: string, late: bool) {
    r.key.section == section && (!r.known || late)
  }

  class Operation {
    var accepting: bool
    var received: map<Key, bool>      // the completion event of each request sent
    var errors: map<Key, string>
    var snapshot: map<Key, Fields>    // payloads captured by this operation
    var cache: map<Key, Fields>       // the node's shared cache, updated by anyone
    var sentIds: seq<int>
    var retired: seq<int>             // ids retired in the interface's runtime
    var inbox: seq<Delivery>          // what will arrive, in order
    ghost var arrived: seq<Delivery>  // what has arrived
    ghost var evidence: seq<Capture>
    ghost var slept: real
    ghost var issued: seq<int>        // the ids the requests sent so far came with
    ghost var sendFaults: nat         // requests that could not be sent

    ghost predicate Backed()
      reads this
    {
      Evidenced(snapshot, evidence) && Sourced(evidence, errors, arrived) && slept >= 0.0 && sentIds == issued
    }

    constructor (cache: map<Key, Fields>, inbox: seq<Delivery>)
      ensures Backed() && snapshot == map[] && evidence == [] && sentIds == [] && retired == [] && accepting
          && slept == 0.0 && sendFaults == 0
      ensures received == map[] && errors == map[] && arrived == [] && this.inbox == inbox
    {
      accepting, received, errors, snapshot := true, map[], map[], map[];
      this.cache, this.inbox, sentIds, retired := cache, inbox, [], [];
      arrived, evidence, slept, issued, sendFaults := [], [], 0.0, [], 0;
    }

    /** The callback registered for one request. */
    method CaptureResponse(key: Key, packet: Packet)
      requires Backed() && key in received && Delivery(key, packet) in arrived
      modifies this`received, this`errors, this`snapshot, this`cache, this`evidence
      ensures Backed()
      ensures accepting && packet.Refusal? ==>
                && errors == old(errors)[key := packet.message] && received == old(received)[key := true]
                && snapshot == old(snapshot) && cache == old(cache) && evidence == old(evidence)
      ensures accepting && packet.Payload? ==>
                && snapshot == old(snapshot)[key := packet.fields] && received == old(received)[key := true]
                && cache == old(cache)[key := packet.fields] && errors == old(errors)
                && evidence == old(evidence) + [Capture(key, packet.fields, true)]
      ensures accepting && packet.Elsewhere? ==>
                cache == old(cache) + packet.stored && unchanged(`received, `errors, `snapshot, `evidence)
      ensures !accepting || packet.Routine? ==> unchanged(`received, `errors, `snapshot, `cache, `evidence)
    {
      if !accepting {
        return;
      }
      match packet {
        case Routine =>
          return;
        case Refusal(message) =>
          errors := errors[key := message];
          received := received[key := true];
        case Elsewhere(stored) =>
          cache := cache + stored;
        case Payload(fields) =>
          cache := cache[key := fields];
          ghost var before := evidence;
          evidence := evidence + [Capture(key, fields, accepting)];
          snapshot := snapshot[key := fields];
          received := received[key := true];
          assert evidence == before + [Capture(key, fields, true)];
      }
    }

    // Any number of replies arrive, to this operation or to others.
    method Arrivals()
      requires Backed()
      modifies this`received, this`errors, this`snapshot, this`cache, this`evidence, this`inbox, this`arrived
      ensures Backed() && received.Keys == old(received.Keys)
      ensures arrived + inbox == old(arrived + inbox)
      ensures forall k :: k in old(snapshot) ==> k in snapshot
    {
      var count: nat := *;
      while count > 0 && inbox != []
        invariant Backed() && received.Keys == old(received.Keys)
        invariant arrived + inbox == old(arrived + inbox)
        invariant forall k :: k in old(snapshot) ==> k in snapshot
        decreases |inbox|
      {
        var next := inbox[0];
        ghost var before := arrived;
        assert before + inbox == before + [next] + inbox[1..];
        inbox := inbox[1..];
        arrived := arrived + [next];
        assert forall d :: d in before ==> d in arrived;
        count := count - 1;
        assert next == Delivery(next.key, next.packet);
        if next.key in received {
          CaptureResponse(next.key, next.packet);
        } else if next.packet.Payload? {
          cache := cache[next.key := next.packet.fields];
        } else if next.packet.Elsewhere? {
          cache := cache + next.packet.stored;
        }
      }
    }

    // Send one readback request, with its section cleared and its event not set; it may fail, and
    // the path it takes may expose no id.
    method Send(key: Key) returns (ok: bool, id: Option<int>)
      requires key !in cache && key in received && !received[key]
      modifies this`issued, this`sendFaults
      ensures sendFaults == old(sendFaults) + if ok then 0 else 1
      ensures issued == old(issued) + if ok && id.Some? then [id.value] else []
    {
      ok, id := *, *;
      if !ok {
        sendFaults := sendFaults + 1;
      } else if id.Some? {
        issued := issued + [id.value];
      }
    }

    /** Whether the request is answered by now: refused, present, or not yet. */
    method Probe(key: Key) returns (refusal: Option<string>, present: bool)
      requires Backed() && key in received
      modifies this`received, this`errors, this`snapshot, this`cache, this`evidence, this`inbox, this`arrived
      ensures Backed() && received.Keys == old(received.Keys)
      ensures arrived + inbox == old(arrived + inbox)
      ensures forall k :: k in old(snapshot) ==> k in snapshot
      ensures refusal == if key in errors then Some(errors[key]) else None
      ensures present <==> key !in errors && received[key] && key in snapshot
    {
      Arrivals();
      if key in errors {
        return Some(errors[key]), false;
      }
      return None, received[key] && key in snapshot;
    }

    /** Wait for one section, spending only what is left until the shared deadline, and giving up only past it. */
    method WaitForSection(clock: Clock, key: Key, poll: real, ghost start: real, deadline: real)
      returns (refusal: Option<string>, present: bool)
      requires Backed() && key in received && poll >= MIN_POLL
      requires start + slept <= clock.time && start + slept <= Max(start, deadline)
      modifies clock, this`received, this`errors, this`snapshot, this`cache, this`evidence, this`inbox, this`arrived,
          this`slept
      ensures Backed() && received.Keys == old(received.Keys)
      ensures arrived + inbox == old(arrived + inbox)
      ensures clock.time >= old(clock.time) && start + slept <= clock.time && start + slept <= Max(start, deadline)
      ensures forall k :: k in old(snapshot) ==> k in snapshot
      ensures refusal == if key in errors then Some(errors[key]) else None
      ensures present <==> key !in errors && received[key] && key in snapshot
      ensures refusal.None? && !present ==> clock.time >= deadline
    {
      hide Evidenced, Sourced;
      var now := clock.Now();
      while now < deadline
        invariant Backed() && received.Keys == old(received.Keys)
        invariant arrived + inbox == old(arrived + inbox)
        invariant old(clock.time) <= now <= clock.time
        invariant start + slept <= clock.time && start + slept <= Max(start, deadline)
        invariant forall k :: k in old(snapshot) ==> k in snapshot
        decreases Steps(deadline - now, MIN_POLL)
      {
        refusal, present := Probe(key);
        if refusal.Some? || present {
          return refusal, present;
        }
        ghost var before := now;
        now := clock.Now();
        var remaining := deadline - now;
        if remaining <= 0.0 {
          break;
        }
        var pause := Min(poll, remaining);
        slept := slept + pause;
        clock.Sleep(pause);
        now := clock.Now();
        StepsShrink(deadline - before, deadline - now, MIN_POLL);
      }
      refusal, present := Probe(key);
    }

    // Clear one section, ask for it again, and wait for it.
    method RequestSection(clock: Clock, key: Key, poll: real, ghost start: real, deadline: real)
      returns (sent: bool, refusal: Option<string>, present: bool)
      requires Backed() && poll >= MIN_POLL
      requires start + slept <= clock.time && start + slept <= Max(start, deadline)
      modifies clock, this`received, this`errors, this`snapshot, this`cache, this`evidence
      modifies this`inbox, this`arrived, this`slept, this`sentIds, this`issued, this`sendFaults
      ensures Backed() && arrived + inbox == old(arrived + inbox)
      ensures clock.time >= old(clock.time) && start + slept <= clock.time && start + slept <= Max(start, deadline)
      ensures forall k :: k in old(snapshot) ==> k in snapshot
      ensures sendFaults == old(sendFaults) + if sent then 0 else 1
      ensures !sent ==> refusal.None? && !present
      ensures sent ==> refusal == if key in errors then Some(errors[key]) else None
      ensures present ==> key in snapshot
      ensures sent && refusal.None? && !present ==> clock.time >= deadline
    {
      hide Evidenced, Sourced;
      cache := cache - {key};
      received := received[key := false];
      var ok, id := Send(key);
      if !ok {
        return false, None, false;
      }
      if id.Some? {
        sentIds := sentIds + [id.value];
      }
      sent := true;
      refusal, present := WaitForSection(clock, key, poll, start, deadline);
    }

    /** Clear and request every section; `unanswered` are those skipped or not repopulated in time. */
    method ReloadRequestedSections(clock: Clock, requests: seq<Request>, poll: real, ghost start: real, deadline: real)
      returns (failure: Option<Result>, unanswered: set<string>)
      requires Backed() && poll >= MIN_POLL
      requires start + slept <= clock.time && start + slept <= Max(start, deadline)
      modifies clock, this`received, this`errors, this`snapshot, this`cache, this`evidence
      modifies this`inbox, this`arrived, this`slept, this`sentIds, this`issued, this`sendFaults
      ensures Backed() && arrived + inbox == old(arrived + inbox)
      ensures clock.time >= old(clock.time) && start + slept <= Max(start, deadline)
      ensures failure.None? ==>
                forall i :: 0 <= i < |requests| && requests[i].key.section !in unanswered ==>
                  requests[i].key in snapshot
      ensures failure.Some? ==> failure.value.SendFailed? || RefusedFor(requests, failure.value)
      ensures failure == Some(SendFailed) <==> sendFaults > old(sendFaults)
      ensures Explained(requests, unanswered, clock.time >= deadline)
    {
      hide Evidenced, Sourced, Explained;
      unanswered := {};
      NoneExplained(requests, clock.time >= deadline);
      for i := 0 to |requests|
        invariant Backed() && arrived + inbox == old(arrived + inbox)
        invariant clock.time >= old(clock.time) && start + slept <= clock.time && start + slept <= Max(start, deadline)
        invariant forall j :: 0 <= j < i && requests[j].key.section !in unanswered ==> requests[j].key in snapshot
        invariant Explained(requests, unanswered, clock.time >= deadline) && sendFaults == old(sendFaults)
      {
        var key := requests[i].key;
        if !requests[i].known {
          OneExplained(requests, unanswered, i, clock.time >= deadline);
          unanswered := unanswered + {key.section};
          continue;
        }
        ghost var late := clock.time >= deadline;
        var sent, refusal, present := RequestSection(clock, key, poll, start, deadline);
        StillExplained(requests, unanswered, late, clock.time >= deadline);
        if !sent {
          return Some(SendFailed), unanswered;
        }
        if refusal.Some? {
          return Some(Refused(refusal.value)), unanswered;
        }
        if !present {
          OneExplained(requests, unanswered, i, clock.time >= deadline);
          unanswered := unanswered + {key.section};
        }
      }
      return None, unanswered;
    }

    // A refusal is reported with the words that came back for one of the requests.
    ghost predicate RefusedFor(requests: seq<Request>, r: Result)
      reads this
    {
      && r.Refused?
      && exists i :: 0 <= i < |requests| && requests[i].key in errors && errors[requests[i].key] == r.message
    }

    // Compare the captured sections leaf by leaf; a section that is not there is missing.
    method CollectMismatches(requests: seq<Request>, skip: set<string>)
        returns (mismatched: set<(string, string)>, absent: set<string>)
      ensures forall leaf :: leaf in mismatched <==>
                exists i :: 0 <= i < |requests| && WrongLeaf(requests[i], skip, snapshot, leaf)
      ensures forall name :: name in absent <==>
                exists i :: 0 <= i < |requests| && AbsentSection(requests[i], skip, snapshot, name)
    {
      mismatched, absent := {}, {};
      for i := 0 to |requests|
        invariant forall leaf :: leaf in mismatched <==>
                    exists j :: 0 <= j < i && WrongLeaf(requests[j], skip, snapshot, leaf)
        invariant forall name :: name in absent <==>
                    exists j :: 0 <= j < i && AbsentSection(requests[j], skip, snapshot, name)
      {
        var r := requests[i];
        if r.key.section !in skip {
          if r.key !in snapshot {
            absent := absent + {r.key.section};
          } else {
            var wrong := set field | field in r.values && !FieldMatches(r, field, snapshot[r.key])
              :: (r.key.section, field);
            assert forall leaf :: leaf in wrong <==> WrongLeaf(r, skip, snapshot, leaf);
            mismatched := mismatched + wrong;
          }
        }
      }
    }

    /** What the outcome of the whole operation says about the requests and the evidence. */
    ghost predicate Justified(requests: seq<Request>, r: Result, late: bool)
      reads this
    {
      match r
      case BadTimeout => false
      case SendFailed => true
      case Refused(_) => RefusedFor(requests, r)
      case Finished(status, mismatched, missing) =>
        && status == (if missing != {} then ReloadFailed else if mismatched != {} then Mismatch else Verified)
        && Explained(requests, missing, late)
        && (forall leaf :: leaf in mismatched ==>
              exists i :: 0 <= i < |requests| && requests[i].key.section == leaf.0
                  && Contradicted(requests[i], leaf.1, evidence))
        && (status == Verified ==> forall i :: 0 <= i < |requests| ==> Met(requests[i], evidence))
    }

    /**
     VERIFIED means: every requested section was captured by this operation's own
     callback while it was accepting, and every requested leaf matches that capture.
     A mismatch is contradicted by such a capture, and a section is missing only if it
     is unknown or the shared time is up.  However the operation ends, every id it
     recorded is retired and it accepts no more.
     */
    method VerifyLocalConfigApply(clock: Clock, requests: seq<Request>, poll: real, timeout: real) returns (r: Result)
      requires Backed() && poll >= MIN_POLL
      requires snapshot == map[] && evidence == [] && sentIds == [] && slept == 0.0 && accepting
      modifies clock, this
      ensures Backed() && arrived + inbox == old(arrived + inbox)
      ensures timeout <= 0.0 <==> r.BadTimeout?
      ensures r == SendFailed <==> sendFaults > old(sendFaults)
      ensures r.Finished? && r.status == Verified ==>
                forall i :: 0 <= i < |requests| ==> MetPlainly(requests[i], evidence)
      ensures r.Finished? ==> forall leaf :: leaf in r.mismatched ==>
                exists i :: 0 <= i < |requests| && requests[i].key.section == leaf.0
                            && PlainlyContradicted(requests[i], leaf.1, evidence)
      ensures timeout > 0.0 ==> Justified(requests, r, clock.time >= old(clock.time) + timeout)
      ensures slept <= Max(0.0, timeout)
      ensures timeout > 0.0 && requests != [] ==> !accepting && retired == old(retired) + sentIds
    {
      if timeout <= 0.0 {
        return BadTimeout;
      }
      if requests == [] {
        return Finished(Verified, {}, {});
      }
      ghost var began := clock.time;
      var start := clock.Now();
      r := Attempt(clock, requests, poll, start, start + timeout);
      PlainlyJustified(requests, r, evidence);
      if r.Finished? {
        StillExplained(requests, r.missing, clock.time >= start + timeout, clock.time >= began + timeout);
      }
      accepting := false;
      RetireAll();
    }

    method RetireAll()
      modifies this`retired
      ensures retired == old(retired) + sentIds
    {
      for i := 0 to |sentIds|
        invariant retired == old(retired) + sentIds[..i]
      {
        retired := retired + [sentIds[i]];
        assert sentIds[..i + 1] == sentIds[..i] + [sentIds[i]];
      }
      assert sentIds[..|sentIds|] == sentIds;
    }

    // The part guarded by the operation's final clean-up.
    method Attempt(clock: Clock, requests: seq<Request>, poll: real, start: real, deadline: real) returns (r: Result)
      requires Backed() && poll >= MIN_POLL && start <= deadline
      requires start + slept <= clock.time && start + slept <= deadline
      modifies clock, this`received, this`errors, this`snapshot, this`cache, this`evidence
      modifies this`inbox, this`arrived, this`slept, this`sentIds, this`issued, this`sendFaults
      ensures Backed() && arrived + inbox == old(arrived + inbox) && start + slept <= deadline
      ensures clock.time >= old(clock.time)
      ensures Justified(requests, r, clock.time >= deadline)
      ensures r == SendFailed <==> sendFaults > old(sendFaults)
    {
      var failure, unanswered := ReloadRequestedSections(clock, requests, poll, start, deadline);
      if failure.Some? {
        return failure.value;
      }
      var mismatched, absent := CollectMismatches(requests, unanswered);
      var missing := unanswered + absent;
      forall i | 0 <= i < |requests| ensures requests[i].key.section !in unanswered ==> requests[i].key in snapshot {
      }
      assert absent == {};
      forall leaf | leaf in mismatched
        ensures exists i ::
            0 <= i < |requests| && requests[i].key.section == leaf.0 && Contradicted(requests[i], leaf.1, evidence)
      {
        var i :| 0 <= i < |requests| && WrongLeaf(requests[i], unanswered, snapshot, leaf);
        assert Capture(requests[i].key, snapshot[requests[i].key], true) in evidence;
        assert Contradicted(requests[i], leaf.1, evidence);
      }
      if missing != {} {
        return Finished(ReloadFailed, mismatched, missing);
      }
      if mismatched != {} {
        return Finished(Mismatch, mismatched, {});
      }
      forall i | 0 <= i < |requests| ensures Met(requests[i], evidence) {
        var k := requests[i].key;
        assert Capture(k, snapshot[k], true) in evidence;
        forall field | field in requests[i].values ensures FieldMatches(requests[i], field, snapshot[k]) {
          assert WrongLeaf(requests[i], unanswered, snapshot, (k.section, field)) ==> (k.section, field) in mismatched;
        }
      }
      return Finished(Verified, {}, {});
    }
  }

  /** Every section in the set is unknown, or time ran out for it. */
  ghost predicate Explained(requests: seq<Request>, sections: set<string>, late: bool) {
    forall name :: name in sections ==> exists i :: 0 <= i < |requests| && Unanswered(requests[i], name, late)
  }

  // What the outcome says through the comparison it says plainly.
  lemma PlainlyJustified(requests: seq<Request>, r: Result, evidence: seq<Capture>)
    requires r.Finished? && r.status == Verified ==> forall i :: 0 <= i < |requests| ==> Met(requests[i], evidence)
    requires r.Finished? ==> forall leaf :: leaf in r.mismatched ==>
               exists i :: 0 <= i < |requests| && requests[i].key.section == leaf.0
                           && Contradicted(requests[i], leaf.1, evidence)
    ensures r.Finished? && r.status == Verified ==>
              forall i :: 0 <= i < |requests| ==> MetPlainly(requests[i], evidence)
    ensures r.Finished? ==> forall leaf :: leaf in r.mismatched ==>
              exists i :: 0 <= i < |requests| && requests[i].key.section == leaf.0
                          && PlainlyContradicted(requests[i], leaf.1, evidence)
  {
    hide Met, MetPlainly, Contradicted, PlainlyContradicted;
    if r.Finished? {
      if r.status == Verified {
        forall i | 0 <= i < |requests| ensures MetPlainly(requests[i], evidence) {
          PlainlyMet(requests[i], evidence);
        }
      }
      forall leaf | leaf in r.mismatched
        ensures exists i :: 0 <= i < |requests| && requests[i].key.section == leaf.0
                            && PlainlyContradicted(requests[i], leaf.1, evidence)
      {
        var i :| 0 <= i < |requests| && requests[i].key.section == leaf.0
                 && Contradicted(requests[i], leaf.1, evidence);
        ContradictedPlainly(requests[i], leaf.1, evidence);
      }
    }
  }

  lemma NoneExplained(requests: seq<Request>, late: bool)
    ensures Explained(requests, {}, late)
  {
  }

  lemma OneExplained(requests: seq<Request>, sections: set<string>, i: nat, late: bool)
    requires Explained(requests, sections, late) && i < |requests|
    requires Unanswered(requests[i], requests[i].key.section, late)
    ensures Explained(requests, sections + {requests[i].key.section}, late)
  {
  }

  // Lateness does not pass.
  lemma StillExplained(requests: seq<Request>, sections: set<string>, before: bool, now: bool)
    requires Explained(requests, sections, before) && (before ==> now)
    ensures Explained(requests, sections, now)
  {
    forall name | name in sections ensures exists i :: 0 <= i < |requests| && Unanswered(requests[i], name, now) {
      var i :| 0 <= i < |requests| && Unanswered(requests[i], name, before);
      assert Unanswered(requests[i], name, now);
    }
  }
}
