/**
 The nanopb constraints of a field: which keys of the options file apply to a field
 of a nested message, and how their options merge.
 */
module ProtoInject {
  import opened Text
  import opened ProtoMask
  import opened ProtoScan

  // ----- options

  /** The field options that are carried over, in the order of their texts. */
  datatype OptionName =
    DefaultHas | FixedCount | FixedLength | IntSize | LongNames | MaxCount | MaxLength | MaxSize | MsgId | Proto3
        | SortByTag

  datatype OptionValue = Number(text: string) | Flag(value: bool) | Word(text: string)

  type Options = map<OptionName, OptionValue>

  type Key = seq<string>

  function NameText(o: OptionName): string {
    match o
    case DefaultHas => "default_has"
    case FixedCount => "fixed_count"
    case FixedLength => "fixed_length"
    case IntSize => "int_size"
    case LongNames => "long_names"
    case MaxCount => "max_count"
    case MaxLength => "max_length"
    case MaxSize => "max_size"
    case MsgId => "msgid"
    case Proto3 => "proto3"
    case SortByTag => "sort_by_tag"
  }

  const ORDER: seq<OptionName> :=
    [DefaultHas, FixedCount, FixedLength, IntSize, LongNames, MaxCount, MaxLength, MaxSize, MsgId, Proto3, SortByTag]

  function ValueText(o: OptionName, v: OptionValue): string {
    match v
    case Number(t) => if o == IntSize then "IS_" + t else t
    case Word(t) => if o == IntSize then "IS_" + t else t
    case Flag(b) =>
      if o == IntSize then if b then "IS_True" else "IS_False"
      else if b then "true" else "false"
  }

  function Parts(opts: Options, order: seq<OptionName>): seq<string> {
    if order == [] then []
    else
      (if order[0] in opts
       then ["(nanopb)." + NameText(order[0]) + " = " + ValueText(order[0], opts[order[0]])]
       else [])
      + Parts(opts, order[1..])
  }

  function FormatOptions(opts: Options): string {
    Join(Parts(opts, ORDER), ", ")
  }

  // ----- which options apply to a field

  datatype ScopeKind = MessageScope | OneofScope | EnumScope

  datatype Scope = Scope(kind: ScopeKind, name: string)

  function MessageNames(context: seq<Scope>): seq<string> {
    if context == [] then []
    else
      var last := context[|context| - 1];
      MessageNames(context[..|context| - 1]) + if last.kind == MessageScope then [last.name] else []
  }

  /** Whether the messages around a field end with `path`; an empty path only matches no message at all. */
  predicate MessagePathMatches(names: seq<string>, path: seq<string>) {
    if path == [] then names == []
    else |names| >= |path| && names[|names| - |path|..] == path
  }

  predicate KeyMatches(key: Key, field: string, names: seq<string>) {
    key != [] && key[|key| - 1] == field && MessagePathMatches(names, key[..|key| - 1])
  }

  // The only key of its length that can match.
  function KeyOf(field: string, names: seq<string>, n: nat): Key
    requires n <= |names|
  {
    names[|names| - n..] + [field]
  }

  lemma KeyIsSuffix(key: Key, field: string, names: seq<string>)
    requires KeyMatches(key, field, names)
    ensures |key| - 1 <= |names| && key == KeyOf(field, names, |key| - 1)
  {
    assert key == key[..|key| - 1] + [field];
  }

  datatype Constraints = Constraints(specific: map<Key, Options>, wildcard: map<string, Options>)

  function MatchedKeys(field: string, names: seq<string>, c: Constraints): set<Key> {
    set k | k in c.specific && KeyMatches(k, field, names)
  }

  function MatchedWildcard(field: string, c: Constraints): set<string> {
    if field in c.wildcard then {field} else {}
  }

  function Base(field: string, c: Constraints): Options {
    if field in c.wildcard then c.wildcard[field] else map[]
  }

  /** The wildcard options, overridden by the matching keys with at most `n` messages, shortest first. */
  function Merged(field: string, names: seq<string>, c: Constraints, n: nat): Options
    requires n <= |names|
  {
    var before := if n == 0 then Base(field, c) else Merged(field, names, c, n - 1);
    var key := KeyOf(field, names, n);
    if key in c.specific && KeyMatches(key, field, names) then before + c.specific[key] else before
  }

  function Collected(field: string, names: seq<string>, c: Constraints): Options {
    Merged(field, names, c, |names|)
  }

  ghost predicate Sets(key: Key, o: OptionName, field: string, names: seq<string>, c: Constraints) {
    key in c.specific && KeyMatches(key, field, names) && o in c.specific[key]
  }

  // Merging one more length changes an option only if the key of that length sets it.
  lemma MergeStep(field: string, names: seq<string>, c: Constraints, n: nat, o: OptionName)
    requires n <= |names|
    ensures var here := KeyOf(field, names, n);
            var before := if n == 0 then Base(field, c) else Merged(field, names, c, n - 1);
            if Sets(here, o, field, names, c)
            then o in Merged(field, names, c, n) && Merged(field, names, c, n)[o] == c.specific[here][o]
            else && (o in Merged(field, names, c, n) <==> o in before)
                 && (o in before ==> Merged(field, names, c, n)[o] == before[o])
  {
    hide KeyMatches, KeyOf, Base;
  }

  /** The most specific matching key that sets an option decides it. */
  lemma {:induction false} MostSpecificWins(field: string, names: seq<string>, c: Constraints, n: nat, o: OptionName,
      key: Key)
    requires n <= |names| && Sets(key, o, field, names, c) && |key| <= n + 1
    requires forall k :: Sets(k, o, field, names, c) && |k| <= n + 1 ==> |k| <= |key|
    ensures o in Merged(field, names, c, n) && Merged(field, names, c, n)[o] == c.specific[key][o]
  {
    hide Merged, Sets;
    assert KeyMatches(key, field, names) by { SetsMatches(key, o, field, names, c); }
    KeyIsSuffix(key, field, names);
    MergeStep(field, names, c, n, o);
    if |key| <= n {
      MostSpecificWins(field, names, c, n - 1, o, key);
    }
  }

  lemma SetsMatches(key: Key, o: OptionName, field: string, names: seq<string>, c: Constraints)
    requires Sets(key, o, field, names, c)
    ensures KeyMatches(key, field, names)
  {
  }

  /** When no key sets an option, the wildcard entry for the field name decides it. */
  lemma {:induction false} WildcardOtherwise(field: string, names: seq<string>, c: Constraints, n: nat, o: OptionName)
    requires n <= |names| && forall k :: Sets(k, o, field, names, c) ==> |k| > n + 1
    ensures o in Merged(field, names, c, n) <==> o in Base(field, c)
    ensures o in Base(field, c) ==> Merged(field, names, c, n)[o] == Base(field, c)[o]
  {
    hide Merged, Sets, Base;
    MergeStep(field, names, c, n, o);
    assert |KeyOf(field, names, n)| == n + 1;
    if n > 0 {
      WildcardOtherwise(field, names, c, n - 1, o);
    }
  }

  method CollectFieldOptions(field: string, names: seq<string>, c: Constraints)
    returns (extra: Options, specific: set<Key>, wildcard: set<string>)
    ensures extra == Collected(field, names, c)
    ensures specific == MatchedKeys(field, names, c) && wildcard == MatchedWildcard(field, c)
  {
    hide KeyMatches;
    extra, specific, wildcard := map[], {}, {};
    if field in c.wildcard {
      extra := extra + c.wildcard[field];
      wildcard := wildcard + {field};
    }
    assert extra == Base(field, c);
    forall k | KeyMatches(k, field, names) ensures 1 <= |k| <= |names| + 1 {
      KeyIsSuffix(k, field, names);
    }
    for n := 0 to |names| + 1
      invariant extra == if n == 0 then Base(field, c) else Merged(field, names, c, n - 1)
      invariant specific == set k | k in c.specific && KeyMatches(k, field, names) && |k| <= n
    {
      var key := KeyOf(field, names, n);
      forall k | k in c.specific && KeyMatches(k, field, names) && |k| == n + 1 ensures k == key {
        KeyIsSuffix(k, field, names);
      }
      if key in c.specific && KeyMatches(key, field, names) {
        extra := extra + c.specific[key];
        specific := specific + {key};
      }
    }
  }
}
