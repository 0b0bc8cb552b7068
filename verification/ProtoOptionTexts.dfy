/**
 The texts of options, and which keys apply to a field, spelled out.
 */
module ProtoOptionTexts {
  import opened Text
  import opened ProtoInject

  // ----- which options, under which names

  /** The eleven option names, in alphabetical order. */
  const NAMES: seq<string> :=
    ["default_has", "fixed_count", "fixed_length", "int_size", "long_names", "max_count", "max_length", "max_size",
     "msgid", "proto3", "sort_by_tag"]

  /** The place of an option in the list. */
  function Place(o: OptionName): (i: nat)
    ensures i < 11
  {
    match o
    case DefaultHas => 0
    case FixedCount => 1
    case FixedLength => 2
    case IntSize => 3
    case LongNames => 4
    case MaxCount => 5
    case MaxLength => 6
    case MaxSize => 7
    case MsgId => 8
    case Proto3 => 9
    case SortByTag => 10
  }

  /** The order is alphabetical, and every option is in it once. */
  lemma OrderIsNames(o: OptionName)
    ensures |ORDER| == |NAMES| == 11
    ensures ORDER[Place(o)] == o && NameText(o) == NAMES[Place(o)]
    ensures forall i :: 0 <= i < 11 && ORDER[i] == o ==> i == Place(o)
  {
  }

  // ----- their texts

  /** One option: `(nanopb).name = value`, sizes of integers as `IS_` constants, flags in lower case. */
  predicate Spells(o: OptionName, v: OptionValue, text: string) {
    exists i :: 0 <= i < |NAMES| && i < |ORDER| && ORDER[i] == o && text == "(nanopb)." + NAMES[i] + " = " +
      if o == IntSize then
        "IS_" + (match v case Number(t) => t case Word(t) => t case Flag(b) => if b then "True" else "False")
      else match v case Number(t) => t case Word(t) => t case Flag(b) => if b then "true" else "false"
  }

  /** The options present, each once, in the order of their names. */
  ghost predicate Listing(opts: Options, order: seq<OptionName>, parts: seq<string>)
    decreases order
  {
    if order == [] then parts == []
    else if order[0] in opts then
      parts != [] && Spells(order[0], opts[order[0]], parts[0]) && Listing(opts, order[1..], parts[1..])
    else Listing(opts, order[1..], parts)
  }

  lemma PartSpelled(o: OptionName, v: OptionValue)
    ensures Spells(o, v, "(nanopb)." + NameText(o) + " = " + ValueText(o, v))
  {
    OrderIsNames(o);
    assert ORDER[Place(o)] == o;
    if o == IntSize {
      assert ValueText(o, v)
          == "IS_" + match v case Number(t) => t case Word(t) => t case Flag(b) => if b then "True" else "False";
    }
  }

  lemma {:induction false} PartsList(opts: Options, order: seq<OptionName>)
    ensures Listing(opts, order, Parts(opts, order))
    decreases order
  {
    hide NameText, ValueText, Spells;
    if order != [] {
      PartsList(opts, order[1..]);
      if order[0] in opts {
        PartSpelled(order[0], opts[order[0]]);
        var text := "(nanopb)." + NameText(order[0]) + " = " + ValueText(order[0], opts[order[0]]);
        assert Parts(opts, order) == [text] + Parts(opts, order[1..]);
        assert Parts(opts, order)[0] == text && Parts(opts, order)[1..] == Parts(opts, order[1..]);
      } else {
        assert Parts(opts, order) == [] + Parts(opts, order[1..]) == Parts(opts, order[1..]);
      }
    }
  }

  /** What is inserted for a set of options: each of them, spelled out, in alphabetical order, separated by commas. */
  lemma OptionsSpelled(opts: Options) returns (parts: seq<string>)
    ensures FormatOptions(opts) == Join(parts, ", ") && Listing(opts, ORDER, parts)
  {
    parts := Parts(opts, ORDER);
    PartsList(opts, ORDER);
  }

  // ----- which keys apply

  /** A key applies if it is the field behind its innermost messages; a bare field name only outside messages. */
  lemma KeyMatchesExactly(key: Key, field: string, names: seq<string>)
    ensures KeyMatches(key, field, names) <==>
            && (exists outer :: names + [field] == outer + key)
            && key != [] && (|key| == 1 ==> names == [])
  {
    if KeyMatches(key, field, names) {
      KeyIsSuffix(key, field, names);
      var outer := names[..|names| - (|key| - 1)];
      assert names + [field] == outer + key;
    }
    if outer :| names + [field] == outer + key && key != [] && (|key| == 1 ==> names == []) {
      var all := names + [field];
      assert key == all[|outer|..];
      assert key[|key| - 1] == all[|all| - 1] == field;
      assert key[..|key| - 1] == names[|outer|..];
    }
  }

  /** The messages around a place, oneofs and enums left out, outermost first. */
  lemma {:induction false} NamesOfMessages(context: seq<Scope>, last: Scope)
    ensures MessageNames([]) == []
    ensures MessageNames(context + [last])
         == MessageNames(context) + if last.kind == MessageScope then [last.name] else []
  {
    assert (context + [last])[..|context|] == context;
  }

  /** A field takes from every matching key, the longer one deciding, and from the wildcard where none does. */
  lemma CollectedExactly(field: string, names: seq<string>, c: Constraints, o: OptionName)
    ensures o in Collected(field, names, c) <==>
            || (field in c.wildcard && o in c.wildcard[field])
            || exists k :: Sets(k, o, field, names, c)
  {
    hide Merged, Sets, Base;
    var n := |names|;
    if k :| Sets(k, o, field, names, c) {
      var best := LongestSetting(field, names, c, o, k);
      MostSpecificWins(field, names, c, n, o, best);
    } else {
      WildcardOtherwise(field, names, c, n, o);
      BaseIsWildcard(field, c);
    }
  }

  lemma BaseIsWildcard(field: string, c: Constraints)
    ensures Base(field, c) == if field in c.wildcard then c.wildcard[field] else map[]
  {
  }

  lemma {:induction false} LongestSetting(field: string, names: seq<string>, c: Constraints, o: OptionName, k: Key)
    returns (best: Key)
    requires Sets(k, o, field, names, c)
    ensures Sets(best, o, field, names, c) && |best| <= |names| + 1
    ensures forall l :: Sets(l, o, field, names, c) ==> |l| <= |best|
    decreases |names| + 1 - |k|
  {
    hide KeyMatches;
    SetsMatches(k, o, field, names, c);
    KeyIsSuffix(k, field, names);
    if l :| Sets(l, o, field, names, c) && |l| > |k| {
      SetsMatches(l, o, field, names, c);
      KeyIsSuffix(l, field, names);
      best := LongestSetting(field, names, c, o, l);
    } else {
      best := k;
    }
  }
}
