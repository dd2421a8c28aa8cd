/** The whole parser as a value: its state, registration, and parse_args as
    the composition of its stages. The class in the Parser module is proved
    to follow these definitions. */
module Pipeline {
  import opened ArgTypes
  import opened StringOrder
  import opened Lexical
  import opened Registry
  import opened Sanitizer
  import opened Binder
  import opened Converter

  /** Every field of the parser that its operations read or write. */
  datatype ParserState = ParserState(
    specs: Specs,
    argumentsCount: nat,
    positionalCount: nat,
    optionalCount: nat,
    argc: int,
    execName: string,
    description: string,
    author: string,
    osSep: char,
    raw: seq<string>,
    sanitized: seq<string>,
    drop: bool,
    store: Store)

  /** The state the constructor leaves: what _init sets, the registry and the
      argument vectors empty, the drop flag off. */
  function InitialState(description: string, appName: string, author: string, osSep: char): (st: ParserState)
    ensures st.execName == appName + ".exe" && st.argc == 1
    ensures st.specs == map[] && st.raw == [] && st.sanitized == [] && !st.drop
  {
    ParserState(map[], 0, 0, 0, 1, appName + ".exe", description, author, osSep,
                [], [], false, EmptyStore)
  }

  /** What registrations in the order `order` guarantee about a state. */
  ghost predicate Valid(st: ParserState, order: seq<string>)
  {
    && Registered(st.specs, order, st.positionalCount, st.optionalCount)
    && st.argumentsCount == |order|
    && StoreTyped(st.store, st.specs)
  }

  lemma InitialStateIsValid(description: string, appName: string, author: string, osSep: char)
    ensures Valid(InitialState(description, appName, author, osSep), [])
  {
    var st := InitialState(description, appName, author, osSep);
    forall n ensures TypedAt(st.store, st.specs, n) {
    }
  }

  // ---------------------------------------------------------------------------
  // Registration

  /** add_argument: a duplicate name throws before anything changes. */
  function AddSpec(st: ParserState, name: string, help: string, argType: ArgType,
                   importance: ArgImportance, behavior: ArgSpecialBehavior): (r: Outcome<ParserState>)
    ensures r.Aborted? <==> name in st.specs
    ensures r.Aborted? ==> r.error == Error(DuplicateArgumentError, "") && r.state == st
    ensures r.Done? ==> && r.state.specs.Keys == st.specs.Keys + {name}
                        && r.state.argumentsCount == st.argumentsCount + 1
                        && r.state.positionalCount + r.state.optionalCount
                           == st.positionalCount + st.optionalCount + 1
  {
    if name in st.specs then Aborted(st, Error(DuplicateArgumentError, ""))
    else
      Done(st.(specs := Register(st.specs, st.positionalCount, name, help, argType, importance, behavior),
               positionalCount := if importance == Positional then st.positionalCount + 1 else st.positionalCount,
               optionalCount := if importance == Optional then st.optionalCount + 1 else st.optionalCount,
               argumentsCount := st.argumentsCount + 1))
  }

  /** Registering a taken name fails with DUPLICATE_ARGUMENT_ERROR and changes
      nothing; a new name is added with the next slot, one counter and the
      argument count each grow by one, and the state stays valid with the
      name last in registration order. */
  lemma AddSpecEffect(st: ParserState, order: seq<string>, name: string, help: string,
                      argType: ArgType, importance: ArgImportance, behavior: ArgSpecialBehavior)
    requires Valid(st, order)
    ensures var o := AddSpec(st, name, help, argType, importance, behavior);
            name in st.specs ==> o == Aborted(st, Error(DuplicateArgumentError, ""))
    ensures var o := AddSpec(st, name, help, argType, importance, behavior);
            name !in st.specs ==>
              && o.Done?
              && Valid(o.state, order + [name])
              && o.state.argumentsCount == st.argumentsCount + 1
              && o.state.specs[name] == NewArgConfig(name, help, argType, importance, behavior,
                                                     NextSlot(importance, st.positionalCount))
  {
    if name !in st.specs {
      RegisterKeepsSlots(st.specs, order, st.positionalCount, st.optionalCount, name, help,
                         argType, importance, behavior);
      var s := AddSpec(st, name, help, argType, importance, behavior).state;
      forall n ensures TypedAt(s.store, s.specs, n) {
        assert TypedAt(st.store, st.specs, n);
      }
    }
  }

  /** add_argument left the registry and counters as given and reported
      err: by the field equations, that is AddSpec. */
  lemma AddSpecOf(st: ParserState, name: string, help: string, argType: ArgType,
                  importance: ArgImportance, behavior: ArgSpecialBehavior, err: Error,
                  specs: Specs, pc: nat, oc: nat, ac: nat)
    requires name in st.specs ==>
               err == Error(DuplicateArgumentError, "") && specs == st.specs
               && pc == st.positionalCount && oc == st.optionalCount && ac == st.argumentsCount
    requires name !in st.specs ==>
               && err == Success
               && specs == Register(st.specs, st.positionalCount, name, help, argType, importance, behavior)
               && pc == (if importance == Positional then st.positionalCount + 1 else st.positionalCount)
               && oc == (if importance == Optional then st.optionalCount + 1 else st.optionalCount)
               && ac == st.argumentsCount + 1
    ensures Report(st.(specs := specs, positionalCount := pc, optionalCount := oc, argumentsCount := ac), err)
            == AddSpec(st, name, help, argType, importance, behavior)
  {
  }

  // ---------------------------------------------------------------------------
  // parse_args

  /** The registered names in the order the parser walks them. */
  ghost function Names(specs: Specs): (r: seq<string>)
    ensures Covers(specs, r) && Distinct(r)
    ensures forall n {:trigger n in r} :: n in r <==> n in specs
  {
    OrderedEnumerates(specs.Keys);
    Ordered(specs.Keys)
  }

  /** What parse_args may ask of its input: a vector to take the executable
      name from, and no token that is a lone single quote once split. */
  predicate CanParse(st: ParserState, argv: seq<string>)
  {
    |st.raw + argv| > 0 && NoLoneQuote(st.sanitized + SplitAll((st.raw + argv)[1..]))
  }

  /** The steps before binding: argv is appended to the raw vector, the
      executable name is read from the first raw token ever recorded, and the
      sanitizer appends the split raw vector to the token vector. */
  function Front(st: ParserState, argv: seq<string>): (r: ParserState)
    requires CanParse(st, argv)
    ensures r.raw == st.raw + argv && r.argc == |argv|
    ensures r.specs == st.specs && r.drop == st.drop && r.store == st.store
    ensures r.positionalCount == st.positionalCount && r.optionalCount == st.optionalCount
  {
    var raw := st.raw + argv;
    st.(argc := |argv|, raw := raw, execName := BaseName(raw[0], st.osSep),
        sanitized := Sanitized(st.sanitized, raw))
  }

  /** The recorded executable name holds no separator and ends the first raw
      token; the token vector only grows. */
  lemma FrontNames(st: ParserState, argv: seq<string>)
    requires CanParse(st, argv)
    ensures var r := Front(st, argv);
            && st.osSep !in r.execName
            && |r.execName| <= |r.raw[0]| && r.execName == r.raw[0][|r.raw[0]| - |r.execName|..]
            && |r.sanitized| >= |st.sanitized|
  {
  }

  /** _parse_optional on a state. */
  function OptionalStage(st: ParserState): (r: Outcome<ParserState>)
    ensures st.optionalCount == 0 ==> r == Done(st)
    ensures r.state.sanitized == st.sanitized && r.state.store == st.store
    ensures r.state.positionalCount == st.positionalCount
    ensures r.Aborted? ==> r.error.code == OptionalProvidedWithNoValue
  {
    match OptionalPass(Bindings(st.specs, st.drop), st.sanitized, st.optionalCount)
    case Aborted(b, e) => Aborted(st.(specs := b.specs, drop := b.drop), e)
    case Done(b) => Done(st.(specs := b.specs, drop := b.drop))
  }

  /** _parse_positional on a state. */
  ghost function PositionalWalk(st: ParserState): (r: Outcome<ParserState>)
    ensures st.positionalCount == 0 ==> r == Done(st)
    ensures 0 < st.positionalCount && |st.sanitized| < st.positionalCount
            ==> r == Aborted(st, Error(PositionalError, ""))
    ensures r.state.drop == st.drop && r.state.store == st.store
    ensures r.Aborted? ==> r.error.code == PositionalError
  {
    match PositionalPass(st.specs, st.sanitized, st.positionalCount, Names(st.specs))
    case Aborted(s, e) => Aborted(st.(specs := s), e)
    case Done(s) => Done(st.(specs := s))
  }

  /** The positional step of parse_args: skipped when the drop flag is set. */
  ghost function PositionalStage(st: ParserState): (r: Outcome<ParserState>)
    ensures st.drop ==> r == Done(st)
    ensures r.state.drop == st.drop && r.state.store == st.store
    ensures r.Aborted? ==> r.error.code == PositionalError
  {
    if st.drop then Done(st) else PositionalWalk(st)
  }

  /** _convert_arguments on a state. */
  ghost function ConvertStage(st: ParserState): (r: Outcome<ParserState>)
    ensures r.state.specs == st.specs && r.state.drop == st.drop
    ensures r.Aborted? ==> r.error.code == ConvertArgError && r.error.subject in st.specs
  {
    var names := Names(st.specs);
    match ConvertScan(st.store, st.specs, names, |names|)
    case Aborted(s, e) => Aborted(st.(store := s), e)
    case Done(s) => Done(st.(store := s))
  }

  /** The try block of parse_args: the three stages in order, stopping at
      the first throw. */
  ghost function Stages(st: ParserState): (r: Outcome<ParserState>)
    ensures r.Aborted? ==> r.error.code in {OptionalProvidedWithNoValue, PositionalError, ConvertArgError}
  {
    match OptionalStage(st)
    case Aborted(s, e) => Aborted(s, e)
    case Done(s1) => LaterStages(s1)
  }

  /** The stages after a successful optional stage. */
  ghost function LaterStages(s1: ParserState): (r: Outcome<ParserState>)
    ensures s1.drop ==> r == ConvertStage(s1)
    ensures r.state.drop == s1.drop
    ensures r.Aborted? ==> r.error.code in {PositionalError, ConvertArgError}
  {
    match PositionalStage(s1)
    case Aborted(s, e) => Aborted(s, e)
    case Done(s2) => ConvertStage(s2)
  }

  /** The outcome o reports err, and its final state has these specs, drop
      flag and store. */
  ghost predicate Reports(o: Outcome<ParserState>, err: Error, specs: Specs, drop: bool, store: Store)
  {
    && (o.Done? <==> err.code == NoError) && (o.Aborted? ==> o.error == err)
    && specs == o.state.specs && drop == o.state.drop && store == o.state.store
  }

  /** The stages read off what the optional pass left and what the later
      stages, run only when it did not throw, left after it. */
  lemma StagesOf(st: ParserState, b: Bindings, e1: Error, err: Error, specs: Specs,
                 drop: bool, store: Store)
    requires Report(b, e1) == OptionalPass(Bindings(st.specs, st.drop), st.sanitized, st.optionalCount)
    requires e1.code != NoError ==> err == e1 && specs == b.specs && drop == b.drop && store == st.store
    requires e1.code == NoError ==> Reports(LaterStages(OptionalStage(st).state), err, specs, drop, store)
    ensures Reports(Stages(st), err, specs, drop, store)
  {
    OptionalStageOf(st, b, e1);
  }

  /** parse_args: record the input, then run the stages. */
  ghost function ParseSpec(st: ParserState, argv: seq<string>): (r: Outcome<ParserState>)
    requires CanParse(st, argv)
    ensures r.Aborted? ==> r.error.code in {OptionalProvidedWithNoValue, PositionalError, ConvertArgError}
  {
    Stages(Front(st, argv))
  }

  /** parse_args ended with err and left these fields: the error is the
      whole parse's, and every field is the final state's. */
  ghost predicate ParseOutcome(st: ParserState, argv: seq<string>, err: Error, specs: Specs,
                               drop: bool, store: Store, argc: int, raw: seq<string>,
                               execName: string, sanitized: seq<string>)
  {
    && CanParse(st, argv)
    && var o := ParseSpec(st, argv);
    && (o.Done? <==> err.code == NoError) && (o.Aborted? ==> o.error == err)
    && specs == o.state.specs && drop == o.state.drop && store == o.state.store
    && argc == o.state.argc && raw == o.state.raw
    && execName == o.state.execName && sanitized == o.state.sanitized
  }

  lemma ParseOutcomeOf(st: ParserState, argv: seq<string>, err: Error, specs: Specs,
                       drop: bool, store: Store, argc: int, raw: seq<string>,
                       execName: string, sanitized: seq<string>)
    requires CanParse(st, argv)
    requires Reports(Stages(Front(st, argv)), err, specs, drop, store)
    requires argc == |argv| && raw == st.raw + argv
    requires execName == BaseName(raw[0], st.osSep) && sanitized == Sanitized(st.sanitized, raw)
    ensures ParseOutcome(st, argv, err, specs, drop, store, argc, raw, execName, sanitized)
  {
    ParseRecordsInput(st, argv);
  }

  /** The optional stage read off what the optional pass left in the
      bindings and the error it reported. */
  lemma OptionalStageOf(s: ParserState, b: Bindings, e: Error)
    requires Report(b, e) == OptionalPass(Bindings(s.specs, s.drop), s.sanitized, s.optionalCount)
    ensures var o := OptionalStage(s);
            && (o.Done? <==> e.code == NoError) && (o.Aborted? ==> o.error == e)
            && o.state.specs == b.specs && o.state.drop == b.drop && o.state.store == s.store
            && o.state.sanitized == s.sanitized && o.state.positionalCount == s.positionalCount
  {
  }

  /** The positional stage, in force, read off what the positional pass left
      in the registry. */
  lemma PositionalStageOf(s: ParserState, specs: Specs, e: Error)
    requires !s.drop
    requires Report(specs, e) == PositionalPass(s.specs, s.sanitized, s.positionalCount, Names(s.specs))
    ensures var o := PositionalStage(s);
            && (o.Done? <==> e.code == NoError) && (o.Aborted? ==> o.error == e)
            && o.state.specs == specs && o.state.drop == s.drop && o.state.store == s.store
  {
  }

  /** The conversion stage read off what the conversion loop left in the
      maps. */
  lemma ConvertStageOf(s: ParserState, store: Store, e: Error)
    requires var names := Names(s.specs);
             Report(store, e) == ConvertScan(s.store, s.specs, names, |names|)
    ensures var o := ConvertStage(s);
            && (o.Done? <==> e.code == NoError) && (o.Aborted? ==> o.error == e)
            && o.state.specs == s.specs && o.state.drop == s.drop && o.state.store == store
  {
  }

  // ---------------------------------------------------------------------------
  // The optional stage

  /** The optional stage changes only the registry bindings and the drop
      flag. */
  lemma OptionalStageFrame(s: ParserState)
    ensures var r := OptionalStage(s).state;
            SameSchema(s.specs, r.specs) && r == s.(specs := r.specs, drop := r.drop)
  {
    if s.optionalCount > 0 {
      OptionalScanSchema(Bindings(s.specs, s.drop), s.sanitized, |s.sanitized|);
    }
  }

  /** The optional stage throws iff optional arguments are registered and the
      last token names an argument that takes a value; the error names it. */
  lemma OptionalStageAborts(s: ParserState)
    ensures var o := OptionalStage(s);
            var toks := s.sanitized;
            && (o.Aborted? <==> s.optionalCount > 0 && |toks| > 0 && TakesValueAt(s.specs, toks, |toks| - 1))
            && (o.Aborted? ==> o.error == Error(OptionalProvidedWithNoValue, StripDashes(toks[|toks| - 1])))
  {
    OptionalScanAborts(Bindings(s.specs, s.drop), s.sanitized, |s.sanitized|);
  }

  /** A successful optional stage sets the drop flag iff it was set already
      or a token names a DropPositionalCheck argument, and binds as
      OptionalEffect says; with no optional argument registered it does
      nothing. */
  lemma OptionalStageBinds(s: ParserState)
    requires OptionalStage(s).Done?
    ensures var r := OptionalStage(s).state;
            s.optionalCount == 0 ==> r == s
    ensures var r := OptionalStage(s).state;
            s.optionalCount > 0 ==>
              OptionalEffect(Bindings(s.specs, s.drop), Bindings(r.specs, r.drop), s.sanitized, |s.sanitized|)
  {
    if s.optionalCount > 0 {
      OptionalScanBinds(Bindings(s.specs, s.drop), s.sanitized, |s.sanitized|);
    }
  }

  // ---------------------------------------------------------------------------
  // The positional stage

  lemma PositionalStageFrame(s: ParserState)
    ensures var r := PositionalStage(s).state;
            SameSchema(s.specs, r.specs) && r == s.(specs := r.specs)
  {
    if !s.drop && 0 < s.positionalCount <= |s.sanitized| {
      var names := Names(s.specs);
      PositionalScanSchema(s.specs, s.sanitized, names, |names|);
    }
  }

  /** The positional arguments whose slot holds a token starting with '-'. */
  ghost function DashNames(specs: Specs, toks: seq<string>): set<string>
  {
    set n | n in specs && DashInSlot(specs, toks, n)
  }

  /** With the drop flag set the stage does nothing; with fewer tokens than
      positional arguments it throws POSITIONAL_ERROR naming nothing;
      otherwise it throws iff a positional argument finds a dash token in its
      slot, naming the least such name in map order. */
  lemma PositionalStageAborts(s: ParserState)
    ensures s.drop ==> PositionalStage(s) == Done(s)
    ensures !s.drop && 0 < s.positionalCount && |s.sanitized| < s.positionalCount ==>
              PositionalStage(s) == Aborted(s, Error(PositionalError, ""))
    ensures !s.drop && 0 < s.positionalCount <= |s.sanitized| ==>
              (PositionalStage(s).Aborted? <==> DashNames(s.specs, s.sanitized) != {})
    ensures !s.drop && 0 < s.positionalCount <= |s.sanitized| && PositionalStage(s).Aborted? ==>
              PositionalStage(s).error.code == PositionalError
              && IsLeast(PositionalStage(s).error.subject, DashNames(s.specs, s.sanitized))
  {
    if !s.drop && 0 < s.positionalCount <= |s.sanitized| {
      var names := Names(s.specs);
      var toks := s.sanitized;
      PositionalScanAborts(s.specs, toks, names, |names|);
      var i := FirstDashIndex(s.specs, toks, names, |names|);
      var t := DashNames(s.specs, toks);
      if i < |names| {
        FirstInOrderIsLeast(s.specs.Keys, t, i);
      } else {
        forall n | n in s.specs ensures !DashInSlot(s.specs, toks, n) {
          assert n in names;
          var j :| 0 <= j < |names| && names[j] == n;
        }
      }
    }
  }

  /** Every positional stage error is a POSITIONAL_ERROR. */
  lemma PositionalStageErrorCode(s: ParserState)
    ensures PositionalStage(s).Aborted? ==> PositionalStage(s).error.code == PositionalError
  {
    var names := Names(s.specs);
    PositionalScanAborts(s.specs, s.sanitized, names, |names|);
  }

  /** When there are enough tokens, every positional slot lies inside the
      token sequence: the out-of-range skip of the walk is never taken. */
  lemma SlotsFit(specs: Specs, order: seq<string>, pc: nat, oc: nat, toks: seq<string>, n: string)
    requires Registered(specs, order, pc, oc) && pc <= |toks|
    requires n in specs && specs[n].importance == Positional
    ensures Fillable(specs, toks, n)
  {
    SlotsWithinCount(specs, order, pc, oc);
  }

  /** The full walk visits every registered name. */
  lemma WalkedAll(specs: Specs, n: string)
    requires n in specs
    ensures Walked(Names(specs), |Names(specs)|, n)
  {
    var names := Names(specs);
    WalkedIsMember(names, |names|, n);
    assert names[..|names|] == names;
  }

  /** A successful positional stage binds every positional argument to the
      token in its slot, which does not start with '-', and leaves every
      optional argument's record as it was. */
  lemma PositionalStageBinds(s: ParserState, order: seq<string>, n: string)
    requires Valid(s, order) && !s.drop && PositionalStage(s).Done? && n in s.specs
    ensures var c := s.specs[n];
            var r := PositionalStage(s).state.specs[n];
            if c.importance == Positional
            then 0 < c.pos <= |s.sanitized| && !StartsWithDash(s.sanitized[c.pos - 1])
                 && r == c.(strValue := s.sanitized[c.pos - 1], isSet := true)
            else r == c
  {
    SlotsWithinCount(s.specs, order, s.positionalCount, s.optionalCount);
    OptionalSlotsUnset(s.specs, order, s.positionalCount, s.optionalCount);
    if 0 < s.positionalCount {
      PositionalBindsAll(s, order, n);
    }
  }

  lemma PositionalBindsAll(s: ParserState, order: seq<string>, n: string)
    requires Valid(s, order) && !s.drop && PositionalStage(s).Done? && n in s.specs
    requires 0 < s.positionalCount
    ensures var c := s.specs[n];
            var r := PositionalStage(s).state.specs[n];
            if c.importance == Positional
            then 0 < c.pos <= |s.sanitized| && !StartsWithDash(s.sanitized[c.pos - 1])
                 && r == c.(strValue := s.sanitized[c.pos - 1], isSet := true)
            else r == c
  {
    var toks := s.sanitized;
    var names := Names(s.specs);
    PositionalStageAborts(s);
    assert s.positionalCount <= |toks|;
    assert PositionalStage(s).state.specs == PositionalScan(s.specs, toks, names, |names|).state;
    PositionalScanBinds(s.specs, toks, names, |names|, n);
    WalkedAll(s.specs, n);
    if s.specs[n].importance == Positional {
      SlotsFit(s.specs, order, s.positionalCount, s.optionalCount, toks, n);
      assert n !in DashNames(s.specs, toks);
    }
  }

  // ---------------------------------------------------------------------------
  // The conversion stage

  lemma ConvertStageFrame(s: ParserState)
    ensures var r := ConvertStage(s).state;
            r == s.(store := r.store)
  {
  }

  /** The registered arguments whose bound value fails its type's pattern. */
  ghost function MalformedNames(specs: Specs): set<string>
  {
    set n | n in specs && Malformed(specs[n])
  }

  /** Conversion throws iff some bound numeric value is malformed, with
      CONVERT_ARG_ERROR naming the least such name in map order. */
  lemma ConvertStageAborts(s: ParserState)
    ensures ConvertStage(s).Aborted? <==> MalformedNames(s.specs) != {}
    ensures ConvertStage(s).Aborted? ==>
              ConvertStage(s).error.code == ConvertArgError
              && IsLeast(ConvertStage(s).error.subject, MalformedNames(s.specs))
  {
    var names := Names(s.specs);
    ConvertScanAborts(s.store, s.specs, names, |names|);
    var i := FirstMalformed(s.specs, names, |names|);
    var t := MalformedNames(s.specs);
    if i < |names| {
      FirstInOrderIsLeast(s.specs.Keys, t, i);
    } else {
      forall n | n in s.specs ensures !Malformed(s.specs[n]) {
        assert n in names;
        var j :| 0 <= j < |names| && names[j] == n;
      }
    }
  }

  /** A successful conversion converts every registered argument as its
      record says and leaves the entries of unregistered names alone. */
  lemma ConvertStageConverts(s: ParserState, n: string)
    requires ConvertStage(s).Done?
    ensures n in s.specs ==> Converted(s.store, ConvertStage(s).state.store, n, s.specs[n])
    ensures n !in s.specs ==> Untouched(s.store, ConvertStage(s).state.store, n)
  {
    var names := Names(s.specs);
    WalkedIsMember(names, |names|, n);
    assert names[..|names|] == names;
    ConvertScanEffect(s.store, s.specs, names, |names|, n);
  }

  // ---------------------------------------------------------------------------
  // Whole parses

  /** Every stage keeps the registry valid, whether it succeeds or throws. */
  lemma ParseKeepsValid(st: ParserState, order: seq<string>, argv: seq<string>)
    requires Valid(st, order) && CanParse(st, argv)
    ensures Valid(ParseSpec(st, argv).state, order)
  {
    var s0 := Front(st, argv);
    OptionalStageFrame(s0);
    var s1 := OptionalStage(s0).state;
    SchemaKeepsSlots(s0.specs, s1.specs, order, s0.positionalCount, s0.optionalCount);
    TypingFollowsSchema(s0.store, s0.specs, s1.specs);
    PositionalStageFrame(s1);
    var s2 := PositionalStage(s1).state;
    SchemaKeepsSlots(s1.specs, s2.specs, order, s1.positionalCount, s1.optionalCount);
    TypingFollowsSchema(s1.store, s1.specs, s2.specs);
    var names := Names(s2.specs);
    ConvertScanKeepsTyping(s2.store, s2.specs, names, |names|);
  }

  /** Whatever the outcome, a parse appends argv to the raw vector, appends
      the split raw vector (all of it, earlier tokens included) to the token
      vector and trims every token again, takes the executable name from the
      first raw token ever recorded, and leaves the counters, the separator,
      the description and the author alone. */
  lemma ParseRecordsInput(st: ParserState, argv: seq<string>)
    requires CanParse(st, argv)
    ensures var r := ParseSpec(st, argv).state;
            && r.raw == st.raw + argv
            && r.argc == |argv|
            && r.sanitized == Sanitized(st.sanitized, st.raw + argv)
            && r.execName == BaseName((st.raw + argv)[0], st.osSep)
            && (st.raw != [] ==> r.execName == BaseName(st.raw[0], st.osSep))
            && r.argumentsCount == st.argumentsCount && r.positionalCount == st.positionalCount
            && r.optionalCount == st.optionalCount && r.osSep == st.osSep
            && r.description == st.description && r.author == st.author
  {
    var s0 := Front(st, argv);
    OptionalStageFrame(s0);
    PositionalStageFrame(OptionalStage(s0).state);
  }

  /** A parse fails with OPTIONAL_PROVIDED_WITH_NO_VALUE iff optional
      arguments are registered and the last token names a registered argument
      that takes a value; the error names that argument. */
  lemma ParseNoValueError(st: ParserState, argv: seq<string>)
    requires CanParse(st, argv)
    ensures var o := ParseSpec(st, argv);
            var toks := Front(st, argv).sanitized;
            (o.Aborted? && o.error.code == OptionalProvidedWithNoValue)
            <==> (st.optionalCount > 0 && |toks| > 0 && TakesValueAt(st.specs, toks, |toks| - 1))
    ensures var o := ParseSpec(st, argv);
            var toks := Front(st, argv).sanitized;
            o.Aborted? && o.error.code == OptionalProvidedWithNoValue ==>
              o.error.subject == StripDashes(toks[|toks| - 1])
  {
    var s0 := Front(st, argv);
    OptionalStageAborts(s0);
    if OptionalStage(s0).Done? {
      var s1 := OptionalStage(s0).state;
      PositionalStageErrorCode(s1);
      if PositionalStage(s1).Done? {
        ConvertStageAborts(PositionalStage(s1).state);
      }
    }
  }

  /** Once a DropPositionalCheck argument has been named (in this parse or an
      earlier one), the positional stage is skipped: no POSITIONAL_ERROR, and
      no record is bound by slot. */
  lemma ParseDropSkipsPositional(st: ParserState, argv: seq<string>)
    requires CanParse(st, argv)
    requires var s0 := Front(st, argv);
             OptionalStage(s0).Done? && OptionalStage(s0).state.drop
    ensures var s1 := OptionalStage(Front(st, argv)).state;
            ParseSpec(st, argv) == ConvertStage(s1)
    ensures ParseSpec(st, argv).Aborted? ==> ParseSpec(st, argv).error.code == ConvertArgError
    ensures ParseSpec(st, argv).state.specs == OptionalStage(Front(st, argv)).state.specs
  {
    var s1 := OptionalStage(Front(st, argv)).state;
    ConvertStageAborts(s1);
  }

  /** The drop flag after the optional stage: set before, or set by a token
      naming a DropPositionalCheck argument. */
  lemma OptionalStageDrop(st: ParserState, argv: seq<string>)
    requires CanParse(st, argv) && OptionalStage(Front(st, argv)).Done?
    ensures var s0 := Front(st, argv);
            OptionalStage(s0).state.drop
            <==> st.drop || (st.optionalCount > 0 && DropNamed(st.specs, s0.sanitized, |s0.sanitized|))
  {
    OptionalStageBinds(Front(st, argv));
  }

  /** With the positional stage in force and fewer tokens than positional
      arguments, the parse fails with POSITIONAL_ERROR naming nothing. */
  lemma ParseTooFewPositionals(st: ParserState, argv: seq<string>)
    requires CanParse(st, argv)
    requires var s0 := Front(st, argv);
             OptionalStage(s0).Done? && !OptionalStage(s0).state.drop
             && |s0.sanitized| < st.positionalCount
    ensures ParseSpec(st, argv)
            == Aborted(OptionalStage(Front(st, argv)).state, Error(PositionalError, ""))
  {
    var s0 := Front(st, argv);
    OptionalStageFrame(s0);
    PositionalStageAborts(OptionalStage(s0).state);
  }

  /** After a successful parse every registered argument is converted as its
      final record says, no other name has changed entries, and, unless the
      positional stage was skipped, every positional argument holds the
      token in its slot. */
  lemma ParseResults(st: ParserState, order: seq<string>, argv: seq<string>, n: string)
    requires Valid(st, order) && CanParse(st, argv) && ParseSpec(st, argv).Done?
    ensures var r := ParseSpec(st, argv).state;
            n in st.specs ==> n in r.specs && Converted(st.store, r.store, n, r.specs[n])
    ensures var r := ParseSpec(st, argv).state;
            n !in st.specs ==> Untouched(st.store, r.store, n)
    ensures var r := ParseSpec(st, argv).state;
            var s1 := OptionalStage(Front(st, argv)).state;
            var toks := Front(st, argv).sanitized;
            n in st.specs && !s1.drop && st.specs[n].importance == Positional ==>
              && 0 < st.specs[n].pos <= |toks|
              && r.specs[n] == s1.specs[n].(strValue := toks[st.specs[n].pos - 1], isSet := true)
              && !StartsWithDash(toks[st.specs[n].pos - 1])
  {
    var s0 := Front(st, argv);
    OptionalStageFrame(s0);
    var s1 := OptionalStage(s0).state;
    SchemaKeepsSlots(s0.specs, s1.specs, order, s0.positionalCount, s0.optionalCount);
    TypingFollowsSchema(s0.store, s0.specs, s1.specs);
    PositionalStageFrame(s1);
    var s2 := PositionalStage(s1).state;
    ConvertStageFrame(s2);
    ConvertStageConverts(s2, n);
    if n in st.specs {
      assert Unbound(st.specs[n]) == Unbound(s1.specs[n]);
      if !s1.drop {
        PositionalStageBinds(s1, order, n);
      }
    }
  }

  /** The flag n has a boolean entry: true iff it was named and is a
      StoreTrue flag, or was not named and is a StoreFalse flag. */
  predicate FlagRead(store: Store, specs: Specs, n: string, argType: ArgType)
  {
    && n in specs && n in store.bools
    && store.bools[n] == (specs[n].isSet <==> argType == TStoreTrue)
  }

  /** A successful parse gives every flag a boolean result: a bound
      StoreTrue flag and an unbound StoreFalse flag read true, the other two
      cases false. */
  lemma ParseFlagResult(st: ParserState, order: seq<string>, argv: seq<string>, n: string)
    requires Valid(st, order) && CanParse(st, argv) && ParseSpec(st, argv).Done?
    requires n in st.specs && IsFlag(st.specs[n].argType)
    ensures var r := ParseSpec(st, argv).state;
            FlagRead(r.store, r.specs, n, st.specs[n].argType)
  {
    ParseResults(st, order, argv, n);
    var r := ParseSpec(st, argv).state;
    ParseKeepsValid(st, order, argv);
    assert Unbound(st.specs[n]) == Unbound(r.specs[n]) by {
      var s0 := Front(st, argv);
      OptionalStageFrame(s0);
      PositionalStageFrame(OptionalStage(s0).state);
      ConvertStageFrame(PositionalStage(OptionalStage(s0).state).state);
    }
  }
}
