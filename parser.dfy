/** The ArgumentParser object: its fields, and every operation written as
    the loops that update them. Each method is proved to leave exactly the
    fields (and report exactly the error) that the Pipeline definitions
    prescribe, so the properties proved there hold of the object. */
module Parser {
  import opened ArgTypes
  import opened StringOrder
  import opened Lexical
  import opened Registry
  import opened Sanitizer
  import opened Binder
  import opened Converter
  import opened Pipeline

  /** The inner loop of _parse_optional: erase the first character while it
      is '-'. */
  method EraseLeadingDashes(t: string) returns (r: string)
    ensures r == StripDashes(t)
  {
    r := t;
    while StartsWithDash(r)
      invariant StripDashes(r) == StripDashes(t)
      decreases |r|
    {
      r := r[1..];
    }
  }

  class ArgumentParser {
    var arguments: Specs
    var argumentsCount: nat
    var positionalCount: nat
    var optionalCount: nat
    var argc: int
    var execName: string
    var description: string
    var author: string
    var osSep: char
    var rawArguments: seq<string>
    var sanitizedArguments: seq<string>
    var dropPositional: bool
    var argMapString: map<string, string>
    var argMapInt: map<string, int>
    var argMapFloat: map<string, string>
    var argMapDouble: map<string, string>
    var argMapBool: map<string, bool>

    /** The object's fields as a value. */
    function State(): ParserState
      reads this
    {
      ParserState(arguments, argumentsCount, positionalCount, optionalCount, argc, execName,
                  description, author, osSep, rawArguments, sanitizedArguments, dropPositional,
                  Results())
    }

    /** The three-argument constructor: the fields it initialises, then
        _init. */
    constructor(description: string, appName: string, author: string, osSep: char)
      ensures State() == InitialState(description, appName, author, osSep)
    {
      this.description := description;
      this.execName := appName + ".exe";
      this.author := author;
      this.argc := 1;
      this.argumentsCount := 0;
      this.positionalCount := 0;
      this.optionalCount := 0;
      this.osSep := osSep;
      this.arguments := map[];
      this.rawArguments := [];
      this.sanitizedArguments := [];
      this.dropPositional := false;
      this.argMapString := map[];
      this.argMapInt := map[];
      this.argMapFloat := map[];
      this.argMapDouble := map[];
      this.argMapBool := map[];
    }

    /** The default constructor: empty description, application name and
        author. */
    constructor Default(osSep: char)
      ensures State() == InitialState("", "", "", osSep)
      ensures execName == ".exe"
    {
      this.description := "";
      this.execName := ".exe";
      this.author := "";
      this.argc := 1;
      this.argumentsCount := 0;
      this.positionalCount := 0;
      this.optionalCount := 0;
      this.osSep := osSep;
      this.arguments := map[];
      this.rawArguments := [];
      this.sanitizedArguments := [];
      this.dropPositional := false;
      this.argMapString := map[];
      this.argMapInt := map[];
      this.argMapFloat := map[];
      this.argMapDouble := map[];
      this.argMapBool := map[];
    }

    // -------------------------------------------------------------------------
    // Registration

    /** add_argument; the defaults are those of the declaration. A taken
        name throws before anything changes; a new one is registered with
        the next slot and one counter and the argument count grow by one. */
    method AddArgument(name: string, help: string, argType: ArgType := TString,
                       importance: ArgImportance := Positional,
                       behavior: ArgSpecialBehavior := ArgSpecialBehavior.None)
      returns (err: Error)
      modifies this`arguments, this`positionalCount, this`optionalCount, this`argumentsCount
      ensures name in old(arguments) ==>
                && err == Error(DuplicateArgumentError, "") && arguments == old(arguments)
                && positionalCount == old(positionalCount) && optionalCount == old(optionalCount)
                && argumentsCount == old(argumentsCount)
      ensures name !in old(arguments) ==>
                && err == Success
                && arguments == Register(old(arguments), old(positionalCount), name, help, argType,
                                         importance, behavior)
                && positionalCount == (if importance == Positional then old(positionalCount) + 1
                                       else old(positionalCount))
                && optionalCount == (if importance == Optional then old(optionalCount) + 1
                                     else old(optionalCount))
                && argumentsCount == old(argumentsCount) + 1
      ensures Report(State(), err) == AddSpec(old(State()), name, help, argType, importance, behavior)
    {
      ghost var st0 := State();
      if name in arguments {
        err := Error(DuplicateArgumentError, "");
        AddSpecOf(st0, name, help, argType, importance, behavior, err,
                  arguments, positionalCount, optionalCount, argumentsCount);
        return;
      }
      RegisterNew(name, help, argType, importance, behavior);
      err := Success;
      AddSpecOf(st0, name, help, argType, importance, behavior, err,
                arguments, positionalCount, optionalCount, argumentsCount);
    }

    /** The registering half of add_argument, for a name not yet taken. */
    method RegisterNew(name: string, help: string, argType: ArgType, importance: ArgImportance,
                       behavior: ArgSpecialBehavior)
      modifies this`arguments, this`positionalCount, this`optionalCount, this`argumentsCount
      ensures arguments == Register(old(arguments), old(positionalCount), name, help, argType,
                                    importance, behavior)
      ensures positionalCount == (if importance == Positional then old(positionalCount) + 1
                                  else old(positionalCount))
      ensures optionalCount == (if importance == Optional then old(optionalCount) + 1
                                else old(optionalCount))
      ensures argumentsCount == old(argumentsCount) + 1
    {
      if importance == Positional {
        positionalCount := positionalCount + 1;
        arguments := arguments[name := NewArgConfig(name, help, argType, importance, behavior,
                                                    positionalCount)];
      }
      if importance == Optional {
        optionalCount := optionalCount + 1;
        arguments := arguments[name := NewArgConfig(name, help, argType, importance, behavior, -1)];
      }
      argumentsCount := argumentsCount + 1;
    }

    // -------------------------------------------------------------------------
    // The stages of parse_args

    /** The first loop of parse_args: push every token of argv onto the raw
        vector. */
    method RecordArguments(argv: seq<string>)
      modifies this`rawArguments
      ensures rawArguments == old(rawArguments) + argv
    {
      var it := 0;
      while it < |argv|
        invariant 0 <= it <= |argv|
        invariant rawArguments == old(rawArguments) + argv[..it]
      {
        rawArguments := rawArguments + [argv[it]];
        it := it + 1;
      }
      assert argv[..it] == argv;
    }

    /** _parse_exec_name: cut the first raw token after its first separator
        until none is left. */
    method ParseExecName()
      requires |rawArguments| > 0
      modifies this`execName
      ensures execName == BaseName(rawArguments[0], osSep)
    {
      var temp := rawArguments[0];
      while FirstIndexOf(temp, osSep) < |temp|
        invariant BaseName(temp, osSep) == BaseName(rawArguments[0], osSep)
        decreases |temp|
      {
        var i := FirstIndexOf(temp, osSep);
        BaseNameAfterSep(temp, osSep, i);
        temp := temp[i + 1..];
      }
      execName := temp;
    }

    /** _sanitize_arguments_vector: push the split raw tokens after the
        first, then trim the quotes of every token. */
    method SanitizeArgumentsVector()
      requires |rawArguments| > 0 && NoLoneQuote(sanitizedArguments + SplitAll(rawArguments[1..]))
      modifies this`sanitizedArguments
      ensures sanitizedArguments == Sanitized(old(sanitizedArguments), rawArguments)
    {
      SplitArguments();
      TrimArguments();
    }

    /** The first loop of the sanitizer: every raw token after argv[0] is
        appended, a dashed token with a value as its two halves. */
    method SplitArguments()
      requires |rawArguments| > 0
      modifies this`sanitizedArguments
      ensures sanitizedArguments == old(sanitizedArguments) + SplitAll(rawArguments[1..])
    {
      ghost var previous := sanitizedArguments;
      var i := 1;
      while i < |rawArguments|
        invariant 1 <= i <= |rawArguments|
        invariant sanitizedArguments == previous + SplitAll(rawArguments[1..i])
      {
        SplitAllPush(rawArguments, i);
        SplitOne(rawArguments[i]);
        i := i + 1;
      }
      assert rawArguments[1..i] == rawArguments[1..];
    }

    /** One step of the first loop: token t is appended, cut at its first
        '=' when it is a dashed token with a value. */
    method SplitOne(t: string)
      modifies this`sanitizedArguments
      ensures sanitizedArguments == old(sanitizedArguments) + SplitToken(t)
    {
      if IsOptional(t) {
        var ch := FirstIndexOf(t, '=');
        sanitizedArguments := sanitizedArguments + [t[..ch]];
        sanitizedArguments := sanitizedArguments + [t[ch + 1..]];
      } else {
        sanitizedArguments := sanitizedArguments + [t];
      }
    }

    /** The second loop of the sanitizer: the quotes around every token
        are erased. */
    method TrimArguments()
      requires NoLoneQuote(sanitizedArguments)
      modifies this`sanitizedArguments
      ensures sanitizedArguments == TrimAll(old(sanitizedArguments))
    {
      ghost var split := sanitizedArguments;
      var j := 0;
      while j < |sanitizedArguments|
        invariant 0 <= j <= |sanitizedArguments| == |split|
        invariant forall k :: 0 <= k < j ==> sanitizedArguments[k] == TrimQuotes(split[k])
        invariant forall k :: j <= k < |split| ==> sanitizedArguments[k] == split[k]
      {
        TrimOne(j);
        j := j + 1;
      }
      assert sanitizedArguments == TrimAll(split);
    }

    /** One step of the second loop: the quotes around token j are erased. */
    method TrimOne(j: nat)
      requires j < |sanitizedArguments| && sanitizedArguments[j] != "'"
      modifies this`sanitizedArguments
      ensures sanitizedArguments == old(sanitizedArguments)[j := TrimQuotes(old(sanitizedArguments)[j])]
    {
      var t := sanitizedArguments[j];
      // find_first_of on an empty token gives npos, which is not 0
      if 0 < |t| && FirstIndexOf(t, '\'') == 0 && LastIndexOf(t, '\'') == |t| - 1 {
        t := t[1..];
        t := t[..|t| - 1];
        assert t == TrimQuotes(old(sanitizedArguments)[j]);
        sanitizedArguments := sanitizedArguments[j := t];
      }
    }

    /** _parse_optional: walk the tokens, binding every registered name a
        dashed token mentions; the first throw ends the walk and leaves the
        bindings made before it. */
    method ParseOptional() returns (err: Error)
      modifies this`arguments, this`dropPositional
      ensures var o := OptionalPass(old(Bindings(arguments, dropPositional)), sanitizedArguments, optionalCount);
              Report(Bindings(arguments, dropPositional), err) == o
    {
      if optionalCount == 0 {
        return Success;
      }
      ghost var b0 := Bindings(arguments, dropPositional);
      var i := 0;
      while i < |sanitizedArguments|
        invariant 0 <= i <= |sanitizedArguments|
        invariant OptionalScan(b0, sanitizedArguments, i) == Done(Bindings(arguments, dropPositional))
      {
        err := BindOptional(i);
        if err.code != NoError {
          assert i + 1 == |sanitizedArguments|;
          return;
        }
        i := i + 1;
      }
      err := Success;
    }

    /** The body of the _parse_optional loop for the token at index i: a
        dashed token naming a registered argument binds it (a flag to its
        marker, anything else to the next token) and sets the drop flag if
        the argument asks for it; one that needs a value the last token
        cannot give throws. */
    method BindOptional(i: nat) returns (err: Error)
      requires i < |sanitizedArguments|
      modifies this`arguments, this`dropPositional
      ensures Report(Bindings(arguments, dropPositional), err)
              == OptionalStep(old(Bindings(arguments, dropPositional)), sanitizedArguments, i)
    {
      var temp := sanitizedArguments[i];
      err := Success;
      if StartsWithDash(temp) {
        temp := EraseLeadingDashes(temp);
        if temp in arguments {
          err := BindNamed(temp, i);
        }
      }
    }

    /** The registered argument n, named by the token at index i, takes its
        value: a flag its mark, any other the next token, or the loop throws
        when there is none. */
    method BindNamed(n: string, i: nat) returns (err: Error)
      requires i < |sanitizedArguments| && n in arguments
      requires StartsWithDash(sanitizedArguments[i]) && StripDashes(sanitizedArguments[i]) == n
      modifies this`arguments, this`dropPositional
      ensures Report(Bindings(arguments, dropPositional), err)
              == OptionalStep(old(Bindings(arguments, dropPositional)), sanitizedArguments, i)
    {
      var toks := sanitizedArguments;
      var c := arguments[n];
      if c.behavior == DropPositionalCheck {
        dropPositional := true;
      }
      if c.argType == TStoreTrue {
        arguments := arguments[n := c.(strValue := StoreTrueMark, isSet := true)];
      } else if c.argType == TStoreFalse {
        arguments := arguments[n := c.(strValue := StoreFalseMark, isSet := true)];
      } else if i + 1 < |toks| {
        arguments := arguments[n := c.(isSet := true, strValue := toks[i + 1])];
      } else {
        return Error(OptionalProvidedWithNoValue, n);
      }
      err := Success;
    }

    /** The registered names in the order a std::map iterator visits them. */
    method SortedNames() returns (names: seq<string>)
      ensures names == Names(arguments)
    {
      var rest := arguments.Keys;
      names := [];
      while rest != {}
        invariant names + Ordered(rest) == Ordered(arguments.Keys)
        decreases |rest|
      {
        LeastExists(rest);
        var k :| IsLeast(k, rest);
        LeastUnique(k, Least(rest), rest);
        names := names + [k];
        rest := rest - {k};
      }
    }

    /** _parse_positional: give every positional argument the token in its
        slot, walking the registry in map order; the first throw ends the
        walk. */
    method ParsePositional() returns (err: Error)
      modifies this`arguments
      ensures Report(arguments, err)
              == PositionalPass(old(arguments), sanitizedArguments, positionalCount, Names(old(arguments)))
    {
      if positionalCount == 0 {
        return Success;
      }
      if positionalCount > |sanitizedArguments| {
        return Error(PositionalError, "");
      }
      err := BindPositionals();
    }

    /** The loop of _parse_positional over the registry in map order; the
        first throw ends it and keeps the bindings made before it. */
    method BindPositionals() returns (err: Error)
      modifies this`arguments
      ensures var names := Names(old(arguments));
              Report(arguments, err) == PositionalScan(old(arguments), sanitizedArguments, names, |names|)
    {
      var names := SortedNames();
      ghost var s0 := arguments;
      var k := 0;
      while k < |names|
        invariant 0 <= k <= |names| && names == Names(s0)
        invariant PositionalScan(s0, sanitizedArguments, names, k) == Done(arguments)
      {
        PositionalScanNext(s0, sanitizedArguments, names, k, arguments);
        err := BindPositional(names[k]);
        if err.code != NoError {
          PositionalScanAbortPersists(s0, sanitizedArguments, names, k + 1, |names|);
          return;
        }
        k := k + 1;
      }
      err := Success;
    }

    /** The body of the _parse_positional loop for the argument n: an
        optional argument or a slot outside the tokens is skipped, a token
        starting with '-' throws, any other binds n. */
    method BindPositional(n: string) returns (err: Error)
      requires n in arguments
      modifies this`arguments
      ensures Report(arguments, err) == PositionalStep(old(arguments), sanitizedArguments, n)
    {
      var toks := sanitizedArguments;
      var c := arguments[n];
      if c.importance == Positional {
        var p := c.pos - 1;
        if !(p > |toks| - 1 || p < 0) {
          if StartsWithDash(toks[p]) {
            return Error(PositionalError, n);
          }
          arguments := arguments[n := c.(strValue := toks[p], isSet := true)];
        }
      }
      err := Success;
    }

    /** The five result maps as a value. */
    function Results(): Store
      reads this`argMapString, this`argMapInt, this`argMapFloat, this`argMapDouble, this`argMapBool
    {
      Store(argMapString, argMapInt, argMapFloat, argMapDouble, argMapBool)
    }

    /** _convert_arguments: copy every bound value into the map of its type,
        and give every flag its boolean, walking the registry in map order;
        the first malformed number throws. */
    method ConvertArguments() returns (err: Error)
      modifies this`argMapString, this`argMapInt, this`argMapFloat, this`argMapDouble, this`argMapBool
      ensures var names := Names(arguments);
              Report(Results(), err) == ConvertScan(old(Results()), arguments, names, |names|)
    {
      var names := SortedNames();
      ghost var st0 := Results();
      var k := 0;
      while k < |names|
        invariant 0 <= k <= |names| && names == Names(arguments)
        invariant ConvertScan(st0, arguments, names, k) == Done(Results())
      {
        ConvertScanNext(st0, arguments, names, k, Results());
        err := ConvertOne(names[k]);
        if err.code != NoError {
          ConvertScanAbortPersists(st0, arguments, names, k + 1, |names|);
          return;
        }
        k := k + 1;
      }
      err := Success;
    }

    /** The body of the _convert_arguments loop for the argument n. */
    method ConvertOne(n: string) returns (err: Error)
      requires n in arguments
      modifies this`argMapString, this`argMapInt, this`argMapFloat, this`argMapDouble, this`argMapBool
      ensures Report(Results(), err) == ConvertStep(old(Results()), n, arguments[n])
    {
      var c := arguments[n];
      if c.isSet {
        match c.argType {
          case TString =>
            argMapString := argMapString[n := c.strValue];
          case TInt =>
            if !IsIntLexeme(c.strValue) {
              return Error(ConvertArgError, n);
            }
            argMapInt := argMapInt[n := IntValue(c.strValue)];
          case TFloat =>
            if !IsFloatLexeme(c.strValue) {
              return Error(ConvertArgError, n);
            }
            argMapFloat := argMapFloat[n := c.strValue];
          case TDouble =>
            if !IsFloatLexeme(c.strValue) {
              return Error(ConvertArgError, n);
            }
            argMapDouble := argMapDouble[n := c.strValue];
          case TStoreTrue =>
            argMapBool := argMapBool[n := true];
          case TStoreFalse =>
            argMapBool := argMapBool[n := false];
        }
      } else if c.argType == TStoreTrue {
        argMapBool := argMapBool[n := false];
      } else if c.argType == TStoreFalse {
        argMapBool := argMapBool[n := true];
      }
      err := Success;
    }

    /** The start of parse_args: record argc and argv, read the executable
        name and sanitize the raw vector. */
    method ReadInput(argv: seq<string>)
      requires CanParse(State(), argv)
      modifies this`argc, this`rawArguments, this`execName, this`sanitizedArguments
      ensures argc == |argv| && rawArguments == old(rawArguments) + argv
      ensures execName == BaseName(rawArguments[0], osSep)
      ensures sanitizedArguments == Sanitized(old(sanitizedArguments), rawArguments)
    {
      argc := |argv|;
      RecordArguments(argv);
      ParseExecName();
      SanitizeArgumentsVector();
    }

    /** The try block of parse_args: the optional stage, then the later
        stages unless it threw. The stages read the fields st describes. */
    method RunStages(ghost st: ParserState) returns (err: Error)
      requires st.specs == arguments && st.drop == dropPositional && st.store == Results()
      requires st.sanitized == sanitizedArguments
      requires st.positionalCount == positionalCount && st.optionalCount == optionalCount
      modifies this`arguments, this`dropPositional
      modifies this`argMapString, this`argMapInt, this`argMapFloat, this`argMapDouble, this`argMapBool
      ensures Reports(Stages(st), err, arguments, dropPositional, Results())
    {
      err := ParseOptional();
      ghost var b, e1 := Bindings(arguments, dropPositional), err;
      OptionalStageOf(st, b, e1);
      if err.code == NoError {
        err := RunLaterStages(OptionalStage(st).state);
      }
      StagesOf(st, b, e1, err, arguments, dropPositional, Results());
    }

    /** The positional stage unless the drop flag is set, then conversion
        unless it threw. */
    method RunLaterStages(ghost s1: ParserState) returns (err: Error)
      requires s1.specs == arguments && s1.drop == dropPositional && s1.store == Results()
      requires s1.sanitized == sanitizedArguments && s1.positionalCount == positionalCount
      modifies this`arguments
      modifies this`argMapString, this`argMapInt, this`argMapFloat, this`argMapDouble, this`argMapBool
      ensures Reports(LaterStages(s1), err, arguments, dropPositional, Results())
    {
      err := Success;
      if !dropPositional {
        err := ParsePositional();
        PositionalStageOf(s1, arguments, err);
      }
      if err.code == NoError {
        ghost var s2 := PositionalStage(s1).state;
        err := ConvertArguments();
        ConvertStageOf(s2, Results(), err);
      }
    }

    /** parse_args: the error reported and every field written are those
        of the whole parse. */
    method ParseArgs(argv: seq<string>) returns (err: Error)
      requires CanParse(State(), argv)
      modifies this`argc, this`rawArguments, this`execName, this`sanitizedArguments
      modifies this`arguments, this`dropPositional
      modifies this`argMapString, this`argMapInt, this`argMapFloat, this`argMapDouble, this`argMapBool
      ensures ParseOutcome(old(State()), argv, err, arguments, dropPositional, Results(),
                           argc, rawArguments, execName, sanitizedArguments)
    {
      ghost var st0 := State();
      ghost var f := Front(st0, argv);
      ReadInput(argv);
      err := RunStages(f);
      ParseOutcomeOf(st0, argv, err, arguments, dropPositional, Results(),
                     argc, rawArguments, execName, sanitizedArguments);
    }

    /** parse_check_help: whether some token is "--help" or "/?". */
    method ParseCheckHelp(argv: seq<string>) returns (found: bool)
      ensures found <==> "--help" in argv || "/?" in argv
    {
      var help := ["--help", "/?"];
      var i := 0;
      while i < |argv|
        invariant 0 <= i <= |argv|
        invariant forall m :: 0 <= m < i ==> argv[m] != "--help" && argv[m] != "/?"
      {
        var temp := argv[i];
        var j := 0;
        while j < 2
          invariant 0 <= j <= 2
          invariant forall h :: 0 <= h < j ==> temp != help[h]
        {
          if temp == help[j] {
            return true;
          }
          j := j + 1;
        }
        assert help[0] == "--help" && help[1] == "/?";
        i := i + 1;
      }
      return false;
    }

    // -------------------------------------------------------------------------
    // Results and accessors

    /** get_arg for a string: the stored value or "", and found iff that is
        not empty, so a value bound to the empty string reads as absent. */
    method GetString(name: string) returns (found: bool, target: string)
      ensures target == if name in argMapString then argMapString[name] else ""
      ensures found <==> name in argMapString && argMapString[name] != ""
    {
      target := if name in argMapString then argMapString[name] else "";
      found := target != "";
    }

    /** get_arg for an int: the stored value or 0, and found iff that is not
        0, so a value bound to 0 reads as absent. */
    method GetInt(name: string) returns (found: bool, target: int)
      ensures target == if name in argMapInt then argMapInt[name] else 0
      ensures found <==> name in argMapInt && argMapInt[name] != 0
    {
      target := if name in argMapInt then argMapInt[name] else 0;
      found := target != 0;
    }

    /** get_arg for a bool: the caller's target is overwritten only when the
        name has an entry. */
    method GetBool(name: string, target: bool) returns (found: bool, result: bool)
      ensures found <==> name in argMapBool
      ensures result == if found then argMapBool[name] else target
    {
      if name in argMapBool {
        return true, argMapBool[name];
      }
      return false, target;
    }

    method GetArgumentsCount() returns (count: nat)
      ensures count == argumentsCount
    {
      count := argumentsCount;
    }

    method IsDropPositionalCheck() returns (drop: bool)
      ensures drop == dropPositional
    {
      drop := dropPositional;
    }

    method GetDescription() returns (d: string)
      ensures d == description
    {
      d := description;
    }

    method SetDescription(d: string)
      modifies this`description
      ensures description == d
    {
      description := d;
    }
  }
}
