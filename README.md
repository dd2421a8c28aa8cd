# argparse — a verified model of the parser core

This project models the C++ `argparse::ArgumentParser` (one source file plus
its header). The parser registers named arguments with `add_argument`, and each
argument is either positional or optional. `parse_args` then turns an argument
vector into typed results that `get_arg` reads back.
`parse_args` is a fixed pipeline of stages:

1. record `argc` and the raw tokens;
2. `_parse_exec_name`: read the executable name, which is what follows the last
   path separator of the first raw token;
3. `_sanitize_arguments_vector`:
   - cut every `-name=value` / `--name=value` token into its two halves;
   - drop the single quotes around a quoted token;
4. `_parse_optional`: bind every registered name that a dashed token mentions.
   - A flag takes its `<store_true>` / `<store_false>` mark.
   - Any other argument takes the next token.
   - It throws when no next token exists.
   - A `DROP_POSITIONAL_CHECK` argument switches the positional stage off;
5. `_parse_positional`: give every positional argument the token in its 1-based
   slot.
   - It throws when there are fewer tokens than positional arguments.
   - It throws when a positional token starts with `-`;
6. `_convert_arguments`: copy every bound value into the map of its type.
   - Integers are checked against `^[0-9]+$`.
   - Floats and doubles are checked against the float pattern.
   - Every flag gets its boolean.

A throw ends the pipeline. The bindings written before the throw stay in the
object.

## Modules

- **ArgTypes** (`argtypes.dfy`):
  - the header's enumerations, `ArgConfig` and its constructor;
  - the `Error` value;
  - `Outcome`: a finished state, or the state a throw leaves together with its error.
- **Lexical** (`lexical.dfy`):
  - the three regular expressions that `_init` builds, written as plain
    recognisers;
  - lemmas that each recogniser matches exactly the strings its regular expression
    matches;
  - the `istringstream >> int` reading, which saturates at `INT_MAX`, plus an
    integer round trip.
- **StringOrder** (`order.dfy`):
  - the lexicographic order on strings that `std::map` iterates in;
  - `Ordered(s)`, which lists a key set in that order.
- **Registry** (`registry.dfy`): the registry that `add_argument` builds, and
  proofs that positional slots are exactly `1..positional_count`, distinct, and given
  in registration order.
- **Sanitizer** (`sanitizer.dfy`): `_parse_exec_name` and both loops of
  `_sanitize_arguments_vector`, as functions on the token sequence.
- **Binder** (`binder.dfy`): the optional and positional binding passes, as
  step and scan functions. The lemmas say:
  - when a pass throws, and with which error;
  - what every argument is bound to, for example the last mention wins for an
    optional argument;
  - that only `isSet`/`strValue` change.
- **Converter** (`converter.dfy`): `_convert_arguments` as a scan over the
  result store. The lemmas say:
  - when it throws;
  - what each map holds afterwards;
  - that every argument has entries in at most one map.
- **Pipeline** (`pipeline.dfy`): the whole parser state as a value,
  `add_argument` and `parse_args` as functions of it, and the end-to-end
  properties.
- **Parser** (`parser.dfy`):
  - the `ArgumentParser` class, with the source's fields;
  - every operation as a method with the source's loops;
  - each method proved to leave exactly the state, and report exactly the error,
    that the matching Pipeline or Binder function gives.

The model represents the source's errors as returned values. Every method that can throw
returns an `Error`. `Error(NO_ERROR, "")` means the method finished.
Otherwise the result is the error the C++ code throws, and the fields hold what they hold
at the throw. The error keeps its code and the argument name that its message
reports, or `""` when the message names none.

## Model

| member | source | states |
|---|---|---|
| ArgTypes.NewArgConfig | argparse/argparse/argparse.cpp:302-318 | a new record carries the given name, help, type, importance, behaviour and slot, is unbound and has an empty raw value |
| Lexical.FirstIndexOf | argparse/argparse/argparse.cpp:125 | `find(c)`: the index of the first `c`, or the length in place of npos when there is none; no earlier character is `c` |
| Lexical.LastIndexOf | argparse/argparse/argparse.cpp:134 | `find_last_of(c)`: the index of the last `c`, or -1 in place of npos when there is none; no later character is `c` |
| Lexical.StartsWithDash | argparse/argparse/argparse.cpp:86 | the `find('-') == 0` test: true iff the token is non-empty and its first `-` is at index 0 (npos, the empty token's answer, is not 0) |
| Lexical.StripDashes | argparse/argparse/argparse.cpp:86-87 | the result is a suffix of the token, everything cut off is a `-`, and the result does not start with `-` |
| Parser.EraseLeadingDashes | argparse/argparse/argparse.cpp:87 | the erase-while-dash loop yields exactly StripDashes of the token |
| Lexical.NameByRegexIsName | argparse/argparse/argparse.cpp:41 | the name part of the optional-argument pattern (`([a-zA-z0-9]-{0,1}){0,}[a-zA-z0-9]+`) matches exactly the strings of name characters and single hyphens that start and end with a name character; the range `A-z` also admits `[ \ ] ^ _` and the backquote |
| Lexical.ValueByRegexIsNonEmpty | argparse/argparse/argparse.cpp:41 | the three value alternatives of the pattern together match exactly the non-empty strings |
| Lexical.IsOptionalByRegex | argparse/argparse/argparse.cpp:296-300 | is_optional holds iff the token is one or two dashes, a name, `=` and a non-empty value, both directions |
| Lexical.IsOptional | argparse/argparse/argparse.cpp:296-300 | an optional token has at least four characters, starts with `-` and contains `=` |
| Lexical.OptionalFromParts | argparse/argparse/argparse.cpp:124-127 | every dashes+name+`=`+value token is optional, and its first `=` sits right after the name |
| Lexical.StripDashedName | argparse/argparse/argparse.cpp:87-89 | erasing the dashes of `-name` or `--name` gives back the name looked up in the registry |
| Lexical.FloatLexemeByRegex | argparse/argparse/argparse.cpp:43 | the float recogniser accepts exactly the strings the float pattern accepts: digits, or digits, one character other than a line terminator, then digits |
| Lexical.IsFloatLexeme | argparse/argparse/argparse.cpp:43 | a float lexeme is non-empty and starts and ends with a digit |
| Lexical.IsIntLexeme | argparse/argparse/argparse.cpp:45 | an int lexeme is non-empty and starts and ends with a digit |
| Lexical.IntLexemeIsFloatLexeme | argparse/argparse/argparse.cpp:43-45 | every string the int pattern accepts is also accepted by the float pattern |
| Lexical.IntValue | argparse/argparse/argparse.cpp:167-170 | reading a digit string gives its decimal value when that is at most INT_MAX, and INT_MAX exactly when the value is larger; the result always lies in 0..INT_MAX |
| Lexical.IntRoundTrip | argparse/argparse/argparse.cpp:165-170 | reading the decimal text of any n up to INT_MAX gives back n |
| Lexical.IntValueIgnoresLeadingZero | argparse/argparse/argparse.cpp:167-170 | a leading `0` keeps a digit string an int lexeme and does not change the value read, so "007" reads as 7 |
| StringOrder.BelowTotal | Prog_001/argparse.h:129 | two different keys are ordered one way or the other |
| StringOrder.BelowTransitive | Prog_001/argparse.h:129 | the key order is transitive |
| StringOrder.OrderedEnumerates | argparse/argparse/argparse.cpp:155 | the map walk visits every key exactly once, in increasing key order |
| StringOrder.FirstInOrderIsLeast | argparse/argparse/argparse.cpp:63-78 | the first key of the walk that lies in a subset is the least key of that subset, so the first key that throws is the least one that can |
| Registry.Register | argparse/argparse/argparse.cpp:256-263 | registering adds exactly the new name and leaves every other record unchanged |
| Registry.RegisterKeepsSlots | argparse/argparse/argparse.cpp:252-267 | registering a new name keeps the slot invariant: slots follow registration order, and the counters count positionals and optionals |
| Registry.SlotsWithinCount | argparse/argparse/argparse.cpp:256-258 | every positional slot lies in 1..positional_count |
| Registry.OptionalSlotsUnset | argparse/argparse/argparse.cpp:260-262 | every optional argument has slot -1 |
| Registry.SlotsIncreaseInOrder | argparse/argparse/argparse.cpp:256-258 | a positional registered earlier has a smaller slot |
| Registry.SlotsDistinct | argparse/argparse/argparse.cpp:256-258 | no two positional arguments share a slot |
| Registry.SlotsCovered | argparse/argparse/argparse.cpp:256-258 | every slot 1..positional_count belongs to some positional argument |
| Registry.SchemaKeepsSlots | argparse/argparse/argparse.cpp:76-77 | binding, which changes only isSet and the raw value, keeps the slot invariant |
| Sanitizer.BaseName | argparse/argparse/argparse.cpp:49-55 | the executable name is the suffix after the last separator (the whole token when there is none), and it holds no separator |
| Sanitizer.BaseNameAfterSep | argparse/argparse/argparse.cpp:52-53 | cutting through any separator keeps the final name, which is the loop invariant of _parse_exec_name |
| Sanitizer.SplitToken | argparse/argparse/argparse.cpp:124-130 | an optional token becomes a dashed name and a non-empty value that rejoin with `=` into the token; any other token is kept whole |
| Sanitizer.SplitAll | argparse/argparse/argparse.cpp:123-131 | the split vector has one more token than the raw vector for every optional token |
| Sanitizer.SplitOfParts | argparse/argparse/argparse.cpp:124-127 | splitting dashes+name+`=`+value gives back exactly the dashed name and the value |
| Sanitizer.Quoted | argparse/argparse/argparse.cpp:134 | a token is quoted iff it is non-empty, find_first_of(`'`) is 0 and find_last_of(`'`) is its last index, i.e. it starts and ends with `'` |
| Sanitizer.TrimQuotes | argparse/argparse/argparse.cpp:134-137 | a quoted token loses exactly its outer quotes; any other token is unchanged |
| Sanitizer.TrimAll | argparse/argparse/argparse.cpp:133-138 | the trim loop keeps the length and trims every token on its own |
| Sanitizer.TrimKeepsDashed | argparse/argparse/argparse.cpp:133-138 | trimming never changes a dashed token, so the optional pass sees the names as split |
| Sanitizer.TrimQuotedValue | argparse/argparse/argparse.cpp:134-137 | a value written `'v'` reaches the binder as v |
| Sanitizer.Sanitized | argparse/argparse/argparse.cpp:117-139 | the token vector grows by the raw tokens after the first plus one for every optional token among them, and every token already in the vector is trimmed again (none of them is a lone `'`) |
| Binder.OptionalStep | argparse/argparse/argparse.cpp:85-113 | one step keeps the registered names, and it can throw only at the last token, with OPTIONAL_PROVIDED_WITH_NO_VALUE |
| Binder.OptionalScan | argparse/argparse/argparse.cpp:84-114 | the loop over the first k tokens, stopping at the first throw, keeps the registered names |
| Binder.OptionalPass | argparse/argparse/argparse.cpp:81-83 | with no optionals registered the pass changes nothing; when it throws, the token vector is non-empty and the code is OPTIONAL_PROVIDED_WITH_NO_VALUE |
| Binder.OptionalScanAborts | argparse/argparse/argparse.cpp:104-110 | the optional pass throws iff the last token names a registered non-flag argument, and then reports that name |
| Binder.OptionalScanBindsAt | argparse/argparse/argparse.cpp:89-106 | each registered argument ends up bound as its last mention says: its flag mark, the token after that mention, or untouched when it is never mentioned |
| Binder.OptionalScanDrops | argparse/argparse/argparse.cpp:90-91 | the drop flag is set afterwards iff it was set before or some token names a DROP_POSITIONAL_CHECK argument |
| Binder.OptionalScanBinds | argparse/argparse/argparse.cpp:84-114 | the bindings and the drop flag after an undisturbed pass are exactly OptionalEffect |
| Binder.OptionalScanSchema | argparse/argparse/argparse.cpp:84-114 | the optional pass changes nothing but isSet and the raw values |
| Binder.PositionalStep | argparse/argparse/argparse.cpp:64-77 | one positional step keeps the registered names |
| Binder.PositionalScan | argparse/argparse/argparse.cpp:63-78 | the map-order loop over the first k names, stopping at the first throw, keeps the registered names |
| Binder.PositionalPass | argparse/argparse/argparse.cpp:57-62 | with no positionals registered the pass changes nothing; with fewer tokens than positionals it throws POSITIONAL_ERROR with the registry unchanged; any throw has code POSITIONAL_ERROR |
| Binder.PositionalScanAborts | argparse/argparse/argparse.cpp:70-75 | the positional walk throws iff some positional's slot holds a token starting with `-`, and it reports the first such argument in map order |
| Binder.PositionalScanBinds | argparse/argparse/argparse.cpp:63-78 | after the walk, every walked positional whose slot is in range holds its slot's token and is set, and every other record is unchanged |
| Binder.PositionalScanSchema | argparse/argparse/argparse.cpp:63-78 | the positional walk changes nothing but isSet and the raw values |
| Converter.ConvertStep | argparse/argparse/argparse.cpp:156-217 | converting one argument throws iff it is a bound int that fails the int pattern, or a bound float/double that fails the float pattern |
| Converter.ConvertScan | argparse/argparse/argparse.cpp:155-218 | when the walk over the first k names throws, the code is CONVERT_ARG_ERROR and the error names one of those k names |
| Converter.ConvertScanAborts | argparse/argparse/argparse.cpp:163-194 | the conversion walk throws iff some record is malformed, and it reports the first such name in map order with CONVERT_ARG_ERROR |
| Converter.ConvertStepConverts | argparse/argparse/argparse.cpp:156-217 | a step that does not throw writes the argument's value into the map of its type (an unbound flag gets its default) and leaves its other entries unchanged |
| Converter.ConvertStepFrame | argparse/argparse/argparse.cpp:159-214 | converting one argument changes no other name's entries |
| Converter.ConvertScanEffect | argparse/argparse/argparse.cpp:155-218 | after the walk, every walked name is converted as its record says and every name not walked is untouched |
| Converter.ConvertScanKeepsTyping | argparse/argparse/argparse.cpp:155-218 | every entry stays in the map of its argument's type |
| Converter.TypedStoreIsDisjoint | argparse/argparse/argparse.cpp:155-218 | in a typed store an argument has entries in at most one result map |
| Pipeline.InitialState | argparse/argparse/argparse.cpp:28-47 | a new parser has argc 1, the name `app_name + ".exe"`, an empty registry and empty vectors, and the drop flag off |
| Pipeline.InitialStateIsValid | argparse/argparse/argparse.cpp:28-47 | a new parser satisfies the state invariant |
| Pipeline.AddSpec | argparse/argparse/argparse.cpp:252-267 | it throws iff the name is taken, then with DUPLICATE_ARGUMENT_ERROR and the state unchanged; otherwise the name set grows by exactly the new name, the argument count by one, and the two counters together by one |
| Pipeline.AddSpecEffect | argparse/argparse/argparse.cpp:252-267 | a duplicate name throws DUPLICATE_ARGUMENT_ERROR and changes nothing; a new name is added with its next slot, the count grows by one and the invariant holds |
| Pipeline.Names | argparse/argparse/argparse.cpp:63 | the walk order lists each registered name once and nothing else |
| Pipeline.Front | argparse/argparse/argparse.cpp:270-281 | argv is appended to the raw vector and argc is its length; the registry, drop flag, store and counters are unchanged |
| Pipeline.FrontNames | argparse/argparse/argparse.cpp:270-281 | the recorded executable name ends the first raw token and holds no separator, and the token vector only grows |
| Pipeline.OptionalStage | argparse/argparse/argparse.cpp:283 | with no optionals registered the stage changes nothing; it keeps the token vector, the store and the positional count; any throw has code OPTIONAL_PROVIDED_WITH_NO_VALUE |
| Pipeline.PositionalStage | argparse/argparse/argparse.cpp:285-286 | a set drop flag skips the stage; it keeps the drop flag and the store; any throw has code POSITIONAL_ERROR |
| Pipeline.PositionalWalk | argparse/argparse/argparse.cpp:57-79 | `_parse_positional` on the state: no positionals changes nothing; fewer tokens than positionals throws POSITIONAL_ERROR with the state unchanged; it keeps the drop flag and the store; any throw has code POSITIONAL_ERROR |
| Pipeline.LaterStages | argparse/argparse/argparse.cpp:284-288 | with the drop flag set only conversion runs; the drop flag is kept; any throw has code POSITIONAL_ERROR or CONVERT_ARG_ERROR |
| Pipeline.ConvertStage | argparse/argparse/argparse.cpp:288 | conversion keeps the registry and the drop flag; any throw has code CONVERT_ARG_ERROR and names a registered argument |
| Pipeline.Stages | argparse/argparse/argparse.cpp:277-290 | any throw of the try block carries one of OPTIONAL_PROVIDED_WITH_NO_VALUE, POSITIONAL_ERROR and CONVERT_ARG_ERROR |
| Pipeline.ParseSpec | argparse/argparse/argparse.cpp:269-294 | any throw of parse_args carries one of OPTIONAL_PROVIDED_WITH_NO_VALUE, POSITIONAL_ERROR and CONVERT_ARG_ERROR |
| Pipeline.AddSpecOf | argparse/argparse/argparse.cpp:252-267 | helper: reads AddSpec off the fields and the error that add_argument leaves |
| Pipeline.StagesOf | argparse/argparse/argparse.cpp:277-290 | helper: reads Stages off the optional pass's result and what the later stages leave |
| Pipeline.OptionalStageAborts | argparse/argparse/argparse.cpp:81-115 | the optional stage throws iff optionals are registered and the last token names a non-flag argument needing a value, and then reports that name |
| Pipeline.OptionalStageBinds | argparse/argparse/argparse.cpp:83-114 | with no optionals registered the stage changes nothing; otherwise its bindings are OptionalEffect |
| Pipeline.PositionalStageAborts | argparse/argparse/argparse.cpp:57-79 | a set drop flag skips the stage; too few tokens throw POSITIONAL_ERROR; otherwise it throws iff some slot holds a dashed token, and it names the least such argument |
| Pipeline.PositionalStageBinds | argparse/argparse/argparse.cpp:57-79 | after an undisturbed positional stage in force, with any number of positionals, every positional holds the non-dashed token of its own slot and is set, and every optional is unchanged |
| Pipeline.PositionalBindsAll | argparse/argparse/argparse.cpp:63-78 | helper: the case of PositionalStageBinds with at least one positional, where the map-order loop runs |
| Pipeline.ConvertStageAborts | argparse/argparse/argparse.cpp:141-219 | conversion throws iff some record is malformed, and it names the least such argument |
| Pipeline.ConvertStageConverts | argparse/argparse/argparse.cpp:141-219 | after conversion, every registered name is converted and every other name is untouched |
| Pipeline.ParseOutcomeOf | argparse/argparse/argparse.cpp:269-294 | helper: reads ParseSpec off the fields and the error that recording the input and running the stages leave |
| Pipeline.ParseKeepsValid | argparse/argparse/argparse.cpp:269-294 | parsing keeps the state invariant: slots, counters and a typed store |
| Pipeline.ParseRecordsInput | argparse/argparse/argparse.cpp:270-281 | parsing appends argv to the raw vector, sets argc, reads the name from the first raw token, sanitizes, and leaves the counters, separator and description as they were |
| Pipeline.ParseNoValueError | argparse/argparse/argparse.cpp:104-110 | parse_args fails with OPTIONAL_PROVIDED_WITH_NO_VALUE iff optionals exist and the last token names a non-flag argument, and then reports that name |
| Pipeline.ParseDropSkipsPositional | argparse/argparse/argparse.cpp:285-288 | once the drop flag is set, the parse result is conversion of the optional stage's result, and any failure is a conversion error |
| Pipeline.OptionalStageDrop | argparse/argparse/argparse.cpp:90-91 | the drop flag is set iff it was already set or some token names a DROP_POSITIONAL_CHECK argument |
| Pipeline.ParseTooFewPositionals | argparse/argparse/argparse.cpp:59-62 | with the stage not dropped and fewer tokens than positionals, parse_args throws POSITIONAL_ERROR and keeps the optional stage's bindings |
| Pipeline.ParseResults | argparse/argparse/argparse.cpp:269-294 | after a successful parse every registered name is converted, every other name is untouched, and, unless a DROP_POSITIONAL_CHECK argument switched the positional stage off, every positional holds the token of its slot |
| Pipeline.ParseFlagResult | argparse/argparse/argparse.cpp:195-216 | after a successful parse every flag has a boolean: true for a bound store_true or an unbound store_false flag, otherwise false |
| Parser.ArgumentParser.constructor | argparse/argparse/argparse.cpp:221-227 | the object's state is InitialState of the description, application name and author |
| Parser.ArgumentParser.Default | argparse/argparse/argparse.cpp:229-233 | the default parser is InitialState with empty strings, so its name is `.exe` |
| Parser.ArgumentParser.AddArgument | argparse/argparse/argparse.cpp:252-267 | a taken name returns DUPLICATE_ARGUMENT_ERROR and changes nothing; a new name is registered with its next slot, and one counter and the argument count each grow by one (the defaults follow Prog_001/argparse.h:166-172); the error and the new state are exactly AddSpec of the old state |
| Parser.ArgumentParser.RegisterNew | argparse/argparse/argparse.cpp:256-264 | a new name is registered as Register gives, and the counter of its kind and the argument count each grow by one |
| Parser.ArgumentParser.RecordArguments | argparse/argparse/argparse.cpp:272-276 | the raw vector grows by exactly argv |
| Parser.ArgumentParser.ParseExecName | argparse/argparse/argparse.cpp:49-55 | the cutting loop leaves the executable name as BaseName of the first raw token |
| Parser.ArgumentParser.SanitizeArgumentsVector | argparse/argparse/argparse.cpp:117-139 | the token vector becomes Sanitized of the raw vector |
| Parser.ArgumentParser.SplitArguments | argparse/argparse/argparse.cpp:123-131 | the first loop appends SplitAll of the raw tokens after argv[0] |
| Parser.ArgumentParser.SplitOne | argparse/argparse/argparse.cpp:124-130 | one raw token is appended as SplitToken |
| Parser.ArgumentParser.TrimArguments | argparse/argparse/argparse.cpp:133-138 | the second loop leaves TrimAll of the vector |
| Parser.ArgumentParser.TrimOne | argparse/argparse/argparse.cpp:134-137 | token j is replaced by its trimmed form and nothing else changes |
| Parser.ArgumentParser.ParseOptional | argparse/argparse/argparse.cpp:81-115 | the error and the new bindings and drop flag are those of OptionalPass |
| Parser.ArgumentParser.BindOptional | argparse/argparse/argparse.cpp:85-113 | one loop iteration does exactly OptionalStep |
| Parser.ArgumentParser.BindNamed | argparse/argparse/argparse.cpp:89-110 | binding a named argument does exactly OptionalStep |
| Parser.ArgumentParser.SortedNames | argparse/argparse/argparse.cpp:155 | the names come back in map iteration order |
| Parser.ArgumentParser.ParsePositional | argparse/argparse/argparse.cpp:57-79 | the error and the new registry are those of PositionalPass |
| Parser.ArgumentParser.BindPositionals | argparse/argparse/argparse.cpp:63-78 | the map-order loop does exactly PositionalScan, stopping at the first throw |
| Parser.ArgumentParser.BindPositional | argparse/argparse/argparse.cpp:64-77 | one loop iteration does exactly PositionalStep |
| Parser.ArgumentParser.ConvertArguments | argparse/argparse/argparse.cpp:141-219 | the error and the five result maps are those of ConvertScan in map order |
| Parser.ArgumentParser.ConvertOne | argparse/argparse/argparse.cpp:156-217 | one loop iteration does exactly ConvertStep |
| Parser.ArgumentParser.ReadInput | argparse/argparse/argparse.cpp:270-281 | argc, the raw vector, the executable name and the token vector are set as Front prescribes |
| Parser.ArgumentParser.RunStages | argparse/argparse/argparse.cpp:277-290 | the try block reports and leaves exactly what Stages gives |
| Parser.ArgumentParser.RunLaterStages | argparse/argparse/argparse.cpp:284-288 | the positional stage, unless dropped, and then conversion leave exactly LaterStages |
| Parser.ArgumentParser.ParseArgs | argparse/argparse/argparse.cpp:269-294 | the error and every field written are those of ParseSpec, the whole parse, so every Pipeline lemma about ParseSpec holds of the object |
| Parser.ArgumentParser.ParseCheckHelp | argparse/argparse/argparse.cpp:239-250 | the result is true iff some token is `--help` or `/?` |
| Parser.ArgumentParser.GetString | Prog_001/argparse.h:85-88 | target is the stored string or ""; found iff that is non-empty, so a value bound to "" reads as not found |
| Parser.ArgumentParser.GetInt | Prog_001/argparse.h:90-93 | target is the stored int or 0; found iff that is non-zero, so a value bound to 0 reads as not found |
| Parser.ArgumentParser.GetBool | Prog_001/argparse.h:105-111 | found iff the flag has an entry; the caller's target is replaced only then |
| Parser.ArgumentParser.GetArgumentsCount | Prog_001/argparse.h:148-150 | the number of registered arguments |
| Parser.ArgumentParser.IsDropPositionalCheck | Prog_001/argparse.h:154-156 | the drop flag as the optional stage left it |
| Parser.ArgumentParser.GetDescription | Prog_001/argparse.h:158-160 | the stored description |
| Parser.ArgumentParser.SetDescription | Prog_001/argparse.h:162-164 | the description becomes the given one and nothing else changes |

## Left out

- Help text: the `arg_help` strings are stored but never formatted. `_max_arg_name_len`
  and `ret_help` only size and print help output, so they are not modelled.
- Floating point: a float or double argument is checked against the float pattern,
  but its map keeps the validated text instead of a `float`/`double` value. The
  `get_arg` overloads for float and double are not modelled.
- Error messages: only the error code and the argument name the message reports
  are kept. The formatted text is not.
- The path separator is fixed by the C++ preprocessor. The constructors take it as
  the parameter `osSep`.
- Parser.ArgumentParser.ParseArgs: requires that no token is a lone `'` after
  splitting. On such a token the C++ trim loop erases past the end of the string and
  throws `std::out_of_range`, which this model does not represent. Its other
  requirement, a non-empty raw vector, is the one `_parse_exec_name` depends on.
- Parser.ArgumentParser.GetArgumentsCount: the three counters are `unsigned short`
  in C++ and wrap after 65535 registrations. The model keeps them as unbounded
  naturals.
- The default `ArgConfig()` constructor is not modelled. It is only reached through
  `std::map::operator[]` on a name not yet registered (`add_argument`,
  argparse/argparse/argparse.cpp:256-262), where the new record is overwritten at once.
- The two-argument constructor declared in the header has no definition in the source.
  The three-argument one in the `.cpp` is modelled instead.
- `argc` and `argv` are one sequence, so `argc` is its length.
- Neither constructor initialises `_drop_positional`. The model starts it
  false.
- Characters: a Dafny `char` stands for one C++ `char`, that is one byte. Text whose
  characters take several bytes is outside the model. For example, `1é2` is a float
  lexeme here (digit, one character, digit), while in C++ the `é` is two bytes and
  converting a float argument with that value throws CONVERT_ARG_ERROR.
- `std::map<std::string, …>` orders keys by `char` comparison. The model uses the
  lexicographic order of Dafny characters. `std::char_traits<char>` compares
  characters as `unsigned char`, so with one Dafny character per byte the two orders
  agree for every name `add_argument` accepts.
- The parser invariant (slots, counters and a typed store) is the value-level
  predicate `Pipeline.Valid`, proved by Pipeline.AddSpecEffect and
  Pipeline.ParseKeepsValid. It is not a `Valid()` predicate on the class.
- The demo programs (`main.cpp`) are not part of this model.
