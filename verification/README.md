# Logger text and bookkeeping logic of the actor framework, in Dafny

This project models the sequential, deterministic parts of the actor
framework's logger (`libcaf_core/src/logger.cpp`) and proves properties of
them:

- **Levels** (`levels.dfy`): the numeric severities, the sixteen-entry
  level-name table used for the priority field, and `to_level_int`.
- **Format compiler** (`format.dfy`): `parse_format` turns a template such as
  `"%d %p %c %m%n"` into typed fields. The model follows the loop
  character by character (`Format.Scan`) and proves it equal to a
  structural reference definition (`Format.Compile`). The loop does not
  advance the start of the pending text run when it reads a `%`, so a
  template ending in a lone `%` emits the text before it twice: once
  alone, then together with the `%`. The model reproduces this
  (`Format.TrailingPercent`).
- **Symbol reducer** (`symbols.dfy`, `symbol_examples.dfy`):
  `reduce_symbol` and `render_fun_prefix` turn a compiler's
  pretty-printed signature into a Java-style scope path. The reducer is a
  pair of mutually recursive functions returning the printed text and
  the unconsumed remainder. Three spots of the source are given a
  definite meaning:
  - `remove_prefix` past the end of the view (after an anonymous
    namespace at line 151, and with `npos` at line 377) removes
    everything (`Symbols.Drop`, `Symbols.SkipDeclarators`).
  - The `size_t` template-nesting counter wraps modulo 2^64.
  - The return-type loop declares a second `pos` that hides the outer one
    (lines 368-369). So when no top-level space exists, the final
    `remove_prefix(pos)` removes nothing.

  The comment above `reduce_symbol` says `"ns::foo::bar"` prints
  `"ns.foo"`. The code prints `"ns"` and returns `"bar"`: the last
  segment is still pending when the text ends, and only an argument list
  flushes it. The model follows the code (`SymbolExamples.ScopeWithoutArguments`).
- **Causality monitor** (`causality.dfy`): the registry behind the
  ShiViz-style vector timestamps.
  - `logger_id` and its ordering become a `Key`: the actor for a non-zero
    actor id, otherwise the thread.
  - `monitor` is an immutable state record with the step function
    `Accept`, plus `vid` and `name`.
  - `json_vector_timestamp` is a loop proved against a functional
    definition.
- **Configuration** (`config.dfy`): the verbosity cascade of `init`, the
  `accepts` pre-check and the per-sink level filters of the file and
  console handlers.
- **Text helpers** (`text.dfy`): `skip_path` and the space-joining
  `line_builder`.
  - `std::string` pieces go through `c_str()`, so they are cut at the
    first NUL character.
  - A `char` piece goes through a one-character C string, so a NUL
    character appends nothing, although the separating space is still
    added.
- **Start-up** (`filename.dfy`): whether `start` produces any output, and
  the substitution of the first `[PID]`, `[TIMESTAMP]` and `[NODE]` in the
  log file name.
  - `std::search` is a loop (`FileName.Search`).
  - The process id, start time and node id are parameters.

Strings are `seq<char>`. The configuration is an abstract key-to-value map.
Thread ids and actor ids are natural numbers.

## Model

| member | source | states |
|---|---|---|
| Levels.LevelName | libcaf_core/src/logger.cpp:60-63 | the table has 16 entries; an entry is non-empty exactly at the six level values 0, 3, 6, 9, 12, 15 |
| Levels.ToLevelInt | libcaf_core/src/logger.cpp:77-89 | the result is always one of the six levels and below 16; it is quiet exactly when the text is none of "error", "warning", "info", "debug", "trace" |
| Levels.ToLevelIntInverse | libcaf_core/src/logger.cpp:77-89 | converting the configuration spelling of a non-quiet level gives that level back |
| Levels.ParsedLevelHasName | libcaf_core/src/logger.cpp:60-89 | every converted verbosity has a non-empty name in the table, and only quiet is named "QUIET" |
| Format.ParseFormat | libcaf_core/src/logger.cpp:543-588 | the compiled fields equal the structural reference compilation; no invalid field appears; a plain-text field carries non-empty text and every other field carries none |
| Format.ScanIsCompile | libcaf_core/src/logger.cpp:548-586 | from any state with no pending `%`, the compiler loop produces the reference compilation of the unread text |
| Format.Scan | libcaf_core/src/logger.cpp:548-586 | the compiler loop only appends to the fields already produced, and never appends an invalid field |
| Format.Compile | libcaf_core/src/logger.cpp:548-586 | the reference compilation has at most one field per template character |
| Format.DirectiveKindValid | libcaf_core/src/logger.cpp:552-570 | a letter selects a real field kind exactly when it is one of `c C d F L m M n p r t a %`, and never the plain-text kind |
| Format.DirectivesInOrder | libcaf_core/src/logger.cpp:549-575 | a template of directives yields one field per recognised letter, of that letter's kind and in template order; unrecognised letters yield nothing |
| Format.NoDirectives | libcaf_core/src/logger.cpp:577-587 | a template without `%` yields one plain-text field holding the whole template, and "" yields no field |
| Format.PercentPercent | libcaf_core/src/logger.cpp:565-575 | "%%" yields a single percent-sign field |
| Format.TrailingPercent | libcaf_core/src/logger.cpp:577-586 | text followed by a lone `%` yields the text, then the text with the `%` again |
| Format.TextThenDirective | libcaf_core/src/logger.cpp:572-581 | leading text, one directive and the rest compile to the text field, the directive's field and the compilation of the rest |
| Format.CompileWellFormed | libcaf_core/src/logger.cpp:572-586 | every field of the reference compilation is well formed |
| Symbols.Drop | libcaf_core/src/logger.cpp:151 | removing a prefix yields a suffix, of the expected length when in range and empty when the count exceeds the text |
| Symbols.Encode | libcaf_core/src/logger.cpp:112-116 | a printed segment holds no raw space, and a segment without spaces is printed as is |
| Symbols.EncodeAppend | libcaf_core/src/logger.cpp:112-116 | segments are printed character by character: printing two pieces one after the other is printing their concatenation |
| Symbols.EncodeSpace | libcaf_core/src/logger.cpp:113-114 | a space inside a segment is printed as `%20`, with the text on either side printed as usual |
| Symbols.EncodeOther | libcaf_core/src/logger.cpp:115-116 | any other character of a segment is printed as itself |
| Symbols.EmitPending | libcaf_core/src/logger.cpp:106-119 | what is printed for the pending segment is valid reducer output |
| Symbols.AnonMatch | libcaf_core/src/logger.cpp:143-148 | the match is the index of an anonymous-namespace spelling that starts the text, or none starts it |
| Symbols.Reduce | libcaf_core/src/logger.cpp:94-176 | the reducer terminates; the remainder is a suffix of the input; the output never contains a space, `:`, a backquote, `{` or `(` |
| Symbols.Scan | libcaf_core/src/logger.cpp:135-175 | the same two guarantees for the scanning loop from any position |
| Symbols.ScopeSeparator | libcaf_core/src/logger.cpp:138-140 | at `::` the pending segment is printed and the segment before `::` becomes pending |
| Symbols.ArgumentList | libcaf_core/src/logger.cpp:155-160 | at `(` the pending segment is printed, "GLOBAL" follows when nothing was printed before, and the argument list is returned with the function name |
| Symbols.AnonymousNamespace | libcaf_core/src/logger.cpp:143-154 | each anonymous-namespace spelling becomes the pending segment `$` and the `::` after it is consumed |
| Symbols.TemplateOpen | libcaf_core/src/logger.cpp:162-166 | at `<` the segment is flushed, `<` printed, the argument text reduced recursively and scanning resumes after it |
| Symbols.TemplateClose | libcaf_core/src/logger.cpp:167-170 | at `>` the segment is flushed, `>` printed and the text after `>` returned |
| Symbols.TemplateCloseAfterSpace | libcaf_core/src/logger.cpp:126-134 | the space in "> >" is not printed |
| Symbols.ReduceStruct | libcaf_core/src/logger.cpp:99-102 | a leading "struct " is skipped |
| Symbols.ReduceNoStruct | libcaf_core/src/logger.cpp:99-104 | without a leading "struct " the reducer starts scanning at once with nothing pending |
| Symbols.QualifierAt | libcaf_core/src/logger.cpp:355-363 | the qualifier found is one of the five prefixes and starts the text, or none of them does |
| Symbols.StripQualifiers | libcaf_core/src/logger.cpp:363-364 | the result is a suffix of the signature and starts with no qualifier |
| Symbols.StripQualifier | libcaf_core/src/logger.cpp:363-364 | a leading qualifier is dropped without changing how the rest is stripped |
| Symbols.QualifiersDiffer | libcaf_core/src/logger.cpp:65-67 | no two qualifiers agree on their first two characters, so at most one matches |
| Symbols.SkipReturnType | libcaf_core/src/logger.cpp:366-394 | skipping the return type leaves a suffix of the signature |
| Symbols.SkipReturnTypeFrom | libcaf_core/src/logger.cpp:369-393 | from any position and the bracket nesting counted up to it, the loop stops at the first later space outside angle brackets and skips the declarators there; with no such space the signature is left unchanged |
| Symbols.ReturnTypeWithoutSpace | libcaf_core/src/logger.cpp:366-393 | a signature with no space outside angle brackets is left unchanged, because the final `remove_prefix(pos)` uses the outer `pos`, which is still 0 |
| Symbols.ReturnTypeEndsAtSpace | libcaf_core/src/logger.cpp:369-381 | the return type ends at the first space outside angle brackets; the declarators from there on are skipped |
| Symbols.SkipReturnTypeWalk | libcaf_core/src/logger.cpp:369-392 | characters other than a space and angle brackets do not end the return type |
| Symbols.FirstNotDeclarator | libcaf_core/src/logger.cpp:376 | the position found is the first at or after the start that is not a space, `*` or `&`, or the end |
| Symbols.SkipDeclarators | libcaf_core/src/logger.cpp:375-379 | the result is a suffix that starts with neither a space, `*` or `&`, nor "const", since the loop repeats while "const" can be skipped |
| Symbols.SkipCdecl | libcaf_core/src/logger.cpp:397 | the text changes exactly when it starts with "__cdecl " |
| Symbols.RenderFunPrefix | libcaf_core/src/logger.cpp:348-400 | the printed class name contains no space, `:` or opening bracket |
| Symbols.PlainReturnType | libcaf_core/src/logger.cpp:369-381 | a bracket-free return type and the space after it are skipped |
| Symbols.TemplateReturnType | libcaf_core/src/logger.cpp:383-388 | a return type with one template argument and the space after it are skipped |
| SymbolExamples.ScopeWithoutArguments | libcaf_core/src/logger.cpp:91-93 | "ns::foo::bar" prints "ns" and leaves "bar", not "ns.foo" as the comment says |
| SymbolExamples.TwoScopes | libcaf_core/src/logger.cpp:135-175 | `a::b::c` without an argument list prints only `a` and leaves `c` |
| SymbolExamples.ScopedFunction | libcaf_core/src/logger.cpp:94-176 | `a::b::f(args)` prints `a.b` and leaves `f(args)` |
| SymbolExamples.NestedTemplate | libcaf_core/src/logger.cpp:126-170 | `a::t<b::u<c> >::f(args)` prints `a.t<b.u<c>>` |
| SymbolExamples.AnonymousTemplate | libcaf_core/src/logger.cpp:143-154 | any anonymous-namespace spelling followed by `a::t<struct c>::f(args)` prints `$.a.t<c>` |
| SymbolExamples.StructArgument | libcaf_core/src/logger.cpp:99-102 | a template argument "struct c>" prints `c>` |
| SymbolExamples.OneQualifier | libcaf_core/src/logger.cpp:363-364 | one qualifier before a qualifier-free type is removed |
| SymbolExamples.QualifierThenType | libcaf_core/src/logger.cpp:363-364 | a qualifier before the return type is removed and the type kept |
| SymbolExamples.StaticStrip | libcaf_core/src/logger.cpp:354-364 | "static int ns::A::f()" is stripped to "int ns::A::f()" |
| SymbolExamples.PlainStages | libcaf_core/src/logger.cpp:366-399 | for a plain return type the class name is the reduction of the name after it |
| SymbolExamples.TemplateStages | libcaf_core/src/logger.cpp:366-399 | likewise for a return type with one template argument |
| SymbolExamples.CdeclStages | libcaf_core/src/logger.cpp:396-399 | "__cdecl " after the return type is skipped before reducing |
| SymbolExamples.TemplateReturnScope | libcaf_core/src/logger.cpp:366-399 | once the qualifiers are stripped, a return type with one template argument followed by `a::b::f(args)` prints `a.b` |
| SymbolExamples.QualifiedTemplateScope | libcaf_core/src/logger.cpp:349-352 | a qualifier, a return type with one template argument and `a::b::f(args)`, the shape of "virtual std::vector<int> my::namespace::foo(int)", print `a.b` ("my.namespace") |
| SymbolExamples.PlainReturnScope | libcaf_core/src/logger.cpp:348-400 | with a plain return type, `a::b::f(args)` prints `a.b` |
| SymbolExamples.GlobalFunction | libcaf_core/src/logger.cpp:155-159 | a function without scope prints "GLOBAL" |
| SymbolExamples.FreeFunction | libcaf_core/src/logger.cpp:155-159 | "int foo(int)" prints "GLOBAL" |
| SymbolExamples.MsvcSignature | libcaf_core/src/logger.cpp:99-102 | an MSVC signature with "__cdecl", an anonymous namespace and a "struct" template argument prints `$.a.t<c>` |
| Causality.KeyOf | libcaf_core/src/logger.cpp:415-417 | the key is the actor for a non-zero actor id and the thread otherwise |
| Causality.SameKeyIffKeyOf | libcaf_core/src/logger.cpp:415-417 | two ids are equivalent under the ordering exactly when they have the same key |
| Causality.Less | libcaf_core/src/logger.cpp:415-417 | ids with the same key are never ordered; every non-actor id comes before every actor; actors are ordered by actor id and non-actors by thread id |
| Causality.LessIsStrictWeakOrder | libcaf_core/src/logger.cpp:415-417 | the ordering is irreflexive and transitive, and its equivalence is transitive |
| Causality.EmptyValid | libcaf_core/src/logger.cpp:477-481 | the empty monitor satisfies the invariant |
| Causality.NewSlot | libcaf_core/src/logger.cpp:441-454 | a key seen for the first time gets slot "old size" with counter 1, after the increment at line 454, and the given name; every existing slot and counter is kept, and the invariant holds |
| Causality.Bump | libcaf_core/src/logger.cpp:453-454 | the counter of the slot grows by one; every other counter, the slots, the names and the thread count are unchanged, and the invariant holds |
| Causality.Accept | libcaf_core/src/logger.cpp:436-457 | keeps the invariant. A known key keeps its slot and its counter grows by one, with every other counter unchanged. A new key gets slot "old size" and counter 1. An actor's slot is named `actor<aid>`. The thread count grows by one exactly when a new key has actor id 0, and that new slot is named `thread<count>` after the increment |
| Causality.AcceptCounter | libcaf_core/src/logger.cpp:453-454 | exactly the accepted key's counter grows, by one |
| Causality.AcceptAll | libcaf_core/src/logger.cpp:436-457 | any run of accepts keeps the invariant |
| Causality.AcceptAllCounter | libcaf_core/src/logger.cpp:436-457 | after a run of accepts, each key's counter has grown by the number of its events |
| Causality.AcceptAllSum | libcaf_core/src/logger.cpp:441-454 | the counters sum to the number of accepted events |
| Causality.AcceptAllSlots | libcaf_core/src/logger.cpp:438-451 | slots never move, and only the keys of accepted ids gain one |
| Causality.AcceptAllNames | libcaf_core/src/logger.cpp:442-446 | names are only appended: every earlier slot keeps its name |
| Causality.AcceptAllThreadCount | libcaf_core/src/logger.cpp:443-444 | after a run of accepts, the thread count has grown by the number of threads that logged outside any actor for the first time |
| Causality.AcceptAllThreadName | libcaf_core/src/logger.cpp:443-444 | the i-th thread new to the monitor in a run gets a slot named `thread<c + i + 1>`, where c is the count before the run |
| Causality.ThreadsNumberedInOrder | libcaf_core/src/logger.cpp:443-444 | from a fresh monitor, the n-th thread to log outside any actor is named `thread<n>` |
| Causality.AcceptAdvances | libcaf_core/src/logger.cpp:453-456 | each accepted event gets a vector timestamp that dominates and differs from the previous one |
| Causality.Vid | libcaf_core/src/logger.cpp:460-467 | the slot of an accepted id is in range; a known id shares it exactly when it has the same key, so it is the id's own slot |
| Causality.Name | libcaf_core/src/logger.cpp:473-475 | the name of an existing slot, none for a slot out of range |
| Causality.AcceptedName | libcaf_core/src/logger.cpp:440-446 | after accepting, the id's slot is named after its actor, or after a thread |
| Causality.ActorNameInjective | libcaf_core/src/logger.cpp:446 | distinct actors get distinct names |
| Causality.ThreadNameInjective | libcaf_core/src/logger.cpp:444 | distinct thread numbers give distinct names |
| Causality.ActorThreadDiffer | libcaf_core/src/logger.cpp:443-446 | no actor name is a thread name |
| Base.Decimal | libcaf_core/src/logger.cpp:444-446 | `std::to_string` of a count: a non-empty string of digits, one digit exactly for numbers below ten |
| Base.DecimalValue | libcaf_core/src/logger.cpp:444-446 | the digits printed for a number read back as that number |
| Base.NoLeadingZero | libcaf_core/src/logger.cpp:498 | a printed number starts with `0` only when it is zero |
| Base.DecimalInjective | libcaf_core/src/logger.cpp:444-446 | distinct numbers print differently |
| Causality.JsonVectorTimestamp | libcaf_core/src/logger.cpp:485-504 | the output is `{`, then the `"name":count` members of the non-zero counters in slot order separated by commas, then `}` |
| Causality.MembersCount | libcaf_core/src/logger.cpp:491-499 | there is one member per non-zero counter |
| Causality.MembersOfValid | libcaf_core/src/logger.cpp:491-499 | a monitor's timestamp has no zero counter, so every slot is printed with its own name |
| Causality.MembersOfPositive | libcaf_core/src/logger.cpp:491-499 | when no counter is zero, the members are those of every slot, in slot order |
| Config.LevelSetting | libcaf_core/src/logger.cpp:298-311 | a sink's level is its own key's value when set, otherwise the "logger.verbosity" value or the default; the result is always a configured value or the default |
| Config.Init | libcaf_core/src/logger.cpp:287-334 | each sink's level comes from its own key, then "logger.verbosity", then the default. The ceiling is the larger of the two. A console mode other than "colored"/"uncolored" silences the console and makes the ceiling the file level. Colouring is on exactly for "colored". Inline output, blacklist and both formats come from their keys |
| Config.InitConsistent | libcaf_core/src/logger.cpp:318-334 | after init the ceiling is the larger of the two sink levels |
| Config.Accepts | libcaf_core/src/logger.cpp:268-273 | a blacklisted category or a level above the ceiling is rejected; with the ceiling set as `init` sets it, an event passes exactly when its category is not blacklisted and one of the two sink levels admits it |
| Config.AcceptsIffSomeSink | libcaf_core/src/logger.cpp:268-273 | the pre-check passes exactly when the category is not blacklisted and some sink's threshold admits the level |
| Config.BlacklistedRejected | libcaf_core/src/logger.cpp:271-272 | a blacklisted category is rejected at every level |
| Config.HandleEvent | libcaf_core/src/logger.cpp:621-629 | the file takes an event when open and the level is within its threshold; the console takes it when the level is within its threshold |
| Config.RejectedReachesNoSink | libcaf_core/src/logger.cpp:621-629 | an event above the ceiling reaches no sink |
| Config.DebugEventToFileOnly | libcaf_core/src/logger.cpp:298-318 | with the file at "debug" and the console at "info", a debug event goes to the file only |
| Config.ConsoleDisabledFileOnly | libcaf_core/src/logger.cpp:327-334 | without a recognised console mode the ceiling is the file level and no event above quiet reaches the console; a level-0 event still passes the console's threshold check (line 627) |
| Text.SkipPathIsAfterLastSlash | libcaf_core/src/logger.cpp:590-595 | the loop yields exactly the text after the last `/` |
| Text.SkipPathProperties | libcaf_core/src/logger.cpp:590-595 | the result is a suffix of the path without `/`, and skipping twice is skipping once |
| Text.SkipPath | libcaf_core/src/logger.cpp:590-595 | the result is a suffix of the path containing no `/` |
| Text.Find | libcaf_core/src/logger.cpp:591 | the position found is the first occurrence, or the end |
| Text.Append | libcaf_core/src/logger.cpp:219-231 | a piece is appended directly to an empty line or one ending in a space, and otherwise after one space |
| Text.CString | libcaf_core/src/logger.cpp:215-217 | a string is passed on up to its first NUL: the result is a NUL-free prefix that stops at a NUL of the string, and is the whole string when it has none |
| Text.AppendString | libcaf_core/src/logger.cpp:215-217 | a `std::string` is appended through its C string: the line is kept as a prefix, a NUL-free string is appended like a piece, and a NUL-free line stays NUL-free |
| Text.Build | libcaf_core/src/logger.cpp:219-231 | the built line starts with the first piece and ends with the last one |
| Text.AppendChar | libcaf_core/src/logger.cpp:233-236 | a character is appended like a one-character piece, except that NUL appends nothing but the separator |
| Text.BuildIsJoinSpace | libcaf_core/src/logger.cpp:219-231 | for non-empty pieces not ending in a space, the built line is the pieces joined by single spaces |
| Text.NoDoubleSeparator | libcaf_core/src/logger.cpp:220-222 | after a piece that ends in a space no second space is added |
| FileName.FirstFrom | libcaf_core/src/logger.cpp:701-702 | the position found is the first occurrence of the pattern from the start position, or the end |
| FileName.Search | libcaf_core/src/logger.cpp:701-702 | the search loop returns the first occurrence of the pattern, or the end when there is none |
| FileName.FirstOccurrence | libcaf_core/src/logger.cpp:701-702 | the position is the first occurrence of the pattern, or the end when there is none |
| FileName.FirstOccurrenceIs | libcaf_core/src/logger.cpp:701-702 | the first occurrence is unique |
| FileName.ReplaceAfter | libcaf_core/src/logger.cpp:703-705 | a placeholder preceded by text without its first character is replaced there |
| FileName.ReplaceAbsent | libcaf_core/src/logger.cpp:703 | a name without the placeholder is unchanged |
| FileName.ReplaceFirst | libcaf_core/src/logger.cpp:701-706 | a name without the placeholder is unchanged; otherwise it is split around the earliest occurrence and the value put in its place |
| FileName.SecondPidKept | libcaf_core/src/logger.cpp:700-706 | only the first "[PID]" is replaced; a second one stays |
| FileName.ThreeReplacements | libcaf_core/src/logger.cpp:700-720 | three placeholders in order are each replaced by their value |
| FileName.AllPlaceholders | libcaf_core/src/logger.cpp:700-720 | "a[PID]b[TIMESTAMP]c[NODE]d" becomes a, pid, b, time, c, node, d, when the text in between has no `[` |
| FileName.ResolveFileName | libcaf_core/src/logger.cpp:700-720 | a name without `[` is used as configured |
| FileName.Start | libcaf_core/src/logger.cpp:688-721 | nothing starts when the ceiling is quiet, or when there is no file name and the console is quiet; otherwise the file name is the configured one with placeholders replaced ("" for none) |

## Left out

- The worker thread, its blocking queue, `run`, `stop` and the shutdown event (597-619, 727-746): concurrency and blocking I/O.
- `log_first_line` and `log_last_line`: they only build messages through foreign formatting helpers.
- The decision in `run` to stop when the file cannot be opened: it depends on file I/O.
- Thread-local logger and actor pointers, `set_current_actor_system`, the mutex of the monitor: the model is sequential.
- Opening the log file, writing to it and to the console, terminal colours: I/O.
- `render` (508-541): it writes fields to a stream through foreign conversions (dates, thread ids, milliseconds since start).
  - Two facts about it are not modelled. It calls `accept` once per sink, so an event written to both sinks counts twice. Its file field prints the file name as given, without `skip_path`.
- The `to_string` conversions of fields and formats (748 onwards): debugging output.
- `get_process_id`, `timestamp_to_string`, `to_string(node)` and `deep_to_string`: foreign helpers. Their results are parameters (the process id as a number printed in decimal).
- The numeric values of the levels are not defined in this file. They are taken from the positions of the names in the level-name table: quiet 0, error 3, warning 6, info 9, debug 12, trace 15.
- Symbols.Reduce: `remove_prefix` past the end is undefined behaviour in the source; the model removes everything instead.
- Symbols.SkipDeclarators: `remove_prefix(npos)` when only spaces, `*` and `&` remain is undefined behaviour in the source; the model removes everything instead.
- Symbols.RenderFunPrefix: the class name is characterised by lemmas over families of signatures, not by a closed formula for every input. The signature "virtual std::vector<int> my::namespace::foo(int)" is covered by the family `SymbolExamples.QualifiedTemplateScope`, not as a literal.
- Causality.JsonVectorTimestamp: takes the slot names as a parameter and requires one name per counter. The source looks names up with `at()`, which would throw for a missing slot; a monitor's own timestamp always satisfies this.
- Causality.Name: a slot out of range yields no name, where the source's `at()` throws.
- Causality.Vid: requires the id to have been accepted; the source only asserts it.
- Format.ParseFormat: the "invalid field specifier in format string" diagnostic that the source writes to `std::cerr` for an unknown letter (lines 566-569) is not modelled, because it is console output; the letter yields no field.
- Config.Init: models `init` on a freshly constructed logger. Calling it twice, where an absent blacklist or a false inline flag keeps the earlier value, is not modelled.
- Config.HandleEvent: only the choice of sinks is modelled, not the output written to them.
- FileName.Start: the file name setting is a parameter. Opening the file and starting the worker thread are left out.
