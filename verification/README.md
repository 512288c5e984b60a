# unit2openrc in Dafny

unit2openrc converts a systemd service unit into an OpenRC init script. It works in three stages:

1. It loads the unit with a `ConfigParser`. Option names are rewritten from `CamelCase` to `snake_case`, and a repeated option accumulates its lines.
2. It converts the loaded `UnitFile` into an `RCFile` record holding:
   - the description, pidfile and service type;
   - the environment;
   - the dependency lists;
   - the `start`/`stop`/`start_pre`/`stop_pre` command lists.
3. `RCFile.write` prints the record as a shell script. The script has a header, then `KEY=value` lines and `pidfile=`, then the functions `depend`, `start_pre`, `stop_pre`, `start` and `stop`.

This project models that core as pure functions over immutable values and proves properties of them. A Python exception becomes the `Failure` of a `Result`. A Python attribute store becomes a map.

| module | file | models |
|---|---|---|
| `Wrappers` | wrappers.dfy | `Option` and `Result` |
| `Text` | text.dfy | string helpers: join, split on a character, replace-all, lowercase |
| `Consts` | consts.dfy | `consts.py`: paths, executables, service types, the unit-name table, the message templates with Python's `%` formatting, the script header |
| `ServiceConfig` | servicecfg.dfy | `ServiceConfig`: attribute access redirected into the `values` dict; a value is a string or a list of values |
| `Shlex` | shlex.dfy | Python 2.7's POSIX `shlex.split`, as a state machine with its two errors (no closing quotation, no escaped character). The source calls it everywhere it splits a command line |
| `PyEscape` | pyescape.dfy | Python 2's `string_escape` and `unicode_escape` codecs, as `Command.to_string` and `write` apply them, and what a POSIX shell reads back from the escaped text inside double quotes; Python 2's `repr` of a unicode string (`u'...'`) and what Python reads back from that literal |
| `UnitFileParser` | unitparser.dfy | `optionxform` (the `CAMEL` regex loop), `MultiValueDict.__setitem__`, and the option lines of a parsed file gathered into sections |
| `UnitFile` | unitfile.dfy | `UnitFile.__init__`: the copy loop over sections, the default type, the validation |
| `Commands` | command.dfy | `Command` (`indent`, `extend`, `to_string`, `multiple`, `indented`, `split`) and `StartStopDaemon` |
| `Requirements` | requirements.dfy | `_convert_requirement` and `_convert_requirements` |
| `Hooks` | hooks.dfy | `_convert_exec_pre`, `_convert_exec_post` and the dbus wait block |
| `RcFile` | rcfile.dfy | `RCFile.__init__`, `ensure_list`, `output_function` and `write` |
| `Convert` | convert.dfy | `_unit2openrc` and its twin `RCFile.from_unit` |

The model keeps these behaviours of the source:

- **`Requires=` never reaches the script.** It is stored in the attribute `needs`, which `write` never reads (`Convert.RequiresOnlyNeeds`, `RcFile.WriteIgnoresNeeds`).
- **dbus is appended twice.** A dbus service gets `dbus` appended to both `need` and `want` (`Convert.StagedDeps`, and for the finished script `Convert.ConvertDbus`).
- **Dependency order is open.** The dependency lists are built from a set, so their order is not defined. `write` takes the order in which it meets them, and the order of the environment dict, as a `Listing` parameter.
- **The type check comes late.** The check for an unsupported type (`oneshot`) runs only after the description, pidfile, environment and dependencies have been converted. Errors from those earlier steps win (`Convert.ConvertTypeCheckLate`).
- **`ExecStart=` must have at least one word.** `StartStopDaemon.start` takes `daemon_args[0]`. An `ExecStart=` that splits into no words is the `EmptyCommand` error (`Convert.ConvertEmptyCommand`).
- **List values print as Python reprs.** A multi-line value becomes a list, and `%s` prints a list as `[u'a', u'b']`: the repr of each line, with the `u` prefix of a Python 2 unicode string (`RcFile.ValueText`, `RcFile.ValueTextTwoLines`). The start and stop messages show such text when the description has several lines.
- **`from_unit` differs from `_unit2openrc` in one place.** It passes the environment to `shlex.split` without `ensure_list` (`Convert.FromUnitAgrees`).

## Model

| member | source | states |
|---|---|---|
| ServiceConfig.Get | unit2openrc/__init__.py:10-14 | Reading an attribute gives the stored value exactly when the name is in `values`. Otherwise it gives nothing, which stands for the AttributeError. |
| ServiceConfig.Set | unit2openrc/__init__.py:27-32 | Assigning an attribute stores the value under its name. It adds exactly that name and leaves every other entry as it was. |
| ServiceConfig.SetThenGet | unit2openrc/__init__.py:10-32 | After assigning an attribute, reading it returns the assigned value and `in` reports it. |
| ServiceConfig.SetOthers | unit2openrc/__init__.py:10-32 | Assigning one attribute changes neither the presence nor the value of any other. |
| ServiceConfig.SetTwice | unit2openrc/__init__.py:27-32 | A second assignment to the same name overrides the first. |
| Consts.RcTypesAreSystemdMinusOneshot | unit2openrc/consts.py:36-37 | The OpenRC service types are exactly the systemd ones without `oneshot`. |
| Consts.UnitNamesNonEmpty | unit2openrc/consts.py:39-46 | Every unit name in the synonym table maps to a non-empty service name, so a table hit is never dropped. |
| Consts.StartingTemplate | unit2openrc/consts.py:28 | The start message takes exactly two arguments and reads `Starting <description> '<name>'`. With one argument, formatting fails. |
| Consts.StoppingTemplate | unit2openrc/consts.py:29 | The stop message takes exactly two arguments and reads `Stopping <description> '<name>'`. With one argument, formatting fails. |
| Consts.HeaderShape | unit2openrc/consts.py:49-53 | The script header begins with the line `#!/usr/bin/openrc-run` and ends with the line `# by Unit2OpenRC.` followed by an empty line. |
| UnitFileParser.WordLength | unit2openrc/unitfile.py:14 | On non-empty text, one match of `CAMEL` consumes at least one character and at most all of them, so the `optionxform` loop ends. |
| UnitFileParser.StripUnderscore | unit2openrc/unitfile.py:67 | A word's trailing underscore, if any, is removed, and nothing else is. |
| UnitFileParser.Normalize | unit2openrc/unitfile.py:58-69 | A transformed option name contains no uppercase letter. |
| UnitFileParser.CamelCaseKey | unit2openrc/unitfile.py:58-69 | A name made of capitalised humps becomes the humps lowercased and joined by underscores. |
| UnitFileParser.TwoHumps | unit2openrc/unitfile.py:58-69 | A name of two humps becomes `first_second` in lower case. |
| UnitFileParser.BusNameName | unit2openrc/unitfile.py:58-69 | `BusName` becomes `bus_name`, the key the dbus validation looks for. |
| UnitFileParser.PidFileName | unit2openrc/unitfile.py:58-69 | A run of capitals is one word: `PIDFile` becomes `pidfile`, the key the converter looks for. |
| UnitFileParser.NormalizeSnake | unit2openrc/unitfile.py:58-69 | A name already in `snake_case` (not ending in `_`) is left unchanged. |
| UnitFileParser.NormalizeAlnum | unit2openrc/unitfile.py:58-69 | An alphanumeric name becomes a `snake_case` key: lowercase letters, digits and single underscores between non-empty words. |
| UnitFileParser.NormalizeIdempotent | unit2openrc/unitfile.py:58-69 | On alphanumeric names, transforming twice gives the same result as transforming once. |
| UnitFileParser.NormalizeNotIdempotent | unit2openrc/unitfile.py:58-69 | On underscores alone it is not idempotent: `__` becomes `_`, and `_` becomes the empty name. |
| UnitFileParser.SetItem | unit2openrc/unitfile.py:72-77 | A list stored under a key that already holds a list extends it. Any other store replaces. Other keys are unchanged. Extending a string is the failure Python raises. |
| UnitFileParser.SetItemTwice | unit2openrc/unitfile.py:72-77 | Two list stores under a fresh key leave the concatenation of both lists. |
| UnitFileParser.SetItemString | unit2openrc/unitfile.py:72-77 | Storing a string is plain replacement. |
| UnitFileParser.StoreIsSetItem | unit2openrc/unitfile.py:72-77 | The parser's per-section store of option lines is `MultiValueDict.__setitem__` on one-element lists. |
| UnitFileParser.Add | unit2openrc/unitfile.py:53-55 | Reading one more option line keeps the section table well formed: sections listed once, in first-seen order, DEFAULT kept apart. |
| UnitFileParser.AddEffect | unit2openrc/unitfile.py:53-77 | One option line touches only its own section. A new section is appended to the order. The line's values are stored under the transformed name. |
| UnitFileParser.Read | unit2openrc/unitfile.py:22-23 | Reading any sequence of option lines gives a well formed section table. |
| UnitFileParser.ReadCollects | unit2openrc/unitfile.py:72-77 | After reading, a section holds an option exactly when some line of that section carries its name. Its value is the lines of all such option lines, in file order. |
| UnitFileParser.ReadSections | unit2openrc/unitfile.py:22-23 | A section exists after reading exactly when some option line lies in it. |
| UnitFileParser.CollectedSome | unit2openrc/unitfile.py:72-77 | The gathered lines of an option are non-empty exactly when some option line of the section carries that name. |
| UnitFileParser.ReadOneSection | unit2openrc/unitfile.py:22-23 | A file whose lines all lie in one section has exactly that section and no defaults. |
| UnitFile.OptionNames | unit2openrc/unitfile.py:28 | The options of a section are its own names together with the DEFAULT names. |
| UnitFile.Lookup | unit2openrc/unitfile.py:29 | `get` finds exactly the listed options. It returns the section's own lines joined by newlines, and the DEFAULT lines joined by newlines when the section has no such option of its own. |
| UnitFile.Stored | unit2openrc/unitfile.py:30 | A value without a newline is kept as the same string. A value with one becomes the list of its pieces between newlines: at least two, none holding a newline, and joining them with newlines gives back the value. |
| UnitFile.StoredLines | unit2openrc/unitfile.py:30 | Joining option lines and splitting again at newlines gives back one line as a string, and several as the list of them. |
| UnitFile.Write | unit2openrc/unitfile.py:28-31 | Copying one section's looked-up values fails exactly when a lookup fails. Otherwise it adds exactly those names and keeps every other entry. |
| UnitFile.CopySection | unit2openrc/unitfile.py:28-31 | One round of the copy loop stores every option of the section, as stored form, and keeps the other entries. |
| UnitFile.CopyAll | unit2openrc/unitfile.py:26-31 | The copy loop keeps every name it started with. It fails only on a missing option, in a listed section that is not ignored. |
| UnitFile.CopyAllKept | unit2openrc/unitfile.py:26-27 | The copy loop gives the same result as copying only the sections that are not ignored. |
| UnitFile.CopyAllNames | unit2openrc/unitfile.py:26-31 | Every name after the copy loop was there before, or is an option of some section that is not ignored. |
| UnitFile.WithDefaultType | unit2openrc/unitfile.py:34-35 | A missing `type` is set to `simple`. A present one and every other entry are unchanged. |
| UnitFile.FirstMissing | unit2openrc/unitfile.py:38-40 | It finds the first required field, in check order, that is absent, or reports that all are present. |
| UnitFile.Validate | unit2openrc/unitfile.py:38-45 | It succeeds exactly on units that have a description, an `exec_start`, a known string type, and a `bus_name` when dbus. The unit passes through unchanged. |
| UnitFile.ValidateOrder | unit2openrc/unitfile.py:38-45 | The checks fire in source order: description, then `exec_start`, then the type, then the dbus bus name. Each raises its own error. |
| UnitFile.Load | unit2openrc/unitfile.py:19-45 | A loaded unit is valid and comes from a successful copy loop. |
| UnitFile.InstallIgnored | unit2openrc/unitfile.py:17 | Adding an option line of the `[Install]` section, with an ASCII option name, anywhere in the file never changes the loaded unit or its error. |
| UnitFile.LoadedNames | unit2openrc/unitfile.py:26-31 | Every name of a copied unit comes from an option line outside the ignored sections. |
| UnitFile.TypeDefault | unit2openrc/unitfile.py:34-35 | A file that never names `Type` loads with type `simple`. |
| UnitFile.PlainUnit | unit2openrc/unitfile.py:26-31 | In a one-section file of alphanumeric names, the copied unit has exactly the transformed names of its lines. Each value is the stored form of all the lines under that name, in file order. |
| Commands.Indent | unit2openrc/rcfile.py:298-304 | Indenting keeps the arguments and extends the prefix by as many tabs as the amount (none for an amount of zero or less). |
| Commands.Extend | unit2openrc/rcfile.py:307-313 | Extending appends the new arguments after the old ones and keeps the prefix. |
| Commands.IndentTwice | unit2openrc/rcfile.py:298-304 | Indenting by a and then b is indenting by a+b. |
| Commands.ExtendTwice | unit2openrc/rcfile.py:307-313 | Extending by a and then b is extending by a followed by b. |
| Commands.IndentExtend | unit2openrc/rcfile.py:298-313 | Indenting and extending commute. |
| Commands.EscapeArg | unit2openrc/rcfile.py:321-323 | An argument without `"` is left alone. An escaped one has every `"` preceded by a backslash. |
| Commands.QuoteArg | unit2openrc/rcfile.py:325 | An argument is put in double quotes exactly when it has a space and is not blank. |
| Commands.ToString | unit2openrc/rcfile.py:316-326 | A printed command starts with its prefix. Arguments with nothing special print as the prefix followed by the arguments separated by single spaces. |
| Commands.ToStringQuotesSpaced | unit2openrc/rcfile.py:316-326 | An argument with a space is printed inside double quotes. |
| Commands.QuotedArgReadsBack | unit2openrc/rcfile.py:316-326 | A printed argument with a space is read back by a shell, inside its double quotes, as the original printable ASCII text. |
| Commands.ToStringSplits | unit2openrc/rcfile.py:316-358 | Splitting a printed command of simple words gives back its arguments: `split` undoes `to_string`. |
| Commands.SplitCommand | unit2openrc/rcfile.py:355-358 | `split` succeeds exactly when `shlex.split` does and gives an unindented command of its words. Otherwise it fails with shlex's error. |
| Commands.SplitCommandWords | unit2openrc/rcfile.py:355-358 | Splitting simple words joined by spaces gives the command of those words. |
| Commands.PartCommands | unit2openrc/rcfile.py:336-342 | A list contributes its commands, a command itself, and a string its split. |
| Commands.Multiple | unit2openrc/rcfile.py:328-343 | `multiple` succeeds exactly when every string part splits. |
| Commands.MultipleAppend | unit2openrc/rcfile.py:328-343 | `multiple` of two part lists in a row is the concatenation of the two results. The first failure wins. |
| Commands.Indented | unit2openrc/rcfile.py:346-352 | `indented` gives the commands of `multiple` in order, with the same arguments and one more tab each. |
| Commands.SsdStop | unit2openrc/rcfile.py:372-374 | The stop form is `start-stop-daemon -K -p <pidfile>`. |
| Commands.SsdStart | unit2openrc/rcfile.py:375-382 | The start form needs a daemon with at least one word. It has the head, the daemon's words and one `--`. |
| Commands.SsdStartLayout | unit2openrc/rcfile.py:376-382 | After the head come the executable, then `--`, then the daemon's remaining arguments. |
| Commands.SsdStartForms | unit2openrc/rcfile.py:378-382 | A forking daemon gets `start-stop-daemon -S`. Any other gets `-S -b -m -p <pidfile> -x` before the same tail. |
| Shlex.Split | unit2openrc/rcfile.py:358 | On text without quotes or backslashes, `shlex.split` is splitting at whitespace. |
| Shlex.SplitJoin | unit2openrc/rcfile.py:358 | Simple words joined by spaces split back into the same words. |
| Shlex.LexUnclosed | unit2openrc/rcfile.py:358 | An opened quote that is never closed is the "No closing quotation" error. |
| Shlex.SplitDangling | unit2openrc/rcfile.py:358 | Plain text followed by an unclosed quote fails with "No closing quotation". Plain text followed by a final backslash fails with "No escaped character". |
| PyEscape.Utf8 | unit2openrc/rcfile.py:321 | A character encodes to 1 to 4 bytes. It encodes to its own code exactly when it is ASCII, and non-ASCII characters give only high bytes. |
| PyEscape.TokenEscape | unit2openrc/rcfile.py:321-322 | The argument escape works byte by byte on the UTF-8 encoding. Every `"` in its result is preceded by a backslash. Inside double quotes a shell reads the result back as the original printable ASCII text. |
| PyEscape.EnvEscape | unit2openrc/rcfile.py:139-140 | Inside double quotes a shell reads an escaped environment value back as the original printable ASCII text. |
| PyEscape.HexReadsBack | unit2openrc/rcfile.py:139 | A number below 16 to the power w, written as w hex digits, reads back as the same number. |
| PyEscape.ReadReprBody | unit2openrc/convert.py:66 | The body of a unicode repr, read as the inside of a Python literal with that quote, gives back the string. |
| PyEscape.UnicodeRepr | unit2openrc/convert.py:66 | The repr of a unicode string is `u`, a quote, a body and the same quote, and Python reads it back as the string. Printable text without quotes or backslashes gives `u'text'`. |
| Requirements.ConvertRequirement | unit2openrc/convert.py:147-169 | Table names map to their synonym. Otherwise `.device` and `.socket` units are dropped, and `.target`/`.service` units lose the suffix. Any other name is kept. |
| Requirements.TableBeforeSuffix | unit2openrc/convert.py:157-163 | The table is consulted before the suffix rules: `dbus.socket` ends in `.socket` but becomes `dbus`. |
| Requirements.ServiceUnit | unit2openrc/convert.py:157-167 | A `.service` unit is never in the table and never dropped, so it always loses its suffix. |
| Requirements.InnerDotsKept | unit2openrc/convert.py:165-167 | Only the last dot-separated part is removed: `a.b.service` becomes `a.b`. |
| Requirements.Converted | unit2openrc/convert.py:183-185 | One string's names become the set of their non-empty conversions. |
| Requirements.ConvertRequirements | unit2openrc/convert.py:172-187 | It succeeds exactly when every string (at any nesting depth) splits. The result is the set of every non-empty conversion of every word, with no empty name. |
| Requirements.ListUnion | unit2openrc/convert.py:179-181 | A concatenated list converts to the union of the two parts' results. |
| Requirements.SingleList | unit2openrc/convert.py:179-181 | A value and the one-element list holding it convert alike. |
| Requirements.WordsRequirements | unit2openrc/convert.py:172-187 | A string of simple words converts to the set of the words' non-empty conversions. |
| Hooks.PhraseSplits | unit2openrc/rcfile.py:341-342 | A fixed shell line given to `multiple` becomes the command of its words. |
| Hooks.IfSucceededText | unit2openrc/convert.py:136 | The words of the success test join to `if [ $? -eq 0 ] ; then`. |
| Hooks.PreHook | unit2openrc/convert.py:115-119 | A hook starting with `-` is split without its dash and without a guard. Any other hook is split and gets `\|\| return 1` appended. A list is an error. |
| Hooks.PreHooks | unit2openrc/convert.py:115-119 | Every hook is converted in order, and the first failure is the result. |
| Hooks.ExecPre | unit2openrc/convert.py:107-122 | No hooks give no commands. Otherwise it gives the converted hooks followed by one `return 0`. |
| Hooks.ExecPreGuards | unit2openrc/convert.py:115-121 | Each converted hook is the split of its text after the dash, or ends in the guard `\|\| return 1`. |
| Hooks.PostHook | unit2openrc/convert.py:138 | A post hook is its split with `\|\| return 1` appended. A list is an error. |
| Hooks.PostHooks | unit2openrc/convert.py:138 | Every post hook is converted in order, and the first failure is the result. |
| Hooks.PostBlock | unit2openrc/convert.py:135-144 | The post block is the success test, then the hooks indented once, then `eend 0` indented, `else`, `eend 1` indented and `fi`. |
| Hooks.ExecPost | unit2openrc/convert.py:125-144 | The post hooks inside an if/else block that runs them only after the daemon succeeded and always calls `eend`. |
| Hooks.DbusBlock | unit2openrc/convert.py:70-81 | The dbus block is eight commands: wait for the bus name, and if that fails, indented, the comment, the kill of the daemon by its pidfile, `eend 1` and `return 1`; then `fi` and `true`. |
| RcFile.PathJoin | unit2openrc/rcfile.py:19 | An absolute second part wins. Otherwise the two parts are joined with one slash unless the first already ends in one. |
| RcFile.RunPidFile | unit2openrc/rcfile.py:19 | The default pidfile is `/run/<shortname>.pid`. |
| RcFile.New | unit2openrc/rcfile.py:16-37 | A new script is `forking`, has the default description and the `/run` pidfile, and is otherwise empty. |
| RcFile.EnsureListIdempotent | unit2openrc/rcfile.py:233-237 | Applying it to its own result changes nothing, and the value is never lost. |
| RcFile.ReprValue | unit2openrc/convert.py:66 | The repr of a value has at least two characters, and the repr of a string is a unicode literal that reads back as the string. |
| RcFile.ValueText | unit2openrc/convert.py:66 | `%s` of a string is the string. `%s` of a list is `[`, the reprs of its items separated by `, `, and `]`. |
| RcFile.ValueTextLines | unit2openrc/unitfile.py:30 | A value split into lines prints as `[`, the unicode repr of each line separated by `, `, and `]`. |
| RcFile.ValueTextTwoLines | unit2openrc/convert.py:66 | Two plain lines `a` and `b` print as `[u'a', u'b']`. |
| RcFile.TabLines | unit2openrc/rcfile.py:226-229 | Each command line is a tab followed by the printed command. |
| RcFile.OutputFunction | unit2openrc/rcfile.py:222-230 | A function opens with `name() {` and closes with `}` and a blank line. |
| RcFile.OutputFunctionLines | unit2openrc/rcfile.py:222-230 | The printed function's lines are exactly the header, one tab-indented line per command in order, the closing brace and a blank line. |
| RcFile.EnvValue | unit2openrc/rcfile.py:139-140 | A value without a space is written as it is. |
| RcFile.EnvLines | unit2openrc/rcfile.py:137-141 | The environment block is one `KEY=value` line per name, in the order the names are met, each ended by a newline. |
| RcFile.EnvValueReadsBack | unit2openrc/rcfile.py:137-141 | The shell reads an environment line back as the stored value: plain when it has no space, quoted and escaped when it has one. |
| RcFile.Write | unit2openrc/rcfile.py:122-164 | The script opens with the header, then the environment lines, then the `pidfile=` line and a blank line. |
| RcFile.DependCount | unit2openrc/rcfile.py:146-152 | `depend` has a command exactly when some dependency list is non-empty. |
| RcFile.Functions | unit2openrc/rcfile.py:146-162 | `start` and `stop`, with the script's own commands, always come last. `depend` appears exactly when some dependency list is non-empty. `start_pre` and `stop_pre` appear exactly when they have commands. |
| RcFile.WriteFunctions | unit2openrc/rcfile.py:146-162 | `start` and `stop` always come last, in that order. `depend`, `start_pre` and `stop_pre` appear exactly when they have content. |
| RcFile.WriteIgnoresNeeds | unit2openrc/rcfile.py:122-164 | The written script does not depend on the `needs` attribute. |
| RcFile.WriteNew | unit2openrc/rcfile.py:16-164 | A fresh script prints as the header, its pidfile line, and empty `start` and `stop` functions. |
| Convert.SplitAssign | unit2openrc/convert.py:39-40 | `split("=", 1)` exists exactly for words with `=`. Name, `=` and value rebuild the word, and the name has no `=`. |
| Convert.SplitAssignJoin | unit2openrc/convert.py:39-40 | Splitting `k=v` for a name without `=` gives back the name and the value. |
| Convert.AssignLast | unit2openrc/convert.py:39-43 | A word without `=` leaves the environment unchanged. A word with one overrides that name. |
| Convert.AssignKeys | unit2openrc/convert.py:36-43 | The environment's names are the old names plus the name of every word with `=`. |
| Convert.EnvTokens | unit2openrc/convert.py:37-38 | The environment's words exist exactly when every item is a string that splits. Otherwise the error names the environment. |
| Convert.Env | unit2openrc/convert.py:36-43 | The environment converts exactly when its words split, adding exactly the names of its assignments. |
| Convert.EnvBadWord | unit2openrc/convert.py:42-43 | As written, a word without `=` raises NameError for `sys`. The corrected conversion skips it. |
| Convert.EnvAsWritten | unit2openrc/convert.py:36-43 | As written, the environment converts exactly when its words split and every word has `=`. When the words split but one has no `=`, the error is NameError for `sys`. |
| Convert.EnvAsWrittenAgrees | unit2openrc/convert.py:36-43 | Wherever the code as written succeeds, the corrected environment conversion gives the same result. |
| Convert.Requirement | unit2openrc/convert.py:46-53 | An absent field leaves the list unset. A present one is replaced by the set of its converted names, or fails with the shlex error of that field. |
| Convert.Replaced | unit2openrc/convert.py:49-53 | A converted field replaces the list and holds each name once, and an absent field leaves the list as it was. |
| Convert.Staged | unit2openrc/convert.py:31-61 | The first half, with the corrected environment step of Convert.Env, succeeds exactly when the environment and the four requirement fields convert. It copies description, pidfile and type, and resets the command lists. |
| Convert.StagedDeps | unit2openrc/convert.py:46-56 | `requires` lands in `needs`. `wants` replaces `want`. A dbus service gets `dbus` added to both `need` and `want`. |
| Convert.StartMessage | unit2openrc/convert.py:66 | The start line's text is `Starting <description> '<shortname>'`. |
| Convert.StopMessage | unit2openrc/convert.py:89 | The stop line's text is `Stopping <description> '<shortname>'`. |
| Convert.DbusWait | unit2openrc/convert.py:69-81 | The dbus block waits on the bus name. If the name is not acquired, it kills the daemon by the pidfile, reports `eend 1` and returns 1, then closes with `fi` and `true`. |
| Convert.StartWaitsForDbus | unit2openrc/convert.py:67-86 | For a dbus service, `start` runs the whole dbus block right after start-stop-daemon, and the post hooks or `eend $?` follow it. |
| Convert.Finale | unit2openrc/convert.py:83-86 | Without a post hook the function ends in `eend $?`. With one it ends in the post block, whose last line is `fi`. |
| Convert.StartCommands | unit2openrc/convert.py:65-86 | `start` is `ebegin`, then start-stop-daemon on the split `ExecStart=`, then the dbus block for dbus, then the finale. It fails exactly when a part fails. An empty command is its own error. |
| Convert.StopCommands | unit2openrc/convert.py:88-98 | `stop` is `ebegin`, then the unit's own stop command, then start-stop-daemon `-K` when the type is simple or there is no own stop, then the finale. |
| Convert.Finish | unit2openrc/convert.py:58-104 | An unsupported type fails. A success changes only the four command lists of the staged script. |
| Convert.Convert | unit2openrc/convert.py:27-104 | `_unit2openrc`, with the corrected environment step of Convert.Env (a word without `=` is skipped, see Findings). A converted script has a supported type, the unit's description, the unit's pidfile or the default, and a string pidfile wherever one is used. |
| Convert.FromUnit | unit2openrc/rcfile.py:40-119 | `from_unit`, with the same corrected environment step: its result always has a type OpenRC supports. |
| Convert.ConvertTypeCheckLate | unit2openrc/convert.py:59-63 | Only `oneshot` is rejected. Errors of the earlier steps take precedence. By the time of the raise, the type and environment were already copied. |
| Convert.ConvertLists | unit2openrc/convert.py:58-104 | A converted script's command lists are the start, stop and pre commands of the staged script. |
| Convert.ConvertStart | unit2openrc/convert.py:65-86 | A successful conversion had an `ExecStart=` that splits into at least one word. `start` opens with the message and start-stop-daemon on it, waits for dbus when dbus, and ends in `fi` or `eend $?`. |
| Convert.ConvertStop | unit2openrc/convert.py:88-98 | `stop` opens with the message and the unit's own stop command. It kills by the pidfile for simple services or without an own stop, and ends in the finale. |
| Convert.ConvertPre | unit2openrc/convert.py:100-104 | `start_pre` and `stop_pre` are the converted pre hooks. |
| Convert.ConvertDbus | unit2openrc/convert.py:54-56 | A converted dbus service needs and wants `dbus`. |
| Convert.ConvertEmptyCommand | unit2openrc/convert.py:67-68 | An `ExecStart=` with no words cannot be converted: there is no executable to put first. |
| Convert.FromUnitAgrees | unit2openrc/rcfile.py:50-56 | `from_unit` and `_unit2openrc` agree unless the environment is a list, which `from_unit` hands to `shlex` unwrapped and fails on. |
| Convert.RequiresOnlyNeeds | unit2openrc/convert.py:46-47 | Adding `Requires=` to a unit changes only the `needs` attribute of the converted script, never success or any emitted field. |

## Left out

- Reading files and the `ConfigParser` line syntax (comments, `key=value` splitting, continuation lines, section headers). The model starts from the parsed option lines, each with its section, raw name and value lines. The `__name__` entry that `ConfigParser` adds and `options()` removes is not modelled.
- The order of Python dicts and sets. `write` meets the environment keys and the dependency names in an undefined order, which is the `Listing` parameter. The dependency lists are multisets.
- The UTF-8 encoding of the output and the `StringIO` buffer. `RcFile.Write` returns the text before encoding.
- PyEscape.TokenEscape: the read-back is proved only for printable ASCII text without shell expansions (`$`, backticks). `string_escape` of other characters yields escapes the shell does not undo.
- PyEscape.EnvEscape: the same limit. `unicode_escape` of other characters yields escapes the shell does not undo.
- PyEscape.LiteralRead: reads only the escapes that `repr` writes (`\\`, `\'`, `\"`, `\t`, `\n`, `\r`, `\x`, `\u`, `\U`). Python's other escapes (`\a`, `\b`, `\f`, `\v`, octal, `\N{...}`) are not modelled.
- Commands.QuotedArgReadsBack: also requires that an argument with a backslash contains a `"`. The source escapes only arguments that contain `"`, so a lone backslash is printed raw and the shell may consume it.
- Commands.ToString: states its text exactly only for arguments with nothing special. Quoting and escaping are stated by Commands.ToStringQuotesSpaced, Commands.QuotedArgReadsBack and Commands.ToStringSplits.
- Convert.JoinFailure: a list pidfile or bus name fails in the source only when `write` prints the command that holds it. The model reports it, as `ListArgument`, at the end of conversion, after every check the source does during conversion.
- Convert.FromUnit: states the type only. Its agreement with Convert.Convert is Convert.FromUnitAgrees.
- Convert.ConvertEmptyCommand: the source raises IndexError at `daemon_args[0]`. The model reports `EmptyCommand`.
- `convert.py` line 10 imports `ensure_list` from the package, which does not define it, so importing `convert.py` fails. The model uses `RCFile.ensure_list` (rcfile.py lines 233-237) for it.
- The partly filled script left behind after an error: a failure carries only the error.
- The `NoOption` error keeps only its section, not the option name.
- `convert()`'s `isinstance` dispatch, `__str__`, `__hasattr__` and `main.py`: they do command-line handling and type checks only. `main.py` is not part of this model.
- `INIT_D`, `DAEMON_DIR` and `ALLOW_DBUS`: defined in consts.py but not read by the core.
- `shlex`: `shlex.split` on a non-string is not modelled. The split is the POSIX word splitting with the two quoting styles and backslash escapes. `#` is an ordinary character, because `shlex.split` turns comments off.
- UnitFile.Load: accepts option names and values with non-ASCII characters, and the model treats every character as text. The source reads the unit file as bytes while its own literals are unicode (`unicode_literals`, unitfile.py:7). So `word.endswith("_")` (unitfile.py:67) raises UnicodeDecodeError for an option name with a non-ASCII byte, in any section, and `"\n" in v` (unitfile.py:30) raises it for a copied value with one. UnicodeDecodeError is a ValueError, which the command line reports as an invalid unit file. For the same reason no non-ASCII value reaches `shlex`.
- UnitFile.InstallIgnored: holds in the source only for ASCII option names, because of the UnicodeDecodeError described under UnitFile.Load.
- UnitFile.CopyAll: states only what is kept and where it fails. The names it adds are stated by UnitFile.CopyAllNames and UnitFile.CopySection, and the skipped sections by UnitFile.CopyAllKept.
- UnitFileParser.NormalizeIdempotent: proved for alphanumeric names, which covers every systemd directive. On names with underscores it need not hold (UnitFileParser.NormalizeNotIdempotent).

## Findings

| source | as written | input that shows it | evidently intended | confidence | as-written member | corrected member |
|---|---|---|---|---|---|---|
| unit2openrc/convert.py:43 | An environment word without `=` prints a warning to `sys.stderr`, but `sys` is never imported, so the warning raises NameError and the conversion fails. The same line is in `rcfile.py` at line 56. | `Environment=FOO` | print the warning, skip the word and go on | not executed | Convert.EnvBadWord | Convert.Env |
