# Flag resolution and binding engine

A Dafny model of the flag engine of a Go command-line library. It covers:

- **How flags are declared and bound.** Each flag kind (boolean, unsigned 64-bit,
  path, choice) reads a fallback value from the environment or a file. It then
  registers every one of its names in the standard flag set, either over a
  caller's destination variable or over storage of its own.
- **The choice registry.** A token-to-value table with its inverse. Its binding
  cell decodes tokens and writes them through flag-owned storage or a
  caller pointer.
- **The execution context.** A chain of scopes from child to root. It resolves
  a flag name to the nearest scope that set it explicitly, answers `IsSet`, and
  checks that required flags were given.
- **The flag-list operations of flag.go.** Building a flag set, propagating a
  value given under one name to the flag's other names, and the help-text
  helpers.

## Modules

- **`Wrappers`, `Errors`, `Pointers`**: optional values, the engine's errors
  (one variant per distinct Go error), and a Go pointer as a heap cell `Ref<T>`.
- **`Text`**: the `strings` functions the engine uses, and the
  `[, ]+.*` regular expression of `flagNames`.
- **`Choices`**: `defaultChoice` as the value `Registry`, and `choiceValue`
  as `ChoiceValue`. The reflected storage is the sum type
  `Storage = Invalid | NilPointer | Direct | Indirect`.
- **`FlagSets`**: the slice of Go's standard `flag.FlagSet` the engine relies on,
  as a class. It has the declared names (`formal`), the explicitly given names
  (`actual`, what `Visit` walks), registration, and `Set`. It also has
  `strconv.ParseBool` and `ParseUint`.
- **`FlagHelpers`**: the name, value-source and help-text helpers of flag.go.
- **`FlagBool`, `FlagUint64`, `FlagPath`, `FlagChoice`**: the flag kinds as
  classes whose `Apply` updates `Value` and `HasBeenSet` in place.
- **`FlagList`**: the `Flag` interface as a datatype over the kinds, plus
  `flagSet`, `normalizeFlags`, `copyFlag` and `hasFlag`.
- **`Contexts`**: `Context` as a class with an immutable parent and a ghost
  depth. It has `Lineage`, `lookupFlagSet`, `Value`, `IsSet`,
  `checkRequiredFlags`, the flag-name visitor, and the typed accessors.

The operating system enters as parameters:

- `env` maps each set environment variable to its value.
- `files` maps each readable path to its contents.
- `windows` stands for `runtime.GOOS == "windows"`.

Where the library's documentation and its code differ, the model follows the
code:

- `checkRequiredFlags` reports the *last* name longer than one character, because
  the loop overwrites `flagName`, not the first.
- `IsSet` consults every scope of the lineage and the app's flags, not only the
  flag's own scope.
- A choice flag's `Names()` puts the aliases first and `Name` last, and does not
  cut names at a comma or space.
- `normalizeFlags` fails whenever two forms of one flag were visited, whatever
  their values.
- A path flag takes an empty environment value and marks itself set.

## Model

| member | source | states |
|---|---|---|
| Text.TrimLeftShape | context.go:177 | trimming the front keeps a suffix that does not start with white space and drops only white space |
| Text.TrimRightShape | context.go:177 | trimming the back keeps a prefix that does not end with white space and drops only white space |
| Text.TrimSpacePiece | context.go:177 | `strings.TrimSpace` keeps one contiguous slice of its input, and everything it drops on either side is white space |
| Text.TrimSpaceShape | context.go:177 | the kept slice has no white space at either end, so trimming it again changes nothing |
| Text.TrimChar | flag.go:187 | `strings.Trim(name, " ")` leaves no space at either end and never lengthens the name |
| Text.Split | flag.go:513 | splitting the file list on commas yields at least one piece, and no piece holds a comma |
| Text.SkipLine | flag.go:22 | the `.*` of the name pattern consumes a suffix up to the next line feed |
| Text.CutAtCommaOrSpace | flag.go:22 | the name pattern's replacement leaves no comma or space and never lengthens the name |
| Text.FirstCommaOrSpace | flag.go:288 | the position of the first comma or space, with none before it |
| Text.CutSingleLine | flag.go:284-288 | on one line, the cut keeps exactly the text before the first comma or space |
| Text.CutKeepsClean | flag.go:288 | a name without commas or spaces is left alone |
| Text.CutIdempotent | flag.go:288 | cutting twice is cutting once |
| FlagHelpers.FlagNames | flag.go:280-292 | the loop returns the cut of `Name` followed by the cut of each alias |
| FlagHelpers.NameFormsShape | flag.go:280-292 | exactly 1+len(aliases) entries in order, `Name` first; no entry holds a comma or space |
| FlagHelpers.NameFormsSingleLine | flag.go:284-288 | an input on one line keeps exactly its text before the first comma or space |
| FlagHelpers.NameFormsIdempotent | flag.go:288 | applying `flagNames` to its own output changes nothing |
| FlagHelpers.FlagFromEnvOrFile | flag.go:506-519 | the two early-return loops give `ok` exactly when some variable or file supplies a value, and that value; a name that trims to "" is never set and the empty path is never readable |
| FlagHelpers.EnvWins | flag.go:507-512 | the first set variable (name trimmed, never empty) wins even with an empty value, and files are not consulted |
| FlagHelpers.FileFallback | flag.go:513-518 | with no variable set, the untrimmed contents of the first readable non-empty path win; with none readable, nothing is found |
| FlagHelpers.NoFilePath | flag.go:513-518 | a flag without `FilePath` splits it into one empty path, which reads nothing: only the variables count, and with every name blank nothing is found |
| FlagHelpers.NextBacktick | flag.go:230-233 | the first backtick at or after a position, with none before it |
| FlagHelpers.UnquoteUsage | flag.go:229-243 | without a backtick pair, ("", usage) unchanged; with one, the text between the first two backticks and the usage two characters shorter with those backticks removed |
| FlagHelpers.PrefixFor | flag.go:218-226 | "-" exactly for one-character names, "--" otherwise |
| FlagHelpers.PrefixedNames | flag.go:245-261 | the loop's text is the pieces of all names concatenated: empty names skipped, dashes, name, placeholder, and ", " for every entry but the last |
| FlagHelpers.PrefixedAllEmpty | flag.go:248-250 | with every name empty the text is empty |
| FlagHelpers.PrefixedDanglingSeparator | flag.go:256-258 | the separator depends on position only: an empty last name leaves a trailing ", " |
| FlagHelpers.WithEnvHint | flag.go:263-278 | `str` unchanged for an empty list; otherwise `str` followed by a bracketed hint |
| FlagHelpers.WithFileHint | flag.go:305-311 | `str` unchanged exactly when the path is empty; otherwise `str`, " [", the path, "]" |
| FlagHelpers.FormatDefault | flag.go:321-323 | the format text wrapped as " (default: …)" |
| FlagHelpers.QuoteStrings | flag.go:488-494 | a slice of the same length with each string between double quotes |
| Choices.NewChoice | flag_choice.go:47-73 | the registry keeps the table, its inverse covers exactly the mapped values and sends each to a key mapping to it, and the tokens are listed once each |
| Choices.InvertTable | flag_choice.go:62-65 | the first loop of `init` builds the inverse table over exactly the table's values |
| Choices.ListTokens | flag_choice.go:67-72 | the second loop of `init` lists every key exactly once in `len(v)` slots |
| Choices.NewStringChoice | flag_choice.go:34-40 | each string is its own token and value; unknown tokens decode to nil and every string renders back to itself |
| Choices.FromString | flag_choice.go:75-80 | the result is nil or a mapped value, and nil for every token outside the table |
| Choices.ToString | flag_choice.go:82-87 | on a valid registry a non-empty result is a key mapping to the value; a mapped value always gets such a key; an unmapped one gets "" |
| Choices.Strings | flag_choice.go:89-91 | on a valid registry, each key listed once and nothing else |
| Choices.UnknownToken | flag_choice.go:75-80 | `FromString` returns nil exactly for tokens outside the table |
| Choices.RoundTripValue | flag_choice.go:75-87 | `FromString(ToString(v)) == v` for every mapped value |
| Choices.RoundTripToken | flag_choice.go:59-65 | with unique values, `ToString(FromString(s)) == s` for every key |
| Choices.UnregisteredValue | flag_choice.go:82-87 | `ToString` renders an unregistered value as "" |
| Choices.StringsArePermutation | flag_choice.go:89-91 | `Strings()` has len(v) entries and is a permutation of the keys |
| Choices.NewChoiceValue | flag_choice.go:188-190 | a nil default gives invalid storage, a pointer default pointer storage |
| Choices.NewChoiceValueSwap | flag_choice.go:192-211 | error for a non-pointer and for a nil-pointer destination; otherwise the cell is over the destination, written only when the default is non-nil |
| Choices.ChoiceValue.Value | flag_choice.go:235-240 | nil when there is no storage |
| Choices.ChoiceValue.String | flag_choice.go:228-233 | "" when there is no storage; a non-empty rendering decodes to the stored value |
| Choices.ChoiceValue.Set | flag_choice.go:213-224 | no-op returning nil without storage; an unknown token is `errParse` and leaves storage unchanged, plain or pointer; a known token is written through a pointer |
| Choices.SetOwnString | flag_choice.go:213-233 | setting a cell from its own rendering keeps a registered value |
| FlagSets.ParseBool | flag_bool.go:72 | an accepted spelling starts with the digit or letter of its value, and "true"/"false" read as the values they name |
| FlagSets.ScanDigitsChars | flag_uint64.go:65 | only digits of the base and underscores scan to a number |
| FlagSets.ScanBase0Chars | flag_uint64.go:65 | after the base-0 prefix rules, a number is made only of letters, digits and underscores |
| FlagSets.ParseUint64 | flag_uint64.go:65 | `ParseUint(s, 0, 64)`: a number holds only letters, digits and underscores, and a misplaced underscore is never a number |
| FlagSets.UnderscoreAccepted | flag_uint64.go:65 | "1_000" parses to 1000 |
| FlagSets.UnderscoreAfterPrefix | flag_uint64.go:65 | "0x_ff" parses to 255 |
| FlagSets.UnderscoreMisplaced | flag_uint64.go:65 | "1__0" and "10_" are syntax errors although every digit scans |
| FlagSets.FormatBool | flag_bool.go:108 | a boolean cell's rendering parses back to its value |
| FlagSets.FormatUint64 | flag_uint64.go:106 | an unsigned cell's rendering is decimal digits without a leading zero |
| FlagSets.ScanFormat | flag_uint64.go:106 | the digits scan back to the number they render |
| FlagSets.FormatParses | flag_uint64.go:105-111 | `ParseUint(FormatUint(n), 0, 64) == n` for every 64-bit value |
| FlagSets.SetCell | flag.go:169-171 | `Value.Set`: standard cells store the parse result, even on error; a choice cell follows `choiceValue.Set`, and over a plain value an unknown token is `errParse` |
| FlagSets.RenderingParses | flag.go:166-173 | the rendering `copyFlag` copies from a boolean or unsigned cell parses back to its value |
| FlagSets.FlagSet.constructor | flag.go:155 | a new set has nothing declared and nothing visited |
| FlagSets.FlagSet.Lookup | context.go:147 | found exactly when declared, visited or not |
| FlagSets.FlagSet.Var | flag_choice.go:134-137 | declares the name with the cell; nothing is visited |
| FlagSets.FlagSet.BoolVar | flag_bool.go:85 | stores the default through the pointer and declares the name over it |
| FlagSets.FlagSet.Bool | flag_bool.go:88 | declares the name over a fresh variable holding the default |
| FlagSets.FlagSet.Uint64Var | flag_uint64.go:77 | stores the default through the pointer and declares the name over it |
| FlagSets.FlagSet.Uint64 | flag_uint64.go:80 | declares the name over a fresh variable holding the default |
| FlagSets.FlagSet.StringVar | flag_path.go:72 | stores the default through the pointer and declares the name over it |
| FlagSets.FlagSet.String | flag_path.go:75 | declares the name over a fresh variable holding the default |
| FlagSets.FlagSet.Set | context.go:48-50 | an undeclared name is an error; otherwise the cell is set (an unknown token over a plain choice value is `errParse`), and the name becomes visited exactly when that succeeds |
| FlagBool.BoolFlag.constructor | flag_bool.go:10-24 | a literal with `HasBeenSet` false |
| FlagBool.BoolFlag.Names | flag_bool.go:38-40 | one name per input, `Name` first, each cut as `flagNames` cuts it |
| FlagBool.BoolFlag.IsSet | flag_bool.go:27-29 | whether the environment or a file supplied the value, which only `Apply` records |
| FlagBool.BoolFlag.TakesValue | flag_bool.go:47-50 | a boolean flag takes no value |
| FlagBool.BoolFlag.GetValue | flag_bool.go:57-61 | always "" |
| FlagBool.BoolFlag.Apply | flag_bool.go:69-92 | an unparsable non-empty value is an error naming value and flag, with nothing registered and `Value`/`HasBeenSet` unchanged; a parsed one becomes `Value` and sets `HasBeenSet`; an empty one is ignored; on success every name is declared once with `Value`, over the destination or over distinct fresh variables; the names must be new only when the flag applies cleanly |
| FlagBool.BoolFlag.Declare | flag_bool.go:83-89 | the registration loop: every name declared once with `Value`, over the destination or over distinct fresh variables, and nothing visited |
| FlagBool.BoolFlag.DeclareOwned | flag_bool.go:83-89 | without a destination each name gets its own fresh variable holding `Value` |
| FlagBool.BoolFlag.DeclareShared | flag_bool.go:83-89 | with a destination every name shares it, and it holds `Value` |
| FlagBool.LookupBool | flag_bool.go:107-113 | false when the rendering does not parse; the stored value for a boolean cell |
| FlagUint64.Uint64Flag.constructor | flag_uint64.go:10-23 | a literal with `HasBeenSet` false |
| FlagUint64.Uint64Flag.Names | flag_uint64.go:37-39 | one name per input, `Name` first, each cut as `flagNames` cuts it |
| FlagUint64.Uint64Flag.IsSet | flag_uint64.go:26-28 | whether the environment or a file supplied the value, which only `Apply` records |
| FlagUint64.Uint64Flag.TakesValue | flag_uint64.go:47-49 | an unsigned flag takes a value |
| FlagUint64.Uint64Flag.GetValue | flag_uint64.go:88-90 | the decimal rendering, which parses back to `Value` |
| FlagUint64.Uint64Flag.Apply | flag_uint64.go:62-84 | an unparsable non-empty value is an error naming value and flag, with nothing registered and `HasBeenSet` unchanged; a parsed one becomes `Value` and sets `HasBeenSet`; an empty one is ignored; on success every name is declared once with `Value`, over the destination or over distinct fresh variables; the names must be new only when the flag applies cleanly |
| FlagUint64.Uint64Flag.Declare | flag_uint64.go:75-81 | the registration loop: every name declared once with `Value`, over the destination or over distinct fresh variables, and nothing visited |
| FlagUint64.Uint64Flag.DeclareOwned | flag_uint64.go:75-81 | without a destination each name gets its own fresh variable holding `Value` |
| FlagUint64.Uint64Flag.DeclareShared | flag_uint64.go:75-81 | with a destination every name shares it, and it holds `Value` |
| FlagUint64.LookupUint64 | flag_uint64.go:105-111 | 0 on a parse failure; the stored value for an unsigned cell |
| FlagPath.PathFlag.constructor | flag_path.go:5-19 | a literal with `HasBeenSet` false |
| FlagPath.PathFlag.Names | flag_path.go:33-35 | one name per input, `Name` first, each cut as `flagNames` cuts it |
| FlagPath.PathFlag.IsSet | flag_path.go:22-24 | whether the environment or a file supplied the value, which only `Apply` records |
| FlagPath.PathFlag.GetValue | flag_path.go:54-56 | the path as given, with no quoting or cleaning |
| FlagPath.PathFlag.TakesValue | flag_path.go:43-45 | a path flag takes a value |
| FlagPath.PathFlag.Apply | flag_path.go:64-79 | never an error; any source value, even empty, becomes `Value` and sets `HasBeenSet`; every name is declared once with `Value`, over the destination or over distinct fresh variables |
| FlagPath.PathFlag.Declare | flag_path.go:70-76 | the registration loop: every name declared once with `Value`, over the destination or over distinct fresh variables, and nothing visited |
| FlagPath.PathFlag.DeclareOwned | flag_path.go:70-76 | without a destination each name gets its own fresh variable holding `Value` |
| FlagPath.PathFlag.DeclareShared | flag_path.go:70-76 | with a destination every name shares it, and it holds `Value` |
| FlagPath.LookupPath | flag_path.go:94-100 | the stored text of a string cell unchanged; a choice cell's rendering decodes to its value |
| FlagChoice.ChoiceFlag.constructor | flag_choice.go:94-106 | a literal with `HasBeenSet` false |
| FlagChoice.ChoiceFlag.Names | flag_choice.go:144-146 | the aliases in order, then `Name`, uncut |
| FlagChoice.ChoiceFlag.IsSet | flag_choice.go:149-151 | whether the environment or a file supplied the value, which only `Apply` records |
| FlagChoice.ChoiceFlag.TakesValue | flag_choice.go:158-161 | a choice flag takes a value |
| FlagChoice.ChoiceFlag.GetValue | flag_choice.go:168-171 | a non-empty rendering decodes to `Value`, and a registered `Value` renders to a token that decodes to it |
| FlagChoice.ChoiceFlag.Apply | flag_choice.go:114-141 | nil `Choice` is an error before anything else, whatever the destination and default; an unknown source token is `errParse` with `Value`/`HasBeenSet` unchanged; whenever the flag does not accept its inputs (nil `Choice` or an unknown token) a pointer destination is left as it was; a known one becomes `Value` and sets `HasBeenSet`; a non-pointer or nil destination fails on the first name; otherwise every name is declared with a cell over the destination or the value; the names must be new only when the flag applies cleanly |
| FlagChoice.ChoiceFlag.Declare | flag_choice.go:128-138 | the registration loop: a bad destination fails before anything is declared; otherwise one cell per name, and the destination receives a non-nil `Value`; the names must be new only when the destination is a non-nil pointer or absent |
| FlagList.Flag.Names | flag.go:119 | every flag kind has at least one name |
| FlagList.Flag.IsSetDispatch | flag.go:120 | `IsSet()` through the interface answers as the kind it holds |
| FlagList.Flag.IsRequired | flag.go:128 | `IsRequired()` through the interface is the `Required` field of the kind it holds |
| FlagList.Flag.ApplyError | flag.go:118 | the error a kind's `Apply` returns, in the order the kind checks; none exactly when the flag applies cleanly |
| FlagList.ApplyFlag | flag.go:118 | `Apply` through the interface returns exactly the kind's error, declares exactly the flag's names on success and nothing on failure, and visits nothing; the flag ends with the value it took from the environment or a file and `IsSet()` true, or with `Value` and `IsSet()` as they were when it took nothing (`Took`); the names must be new only on success |
| FlagList.FirstFailure | flag.go:157-161 | the position of the first flag that does not apply cleanly, every earlier one applying cleanly; the length when all do |
| FlagList.FlagSetFor | flag.go:154-164 | a fresh set declaring exactly every flag's names when every flag applies cleanly; otherwise the first failing flag's own error and no set; every flag up to and including the first failure ends with the value it took and `IsSet()` as `Took` states; distinct names are demanded only of the flags before the first failure, and nothing of flags after it |
| FlagList.ApplyNext | flag.go:157-161 | one step of that loop: flag `i` returns its own error, declares its names after the earlier flags', ends with the value it took as `Took` states, and leaves every other flag untouched; its names must be new only when it applies cleanly |
| FlagList.ApplyEach | flag.go:157-161 | the loop up to the first failure: the failing flag's error, or none; the names of the clean flags declared in order; every flag applied ends as `Took` states |
| FlagList.NamesOfNext | flag.go:157-161 | with all names distinct, flag `i` declares only names no earlier flag declared |
| FlagList.Trimmed | flag.go:187 | each name trimmed of spaces at both ends |
| FlagList.VisitedForms | flag.go:186-194 | the trimmed names found visited, in order, no more than there are names |
| FlagList.CopyTargetsGrow | flag.go:198-203 | the names a prefix of the flags copies to are among those of the whole list |
| FlagList.RendersItself | flag.go:171 | every rendering a cell can produce is among those the copy walk admits |
| FlagList.CopyFlag | flag.go:166-173 | sets the name from the source cell's rendering, ignoring the error; between cells of one standard kind the copy succeeds and carries the value over |
| FlagList.FindVisitedForm | flag.go:186-194 | no visited form: none; one: that form; a second: the two-forms error naming the second, then the first |
| FlagList.VisitedFormsPrefix | flag.go:186-194 | the visited forms of a prefix of the names start those of all of them |
| FlagList.TwoVisitedPositions | flag.go:186-191 | two visited forms exactly when two positions hold visited names |
| FlagList.OneVisitedPosition | flag.go:186-195 | a visited form exactly when some position holds a visited name |
| FlagList.NoTwoForms | flag.go:181-191 | `normalizeFlags` reports no error exactly when every flag has a single name or fewer than two visited forms |
| FlagList.CopyKeeping | flag.go:198-203 | one copy: a target of the source's standard kind becomes visited and holds the source's value, and every cell of that kind that held it still does; a choice source copied onto a name declared with its own cell ends as `CopyOntoOwnCell` states |
| FlagList.CopyHolding | flag.go:198-203 | one copy between standard cells: the target of the source's kind becomes visited and holds the source's value, and no cell of that kind that held it loses it |
| FlagList.Redecoded | flag_choice.go:228-233 | a registered value a choice cell holds decodes from its own rendering back to itself |
| FlagList.CopyOntoOwnCell | flag.go:166-173 | a choice cell copied onto a name declared with that cell: the name becomes visited exactly when the cell holds no storage or its rendering, written through a pointer, decodes to a known value; the pointer then holds that value and otherwise keeps its own; an undeclared name changes nothing |
| FlagList.CopyNext | flag.go:199-202 | one turn of the copy loop: a visited name is skipped; an unvisited one is copied to, with the outcome `CopyKeeping` states |
| FlagList.CopySiblings | flag.go:198-203 | only unvisited sibling names can become visited and only their cells change; each target of the source's standard kind becomes visited and ends holding the source's value as it was before the walk; when the source is a choice cell that every declared target shares, all declared targets become visited if the cell copies onto itself and none otherwise, and the cell ends holding what its rendering decodes to through a pointer, its old value otherwise (`ChoiceCopied`) |
| FlagList.CopyFromForm | flag.go:195-203 | the copy half of one turn, from the one visited form: the same outcome as `CopySiblings`, over the flag's copy targets |
| FlagList.NormalizeFlag | flag.go:180-204 | single-name flags skipped; two visited forms are the error; with one visited form only its copy targets can become visited and only their cells change, and those of the form's standard kind do become visited |
| FlagList.NormalizeFlags | flag.go:175-206 | the first flag's two-forms error, judged against the names visited before the walk; only copy targets become visited, and those of the visited form's standard kind do |
| FlagList.HasFlag | flag.go:496-504 | true exactly when the very flag is in the list |
| Contexts.App.constructor | context.go:15 | an app with its flags |
| Contexts.Command.constructor | context.go:33 | a command with its flags |
| Contexts.Get | context.go:127 | `Get()` keeps the cell's kind and returns the stored value; a choice cell returns itself |
| Contexts.AnyFlagClaims | context.go:59-68 | true exactly when some flag set from the environment or a file has the name |
| Contexts.FlagSetLookupWithValueSet | context.go:155-163 | found exactly when the name was visited, and then its declared entry |
| Contexts.FirstDeclaring | context.go:145-153 | the nearest scope from a position whose flag set declares the name, none before it |
| Contexts.FirstVisited | context.go:123-132 | the nearest scope from a position whose flag set visited the name, none before it |
| Contexts.DeclaringShift | context.go:146 | the nearest declaring scope of a parent's lineage is that of the child's lineage from the parent on |
| Contexts.VisitedStep | context.go:124-129 | one turn of the `Value` loop: the nearest declaring scope answers when it visited the name, otherwise the search moves on |
| Contexts.ScopeIsSet | context.go:54-72 | one scope: nothing without a command; otherwise the command's set flags and the visited names |
| Contexts.LineageIsSet | context.go:54-72 | the lineage loop finds the name exactly when some scope reports it |
| Contexts.AnyFormSetSome | context.go:172-180 | a required flag is present exactly when one of its names, trimmed, is set |
| Contexts.Missing | context.go:165-186 | at most one name per flag |
| Contexts.MissingSound | context.go:165-186 | every reported name belongs to a required flag with no name set, and is its last name longer than one character |
| Contexts.MissingComplete | context.go:165-186 | every required flag with no name set and some name longer than one character is reported |
| Contexts.TrimmedParts | context.go:197-201 | each comma-part trimmed of white space |
| Contexts.Longest | context.go:198-205 | the longest part, earliest among equals |
| Contexts.VisitFlagName | context.go:195-211 | appends the longest trimmed comma-part, earliest on ties, and appends nothing exactly when every part trims to nothing |
| Contexts.ReportedName | context.go:172-176 | the last name longer than one character; "" exactly when every name has at most one |
| Contexts.Context.Chain | context.go:112-120 | the lineage has depth+1 entries and starts with the context itself |
| Contexts.Context.constructor | context.go:23-40 | a fresh empty command; `shellComplete` inherited; a parent without a flag set is given an empty one, and nothing else of the parent changes |
| Contexts.Context.ChainLinks | context.go:115 | consecutive lineage entries are child and parent, the last is the root, and each entry's lineage is the rest |
| Contexts.Context.ChainSuffix | context.go:146 | the context at position `i` has the rest of the lineage as its own |
| Contexts.Context.Lineage | context.go:112-120 | the loop following parent links returns the lineage, child to root |
| Contexts.Context.Set | context.go:48-50 | the flag set's `Set` on this context's own set, errors included |
| Contexts.Context.LookupFlagSet | context.go:145-153 | the flag set of the nearest scope that declares the name, nil when none does |
| Contexts.Context.ResolvedMeaning | context.go:123-132 | a name resolves to nothing exactly when no scope visited it, and otherwise to the entry of a scope that visited it with no nearer scope doing so |
| Contexts.Context.Shadowing | context.go:123-132 | a name the child visited resolves in the child, whatever its ancestors hold |
| Contexts.Context.Inherited | context.go:123-132 | a name the child did not visit resolves as in the parent |
| Contexts.Context.Resolve | context.go:124-131 | the nested lineage loops find the entry of the nearest scope that visited the name |
| Contexts.Context.ResolveStep | context.go:125-129 | one turn: found means the first visiting scope from `i`; not found means it lies beyond `i` |
| Contexts.Context.Value | context.go:123-132 | the getter value of the resolved entry, nil when no scope visited the name |
| Contexts.Context.IsSet | context.go:53-91 | true exactly when a lineage scope with a command has a set flag with the name among that command's flags, or a lineage scope with a command visited it, or the app has such a flag or this context's set visited it |
| Contexts.Context.AppIsSet | context.go:74-88 | the app part: its set flags' names and this context's visited names |
| Contexts.Context.CheckRequiredFlags | context.go:165-193 | nil exactly when nothing is missing; otherwise one error listing every missing name in flag order |
| Contexts.Context.RequiredNames | context.go:172-180 | the loop over one flag's names: the last name longer than one character, and whether some trimmed name is set |
| Contexts.Context.TrimmedIsSet | context.go:177 | `IsSet` of the trimmed name, leaving the reported names unchanged |
| Contexts.Context.Bool | flag_bool.go:96-105 | false when no scope visited the name; otherwise `lookupBool` of the entry, the stored value for a boolean cell |
| Contexts.Context.Uint64 | flag_uint64.go:94-103 | 0 when no scope visited the name; otherwise `lookupUint64` of the entry, the stored value for an unsigned cell |
| Contexts.Context.Path | flag_path.go:83-92 | "" when no scope visited the name; otherwise `lookupPath` of the entry, the stored string unchanged for a string cell |
| Contexts.Context.Choice | flag_choice.go:175-181 | nil when no scope visited the name or the entry is not a choice cell; otherwise the cell's value |

## Left out

- Help layout is not modelled: `FlagStringer`, `wrap`, `stringifyFlag`, `flagValue`, `flagStringSliceField` and the slice stringifiers. They are presentation logic built on reflection over struct fields, and the slice flag types are not part of this model.
- `FlagsByName` is not modelled; it calls `lexicographicLess`, which is not part of this model.
- Visibility is not modelled: `visibleFlags`, `IsVisible`, `Hidden`. Neither are the display-only fields and accessors `GetUsage`, `DefaultText`, `HideDefaultValue`, `Placeholder` and the flags' `String()`.
- `NewStringerChoice` is not modelled; it depends on `fmt.Stringer` values.
- `LocalFlagNames` and `FlagNames` are not modelled. They run the visitor over `Visit`; the visitor itself is `VisitFlagName`, which returns the extended slice instead of appending through a pointer.
- `Args`, `NArg` and `NumFlags` are not modelled. Neither are the embedded `context.Context` that `NewContext` copies, nor the global hooks (`BashCompletionFlag`, `VersionFlag`, `HelpFlag`, `FlagNamePrefixer`).
- Reading the environment and files, and `runtime.GOOS`, are inputs (`env`, `files`, `windows`).
- The standard flag set is reduced to what the engine uses. Its name, error-handling mode, output stream, tokenising, `Parse` and `NFlag` are not modelled. Its panic on a redefined name is a precondition (`FreshNames`, `Distinct(AllNames(...))`). The panic can only come from a declaration, so the precondition covers only a flag that goes on to declare its names: a flag that applies cleanly, or a choice flag whose destination is a non-nil pointer or absent. A flag that fails first registers nothing and its names may clash.
- Go's reflection panics are preconditions and are not given an invented outcome:
  - `Set` of a known token on a choice cell over a plain non-pointer value (an unknown token is `errParse`, and is modelled);
  - `GetValue` with a nil `Choice`.
- The model's choice values hold no pointers, so a pointer default that `Apply` would write into a choice destination is excluded. Go panics there unless the destination points to an interface.
- Choice values are untyped: `Any` carries no Go type. So a destination or a pointer default whose element type cannot hold the decoded value is written in the model, where Go's reflection panics (flag_choice.go:204, flag_choice.go:263-266).
- A nil flag set in a lineage scope makes `lookupFlagSet`, and so `Value` and the typed accessors, panic in Go (context.go:145-153). The model demands a flag set in every scope (`Ready`).
- Contexts.Context.IsSet: demands `Ready` too, although Go reads the flag set only of scopes that have a command (context.go:55-57, context.go:69), and this context's own set in the app part. A command-less scope with a nil set, which Go skips, is excluded.
- Lengths count code points, while Go's `len` counts bytes. They agree on ASCII names, which is what the length tests in `prefixFor`, `checkRequiredFlags` and the visitor compare.
- `copyFlag`'s `Serializer` branch is not modelled: no cell kind of this model implements `Serializer`.
- `Visit` walks names in sorted order in Go; the model walks them in any order. Only `flagSetLookupWithValueSet` walks them, and it matches the one equal name.
- In the Bool, Uint64 and Path `Apply`, the destination test is made once instead of per name. It cannot change between names, so the outcome is the same.
- NormalizeFlags: the settability demanded of copy targets (`TargetsSettable`) is judged over every rendering the visited form's cell can produce (`MayRender`), not its actual one, because the copies change cells while the walk runs. It only matters for a known token copied into a choice cell over a plain value, which panics in Go.
- CopySiblings: the same conservative settability over `MayRender`, for the same reason.
- NormalizeFlag: the same conservative settability over `MayRender`, for the same reason.
- FlagList.NormalizeFlags: states which names become visited, not the values copied into them or the outcome for a choice flag. Both are stated for one flag by `CopyFromForm` and `CopySiblings`. Across the walk, a cell shared by two flags would need aliasing between flags to be tracked.
- FlagList.NormalizeFlag: states the error and which names become visited. The values copied and the choice outcome for that flag are stated by `CopyFromForm`, which it calls. Repeating them here would mean carrying the cells' old values across the form search.
- FlagList.FlagSetFor: states which names are declared, when it fails and each applied flag's `Value` and `IsSet()` (`Took`). It does not state the cell behind each name or what the destination holds. Each kind's `Apply` states both.
- FlagList.ApplyFlag: forwards the kind's error, names, `Value` and `IsSet()`, not the cells it declares or what the destination holds. Each kind's `Apply` states both.
