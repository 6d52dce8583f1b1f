/** The name, value-source and help-text helpers of flag.go. The operating system is
    passed in: `env` maps each set environment variable to its value, `files` maps
    each path that can be read in full to its contents. */
module FlagHelpers {
  import opened Wrappers
  import opened Text

  // ---------------------------------------------------------------- names

  /** The name forms `flagNames` produces: `Name` first, then the aliases, each cut
      at its first comma or space. */
  function NameForms(name: string, aliases: seq<string>): seq<string> {
    [CutAtCommaOrSpace(name)] + seq(|aliases|, i requires 0 <= i < |aliases| => CutAtCommaOrSpace(aliases[i]))
  }

  /** `flagNames`: one pass over `append([]string{name}, aliases...)`. */
  method FlagNames(name: string, aliases: seq<string>) returns (ret: seq<string>)
    ensures ret == NameForms(name, aliases)
  {
    var parts := [name] + aliases;
    ret := [];
    for i := 0 to |parts|
      invariant |ret| == i
      invariant forall k :: 0 <= k < i ==> ret[k] == CutAtCommaOrSpace(parts[k])
    {
      ret := ret + [CutAtCommaOrSpace(parts[i])];
    }
  }

  /** One entry per input, in order, `Name` first; no entry holds a comma or a space. */
  lemma NameFormsShape(name: string, aliases: seq<string>)
    ensures |NameForms(name, aliases)| == 1 + |aliases|
    ensures NameForms(name, aliases)[0] == CutAtCommaOrSpace(name)
    ensures forall i :: 0 <= i < |aliases| ==> NameForms(name, aliases)[i + 1] == CutAtCommaOrSpace(aliases[i])
    ensures forall i, k :: 0 <= i < |NameForms(name, aliases)| && 0 <= k < |NameForms(name, aliases)[i]| ==>
              !IsCommaOrSpace(NameForms(name, aliases)[i][k])
  {
  }

  /** An input on a single line keeps exactly its text before the first comma or space. */
  lemma NameFormsSingleLine(name: string, aliases: seq<string>)
    ensures '\n' !in name ==> NameForms(name, aliases)[0] == name[..FirstCommaOrSpace(name)]
    ensures forall i :: 0 <= i < |aliases| && '\n' !in aliases[i] ==>
              NameForms(name, aliases)[i + 1] == aliases[i][..FirstCommaOrSpace(aliases[i])]
  {
    NameFormsShape(name, aliases);
    if '\n' !in name {
      CutSingleLine(name);
    }
    forall i | 0 <= i < |aliases| && '\n' !in aliases[i]
      ensures NameForms(name, aliases)[i + 1] == aliases[i][..FirstCommaOrSpace(aliases[i])]
    {
      CutSingleLine(aliases[i]);
    }
  }

  /** Cutting the name forms again changes nothing. */
  lemma NameFormsIdempotent(name: string, aliases: seq<string>)
    ensures var forms := NameForms(name, aliases);
            NameForms(forms[0], forms[1..]) == forms
  {
    var forms := NameForms(name, aliases);
    CutIdempotent(name);
    forall i | 0 <= i < |aliases| ensures CutAtCommaOrSpace(forms[1..][i]) == forms[1..][i] {
      CutIdempotent(aliases[i]);
    }
  }

  /** The names are pairwise distinct and none is declared yet: registering them
      one by one does not hit the standard flag set's redefinition panic. */
  ghost predicate FreshNames<E>(names: seq<string>, declared: map<string, E>) {
    && (forall i, j :: 0 <= i < j < |names| ==> names[i] != names[j])
    && (forall n :: n in names ==> n !in declared)
  }

  // ---------------------------------------------------------------- value sources

  /** Whether `syscall.Getenv(name)` finds the variable: no variable has the empty name. */
  predicate EnvHas(env: map<string, string>, name: string) {
    name != "" && name in env
  }

  /** Whether `ioutil.ReadFile(path)` succeeds: the empty path never names a file. */
  predicate CanRead(files: map<string, string>, path: string) {
    path != "" && path in files
  }

  /** The value of the first listed environment variable that is set, names trimmed. */
  function FirstEnv(env: map<string, string>, envVars: seq<string>): Option<string> {
    if envVars == [] then None
    else if EnvHas(env, TrimSpace(envVars[0])) then Some(env[TrimSpace(envVars[0])])
    else FirstEnv(env, envVars[1..])
  }

  /** The contents of the first listed path that can be read. */
  function FirstFile(files: map<string, string>, paths: seq<string>): Option<string> {
    if paths == [] then None
    else if CanRead(files, paths[0]) then Some(files[paths[0]])
    else FirstFile(files, paths[1..])
  }

  /** The value `flagFromEnvOrFile` finds: environment first, then the comma-separated paths. */
  function EnvOrFile(env: map<string, string>, files: map<string, string>, envVars: seq<string>, filePath: string): Option<string> {
    match FirstEnv(env, envVars)
    case Some(v) => Some(v)
    case None => FirstFile(files, Split(filePath, ','))
  }

  /** `flagFromEnvOrFile`: two loops with early returns. */
  method FlagFromEnvOrFile(env: map<string, string>, files: map<string, string>, envVars: seq<string>, filePath: string)
    returns (val: string, ok: bool)
    ensures ok == EnvOrFile(env, files, envVars, filePath).Some?
    ensures val == EnvOrFile(env, files, envVars, filePath).GetOr("")
  {
    var i := 0;
    while i < |envVars|
      invariant i <= |envVars|
      invariant FirstEnv(env, envVars) == FirstEnv(env, envVars[i..])
    {
      var envVar := TrimSpace(envVars[i]);
      if EnvHas(env, envVar) {
        return env[envVar], true;
      }
      assert envVars[i..][1..] == envVars[i + 1..];
      i := i + 1;
    }
    var paths := Split(filePath, ',');
    assert EnvOrFile(env, files, envVars, filePath) == FirstFile(files, paths);
    var j := 0;
    while j < |paths|
      invariant j <= |paths|
      invariant FirstFile(files, paths) == FirstFile(files, paths[j..])
    {
      if CanRead(files, paths[j]) {
        return files[paths[j]], true;
      }
      assert paths[j..][1..] == paths[j + 1..];
      j := j + 1;
    }
    return "", false;
  }

  /** The first set variable wins, even with an empty value, and the files are not consulted. */
  lemma {:induction false} EnvWins(env: map<string, string>, files: map<string, string>, envVars: seq<string>, filePath: string, k: nat)
    requires k < |envVars| && EnvHas(env, TrimSpace(envVars[k]))
    requires forall j :: 0 <= j < k ==> !EnvHas(env, TrimSpace(envVars[j]))
    ensures EnvOrFile(env, files, envVars, filePath) == Some(env[TrimSpace(envVars[k])])
  {
    FirstEnvAt(env, envVars, k);
  }

  lemma {:induction false} FirstEnvAt(env: map<string, string>, envVars: seq<string>, k: nat)
    requires k < |envVars| && EnvHas(env, TrimSpace(envVars[k]))
    requires forall j :: 0 <= j < k ==> !EnvHas(env, TrimSpace(envVars[j]))
    ensures FirstEnv(env, envVars) == Some(env[TrimSpace(envVars[k])])
  {
    if k > 0 {
      FirstEnvAt(env, envVars[1..], k - 1);
    }
  }

  /** With no variable set, the untrimmed contents of the first readable path win,
      and nothing is found when no path can be read. */
  lemma {:induction false} FileFallback(env: map<string, string>, files: map<string, string>, envVars: seq<string>, filePath: string)
    requires forall j :: 0 <= j < |envVars| ==> !EnvHas(env, TrimSpace(envVars[j]))
    ensures var paths := Split(filePath, ',');
            && ((forall j :: 0 <= j < |paths| ==> !CanRead(files, paths[j])) ==> EnvOrFile(env, files, envVars, filePath) == None)
            && (forall k :: 0 <= k < |paths| && CanRead(files, paths[k]) && (forall j :: 0 <= j < k ==> !CanRead(files, paths[j])) ==>
                  EnvOrFile(env, files, envVars, filePath) == Some(files[paths[k]]))
  {
    NoEnv(env, envVars);
    var paths := Split(filePath, ',');
    assert EnvOrFile(env, files, envVars, filePath) == FirstFile(files, paths);
    assert (forall j :: 0 <= j < |paths| ==> !CanRead(files, paths[j])) ==> EnvOrFile(env, files, envVars, filePath) == None by {
      if forall j :: 0 <= j < |paths| ==> !CanRead(files, paths[j]) {
        NoFile(files, paths);
      }
    }
    forall k | 0 <= k < |paths| && CanRead(files, paths[k]) && (forall j :: 0 <= j < k ==> !CanRead(files, paths[j]))
      ensures FirstFile(files, paths) == Some(files[paths[k]])
    {
      FirstFileAt(files, paths, k);
    }
  }

  lemma {:induction false} NoEnv(env: map<string, string>, envVars: seq<string>)
    requires forall j :: 0 <= j < |envVars| ==> !EnvHas(env, TrimSpace(envVars[j]))
    ensures FirstEnv(env, envVars) == None
  {
    if envVars != [] {
      NoEnv(env, envVars[1..]);
    }
  }

  lemma {:induction false} NoFile(files: map<string, string>, paths: seq<string>)
    requires forall j :: 0 <= j < |paths| ==> !CanRead(files, paths[j])
    ensures FirstFile(files, paths) == None
  {
    if paths != [] {
      NoFile(files, paths[1..]);
    }
  }

  lemma {:induction false} FirstFileAt(files: map<string, string>, paths: seq<string>, k: nat)
    requires k < |paths| && CanRead(files, paths[k])
    requires forall j :: 0 <= j < k ==> !CanRead(files, paths[j])
    ensures FirstFile(files, paths) == Some(files[paths[k]])
  {
    if k > 0 {
      FirstFileAt(files, paths[1..], k - 1);
    }
  }

  /** A flag without a file path reads no file: the path list splits into one empty
      path, which cannot be read. Likewise a variable name that trims to nothing is
      never found. */
  lemma NoFilePath(env: map<string, string>, files: map<string, string>, envVars: seq<string>)
    ensures EnvOrFile(env, files, envVars, "") == FirstEnv(env, envVars)
    ensures (forall j :: 0 <= j < |envVars| ==> TrimSpace(envVars[j]) == "") ==> EnvOrFile(env, files, envVars, "") == None
  {
    assert Split("", ',') == [""];
    assert FirstFile(files, [""]) == FirstFile(files, []) == None;
    if forall j :: 0 <= j < |envVars| ==> TrimSpace(envVars[j]) == "" {
      NoEnv(env, envVars);
    }
  }

  // ---------------------------------------------------------------- help text

  /** The first backtick at or after `from`, or `|s|` when there is none. */
  function NextBacktick(s: string, from: nat): (k: nat)
    requires from <= |s|
    ensures from <= k <= |s|
    ensures forall i :: from <= i < k ==> s[i] != '`'
    ensures k < |s| ==> s[k] == '`'
    decreases |s| - from
  {
    if from == |s| || s[from] == '`' then from else NextBacktick(s, from + 1)
  }

  /** `unquoteUsage`: the text between the first two backticks is the placeholder, and
      the usage loses those two backticks; without a pair the usage comes back unchanged. */
  method UnquoteUsage(usage: string) returns (name: string, rest: string)
    ensures var i := NextBacktick(usage, 0);
            var j := if i < |usage| then NextBacktick(usage, i + 1) else |usage|;
            if j < |usage| then
              && name == usage[i + 1..j]
              && rest == usage[..i] + name + usage[j + 1..]
              && |rest| == |usage| - 2
              && '`' !in name
            else
              name == "" && rest == usage
  {
    var i := 0;
    while i < |usage|
      invariant i <= |usage|
      invariant forall k :: 0 <= k < i ==> usage[k] != '`'
    {
      if usage[i] == '`' {
        var j := i + 1;
        while j < |usage|
          invariant i + 1 <= j <= |usage|
          invariant forall k :: i + 1 <= k < j ==> usage[k] != '`'
        {
          if usage[j] == '`' {
            name := usage[i + 1..j];
            rest := usage[..i] + name + usage[j + 1..];
            assert NextBacktick(usage, 0) == i by { BacktickAt(usage, 0, i); }
            assert NextBacktick(usage, i + 1) == j by { BacktickAt(usage, i + 1, j); }
            return;
          }
          j := j + 1;
        }
        assert NextBacktick(usage, 0) == i by { BacktickAt(usage, 0, i); }
        assert NextBacktick(usage, i + 1) == |usage| by { BacktickAt(usage, i + 1, |usage|); }
        break;
      }
      i := i + 1;
    }
    if i == |usage| {
      BacktickAt(usage, 0, |usage|);
    }
    return "", usage;
  }

  lemma {:induction false} BacktickAt(s: string, from: nat, k: nat)
    requires from <= k <= |s|
    requires forall i :: from <= i < k ==> s[i] != '`'
    requires k < |s| ==> s[k] == '`'
    ensures NextBacktick(s, from) == k
    decreases k - from
  {
    if from < k {
      BacktickAt(s, from + 1, k);
    }
  }

  /** `prefixFor`: one dash exactly for one-character names, two otherwise. */
  function PrefixFor(name: string): (prefix: string)
    ensures prefix == "-" || prefix == "--"
    ensures |prefix| == 1 <==> |name| == 1
  {
    if |name| == 1 then "-" else "--"
  }

  /** What `prefixedNames` adds for entry `i`: nothing for an empty name, otherwise
      the dashes, the name, the placeholder if any, and ", " unless `i` is the last index. */
  function PrefixedPiece(names: seq<string>, i: nat, placeholder: string): string
    requires i < |names|
  {
    if names[i] == "" then ""
    else
      PrefixFor(names[i]) + names[i]
      + (if placeholder != "" then " " + placeholder else "")
      + (if i < |names| - 1 then ", " else "")
  }

  /** The pieces of the first `n` entries, concatenated. */
  function PrefixedUpTo(names: seq<string>, placeholder: string, n: nat): string
    requires n <= |names|
  {
    if n == 0 then "" else PrefixedUpTo(names, placeholder, n - 1) + PrefixedPiece(names, n - 1, placeholder)
  }

  /** `prefixedNames`. */
  method PrefixedNames(names: seq<string>, placeholder: string) returns (prefixed: string)
    ensures prefixed == PrefixedUpTo(names, placeholder, |names|)
  {
    prefixed := "";
    for i := 0 to |names|
      invariant prefixed == PrefixedUpTo(names, placeholder, i)
    {
      if names[i] == "" {
        continue;
      }
      var piece := PrefixFor(names[i]) + names[i];
      if placeholder != "" {
        piece := piece + (" " + placeholder);
      }
      if i < |names| - 1 {
        piece := piece + ", ";
      }
      assert piece == PrefixedPiece(names, i, placeholder);
      prefixed := prefixed + piece;
    }
  }

  /** Empty names are skipped: with every name empty the text is empty. */
  lemma {:induction false} PrefixedAllEmpty(names: seq<string>, placeholder: string, n: nat)
    requires n <= |names| && forall i :: 0 <= i < |names| ==> names[i] == ""
    ensures PrefixedUpTo(names, placeholder, n) == ""
  {
    if n > 0 {
      PrefixedAllEmpty(names, placeholder, n - 1);
    }
  }

  /** The separator is decided by position, not by what follows: when the last name is
      empty the text ends with a dangling ", " after the name before it. */
  lemma PrefixedDanglingSeparator(names: seq<string>, placeholder: string)
    requires |names| >= 2 && names[|names| - 1] == "" && names[|names| - 2] != ""
    ensures var r := PrefixedUpTo(names, placeholder, |names|);
            |r| >= 2 && r[|r| - 2..] == ", "
  {
  }

  /** `withEnvHint`, with `runtime.GOOS == "windows"` as the parameter `windows`: the
      variables in `[$A, $B]` or `[%A%, %B%]` form after the text, nothing for an empty list. */
  function WithEnvHint(envVars: seq<string>, str: string, windows: bool): (r: string)
    ensures |envVars| == 0 ==> r == str
    ensures |r| >= |str| && r[..|str|] == str
    ensures |envVars| > 0 ==> |r| > |str| + 3 && r[|str|..|str| + 2] == " [" && r[|r| - 1] == ']'
  {
    var envText :=
      if |envVars| > 0 then
        var prefix := if windows then "%" else "$";
        var suffix := if windows then "%" else "";
        var sep := if windows then "%, %" else ", $";
        " [" + prefix + Join(envVars, sep) + suffix + "]"
      else "";
    str + envText
  }

  /** `withFileHint`: the path in brackets after the text, nothing for an empty path. */
  function WithFileHint(filePath: string, str: string): (r: string)
    ensures filePath == "" <==> r == str
    ensures filePath != "" ==> |r| == |str| + |filePath| + 3 && r[..|str|] == str && r[|str| + 2..|r| - 1] == filePath
  {
    var fileText := if filePath != "" then " [" + filePath + "]" else "";
    str + fileText
  }

  /** `formatDefault`: the format text wrapped as " (default: ...)". */
  function FormatDefault(format: string): (r: string)
    ensures |r| == |format| + 12
    ensures r[11..|r| - 1] == format
  {
    " (default: " + format + ")"
  }

  /** `quoteStrings`: each string between double quotes, in a slice of the same length. */
  method QuoteStrings(ss: seq<string>) returns (out: seq<string>)
    ensures |out| == |ss|
    ensures forall i :: 0 <= i < |ss| ==> out[i] == "\"" + ss[i] + "\""
  {
    var a := new string[|ss|];
    for i := 0 to |ss|
      invariant forall k :: 0 <= k < i ==> a[k] == "\"" + ss[k] + "\""
    {
      a[i] := "\"" + ss[i] + "\"";
    }
    out := a[..];
  }
}
