/** The `Flag` interface over the kinds of this model, and the flag.go operations that
    work on a list of flags: building a flag set (`flagSet`), propagating a value given
    under one name to the flag's other names (`normalizeFlags`, `copyFlag`) and
    membership (`hasFlag`). */
module FlagList {
  import opened Wrappers
  import opened Errors
  import opened Text
  import opened Choices
  import opened FlagSets
  import opened FlagHelpers
  import opened FlagBool
  import opened FlagUint64
  import opened FlagPath
  import opened FlagChoice

  /** A flag's `Value` field, tagged with its kind. */
  datatype Setting = BoolSetting(b: bool) | Uint64Setting(u: Uint64) | PathSetting(s: string) | ChoiceSetting(v: Iface)

  /** A `Flag` value: an interface holding a pointer to one of the kinds. */
  datatype Flag = BoolF(b: BoolFlag) | Uint64F(u: Uint64Flag) | PathF(p: PathFlag) | ChoiceF(c: ChoiceFlag)
  {
    /** `Names()`; every kind has at least one. */
    function Names(): (r: seq<string>)
      ensures |r| >= 1
    {
      match this
      case BoolF(f) => NameFormsShape(f.name, f.aliases); f.Names()
      case Uint64F(f) => NameFormsShape(f.name, f.aliases); f.Names()
      case PathF(f) => NameFormsShape(f.name, f.aliases); f.Names()
      case ChoiceF(f) => f.Names()
    }

    /** `IsSet()`: whether the environment or a file supplied the value. The call
        goes to the kind the interface holds (`IsSetDispatch`). */
    function IsSet(): bool
      reads Obj()
    {
      match this
      case BoolF(f) => f.hasBeenSet
      case Uint64F(f) => f.hasBeenSet
      case PathF(f) => f.hasBeenSet
      case ChoiceF(f) => f.hasBeenSet
    }

    /** `IsSet()` through the interface is the `IsSet()` of the kind it holds. */
    lemma IsSetDispatch()
      ensures BoolF? ==> (IsSet() <==> b.IsSet())
      ensures Uint64F? ==> (IsSet() <==> u.IsSet())
      ensures PathF? ==> (IsSet() <==> p.IsSet())
      ensures ChoiceF? ==> (IsSet() <==> c.IsSet())
    {
    }

    /** `IsRequired()`: every kind here implements `RequiredFlag`, and the call goes
        to the kind the interface holds. */
    function IsRequired(): (r: bool)
      ensures BoolF? ==> r == b.required
      ensures Uint64F? ==> r == u.required
      ensures PathF? ==> r == p.required
      ensures ChoiceF? ==> r == c.required
    {
      match this
      case BoolF(f) => f.required
      case Uint64F(f) => f.required
      case PathF(f) => f.required
      case ChoiceF(f) => f.required
    }

    /** The `Value` field of the kind the interface holds. */
    function Setting(): Setting
      reads Obj()
    {
      match this
      case BoolF(f) => BoolSetting(f.value)
      case Uint64F(f) => Uint64Setting(f.value)
      case PathF(f) => PathSetting(f.value)
      case ChoiceF(f) => ChoiceSetting(f.value)
    }

    /** The value `Apply` takes from the environment or a file before it declares any
        name: a non-empty source that parses as a boolean or unsigned number, any
        source for a path, a known token for a choice flag with a registry. `None`
        when it takes nothing. */
    function Taken(env: map<string, string>, files: map<string, string>): Option<Setting> {
      match this
      case BoolF(f) =>
        var src := f.Source(env, files);
        if src.Some? && src.value != "" && ParseBool(src.value).Some? then Some(BoolSetting(ParseBool(src.value).value)) else None
      case Uint64F(f) =>
        var src := f.Source(env, files);
        if src.Some? && src.value != "" && ParseUint64(src.value).Num? then Some(Uint64Setting(ParseUint64(src.value).n)) else None
      case PathF(f) =>
        var src := f.Source(env, files);
        if src.Some? then Some(PathSetting(src.value)) else None
      case ChoiceF(f) =>
        var src := f.Source(env, files);
        if f.Accepts(env, files) && src.Some? then Some(ChoiceSetting(Plain(FromString(f.choice.value, src.value)))) else None
    }

    /** The flag object the interface points at. */
    function Obj(): object {
      match this
      case BoolF(f) => f
      case Uint64F(f) => f
      case PathF(f) => f
      case ChoiceF(f) => f
    }

    /** What `Apply` may write: the flag and its destination. */
    function Footprint(): set<object> {
      match this
      case BoolF(f) => {f as object} + (if f.destination != null then {f.destination as object} else {})
      case Uint64F(f) => {f as object} + (if f.destination != null then {f.destination as object} else {})
      case PathF(f) => {f as object} + (if f.destination != null then {f.destination as object} else {})
      case ChoiceF(f) => {f as object} + (if f.destination.Ptr? then {f.destination.p as object} else {})
    }

    /** Whether `Apply` stays within what the model can express: a choice flag with a
        registry and a destination pointer never writes a pointer default into it. */
    predicate CanApply(env: map<string, string>, files: map<string, string>)
      reads Obj()
    {
      ChoiceF? ==> (c.choice.Some? && c.destination.Ptr? && !c.value.Plain? ==> c.Source(env, files).Some?)
    }

    /** Whether `Apply` succeeds: the kind's value checks pass and, for a choice flag,
        the destination is absent or a non-nil pointer. */
    predicate AppliesCleanly(env: map<string, string>, files: map<string, string>) {
      match this
      case BoolF(f) => !f.Rejects(env, files)
      case Uint64F(f) => !f.Rejects(env, files)
      case PathF(_) => true
      case ChoiceF(f) => f.Accepts(env, files) && (f.destination.Ptr? || f.destination == Plain(Nil))
    }

    /** The error `Apply` returns: an unparsable boolean or unsigned source value; for
        a choice flag a missing registry, an unknown token, then a destination that is
        not a non-nil pointer. `None` exactly when the flag applies cleanly. */
    function ApplyError(env: map<string, string>, files: map<string, string>): (r: Option<Error>)
      ensures r.None? <==> AppliesCleanly(env, files)
    {
      match this
      case BoolF(f) => if f.Rejects(env, files) then Some(BadBool(f.Source(env, files).value, f.name)) else None
      case Uint64F(f) => if f.Rejects(env, files) then Some(BadUint64(f.Source(env, files).value, f.name)) else None
      case PathF(_) => None
      case ChoiceF(f) =>
        if f.choice.None? then Some(ChoiceMissing)
        else if !f.Accepts(env, files) then Some(Parse)
        else if f.destination.NilPtr? then Some(SwapFailed(DestinationNil))
        else if f.destination.Plain? && f.destination != Plain(Nil) then Some(SwapFailed(DestinationNotPointer))
        else None
    }
  }

  /** What `Apply` leaves in the flag itself: the value it took, with `IsSet()` true,
      or `Value` and `IsSet()` as they were when it took nothing. */
  twostate predicate Took(f: Flag, env: map<string, string>, files: map<string, string>)
    reads f.Obj()
  {
    match f.Taken(env, files)
    case Some(v) => f.Setting() == v && f.IsSet()
    case None => f.Setting() == old(f.Setting()) && f.IsSet() == old(f.IsSet())
  }

  /** `f.Apply(set)` through the interface: it returns the flag's `ApplyError`, so it
      succeeds exactly when the flag's checks pass; it declares every name of the flag
      on success and nothing on failure, never marks a name visited, and leaves the
      flag's `Value` and `IsSet()` as the kind's `Apply` does (`Took`). */
  method ApplyFlag(f: Flag, fs: FlagSet, env: map<string, string>, files: map<string, string>) returns (err: Option<Error>)
    requires fs.Valid() && f.CanApply(env, files)
    requires f.AppliesCleanly(env, files) ==> FreshNames(f.Names(), fs.formal)
    modifies f.Footprint(), fs
    ensures fs.Valid() && fs.actual == old(fs.actual)
    ensures err == f.ApplyError(env, files)
    ensures err.None? <==> f.AppliesCleanly(env, files)
    ensures err.Some? ==> fs.formal == old(fs.formal)
    ensures err.None? ==> forall n :: n in fs.formal <==> n in old(fs.formal) || n in f.Names()
    ensures err.None? ==> forall n :: n in old(fs.formal) ==> fs.formal[n] == old(fs.formal)[n]
    ensures Took(f, env, files)
  {
    match f {
      case BoolF(b) => err := b.Apply(fs, env, files);
      case Uint64F(u) => err := u.Apply(fs, env, files);
      case PathF(p) => err := p.Apply(fs, env, files);
      case ChoiceF(c) => err := c.Apply(fs, env, files);
    }
    IndexSet(f.Names());
  }

  /** The names picked out by their positions are the names in the list. */
  lemma IndexSet(names: seq<string>)
    ensures forall n :: n in (set k | 0 <= k < |names| :: names[k]) <==> n in names
  {
    forall n | n in names ensures n in (set k | 0 <= k < |names| :: names[k]) {
      var k :| 0 <= k < |names| && names[k] == n;
    }
  }

  /** Every name of every flag, in list order. */
  function AllNames(flags: seq<Flag>): seq<string> {
    if flags == [] then [] else AllNames(flags[..|flags| - 1]) + flags[|flags| - 1].Names()
  }

  /** With all names distinct, the names of flag `i` are distinct and none was
      declared by an earlier flag. */
  lemma {:induction false} NamesOfNext(flags: seq<Flag>, i: nat)
    requires i < |flags| && Distinct(AllNames(flags))
    ensures Distinct(flags[i].Names())
    ensures forall n :: n in flags[i].Names() ==> n !in AllNames(flags[..i])
    ensures AllNames(flags[..i + 1]) == AllNames(flags[..i]) + flags[i].Names()
  {
    var init := flags[..|flags| - 1];
    if i + 1 < |flags| {
      assert init[..i] == flags[..i];
      assert init[..i + 1] == flags[..i + 1];
      DistinctSplit(AllNames(init), flags[|flags| - 1].Names());
      NamesOfNext(init, i);
    } else {
      assert flags[..i + 1] == flags;
      assert flags[..i] == init;
      DistinctSplit(AllNames(init), flags[i].Names());
    }
  }

  /** The names of a prefix of a list with distinct names are distinct. */
  lemma {:induction false} DistinctPrefix(flags: seq<Flag>, j: nat)
    requires j <= |flags| && Distinct(AllNames(flags))
    ensures Distinct(AllNames(flags[..j]))
    decreases |flags|
  {
    if j < |flags| {
      var init := flags[..|flags| - 1];
      DistinctSplit(AllNames(init), flags[|flags| - 1].Names());
      assert init[..j] == flags[..j];
      DistinctPrefix(init, j);
    } else {
      assert flags[..j] == flags;
    }
  }

  /** Distinct names split in two: each part is distinct and they share no name. */
  lemma DistinctSplit(xs: seq<string>, ys: seq<string>)
    requires Distinct(xs + ys)
    ensures Distinct(xs) && Distinct(ys)
    ensures forall n :: n in ys ==> n !in xs
  {
    forall a, b | 0 <= a < b < |xs| ensures xs[a] != xs[b] {
      assert (xs + ys)[a] == xs[a] && (xs + ys)[b] == xs[b];
    }
    forall a, b | 0 <= a < b < |ys| ensures ys[a] != ys[b] {
      assert (xs + ys)[|xs| + a] == ys[a] && (xs + ys)[|xs| + b] == ys[b];
    }
    forall n | n in ys ensures n !in xs {
      var b :| 0 <= b < |ys| && ys[b] == n;
      forall a | 0 <= a < |xs| ensures xs[a] != n {
        assert (xs + ys)[a] == xs[a] && (xs + ys)[|xs| + b] == ys[b];
      }
    }
  }

  /** Applying one flag of the list touches no other flag of it. */
  lemma OthersUntouched(flags: seq<Flag>, i: nat)
    requires i < |flags| && forall a, b :: 0 <= a < b < |flags| ==> flags[a].Obj() != flags[b].Obj()
    ensures forall k :: 0 <= k < |flags| && k != i ==> flags[k].Obj() !in flags[i].Footprint()
  {
    forall k | 0 <= k < |flags| && k != i ensures flags[k].Obj() !in flags[i].Footprint() {
      if k < i {
        assert flags[k].Obj() != flags[i].Obj();
      } else {
        assert flags[i].Obj() != flags[k].Obj();
      }
    }
  }

  /** The flags of an allocated list are allocated, so a call that does not write
      them leaves them unchanged. */
  lemma ObjectsAllocated(flags: seq<Flag>)
    requires allocated(flags)
    ensures forall k :: 0 <= k < |flags| ==> allocated(flags[k].Obj())
  {
    forall k | 0 <= k < |flags|
      ensures allocated(flags[k].Obj())
    {
      assert allocated(flags[k]);
    }
  }

  /** Every object some flag of the list may write. */
  ghost function Footprints(flags: seq<Flag>): set<object> {
    set i, o | 0 <= i < |flags| && o in flags[i].Footprint() :: o
  }

  /** The position of the first flag that does not apply cleanly, or the length of
      the list when every flag does. */
  function FirstFailure(flags: seq<Flag>, env: map<string, string>, files: map<string, string>): (r: nat)
    ensures r <= |flags|
    ensures forall k :: 0 <= k < r ==> flags[k].AppliesCleanly(env, files)
    ensures r < |flags| ==> !flags[r].AppliesCleanly(env, files)
    decreases |flags|
  {
    if flags == [] || !flags[0].AppliesCleanly(env, files) then 0
    else
      var rest := FirstFailure(flags[1..], env, files);
      assert forall k :: 0 < k <= rest ==> flags[k] == flags[1..][k - 1];
      1 + rest
  }

  /** How many flags `flagSet` applies: every flag up to and including the first
      failing one. */
  function Reached(flags: seq<Flag>, env: map<string, string>, files: map<string, string>): nat {
    var k := FirstFailure(flags, env, files);
    if k < |flags| then k + 1 else |flags|
  }

  /** `flagSet`: a fresh set to which the flags are applied in order until one fails;
      that first failing flag's error is returned instead of the set. Redefining a
      name makes the standard set panic, so the names of the flags that apply cleanly,
      all of which come before the first failure, must be distinct; the failing flag
      registers nothing, so its names may clash with theirs. The flags it reaches must
      be distinct objects. Each flag reached ends with the value it took (`Took`). The
      set's own name and output stream are not modelled. */
  method FlagSetFor(flags: seq<Flag>, env: map<string, string>, files: map<string, string>)
    returns (fs: FlagSet?, err: Option<Error>)
    requires Distinct(AllNames(flags[..FirstFailure(flags, env, files)]))
    requires forall i, j :: 0 <= i < j < Reached(flags, env, files) ==> flags[i].Obj() != flags[j].Obj()
    requires forall i :: 0 <= i < Reached(flags, env, files) ==> flags[i].CanApply(env, files)
    modifies Footprints(flags[..Reached(flags, env, files)])
    ensures var k := FirstFailure(flags, env, files);
            err == if k < |flags| then flags[k].ApplyError(env, files) else None
    ensures err.None? <==> forall i :: 0 <= i < |flags| ==> flags[i].AppliesCleanly(env, files)
    ensures err.None? ==> fs != null && fresh(fs) && fs.Valid() && fs.actual == {}
    ensures err.None? ==> forall n :: n in fs.formal <==> n in AllNames(flags)
    ensures err.Some? ==> fs == null
    ensures forall k :: 0 <= k < Reached(flags, env, files) ==> Took(flags[k], env, files)
  {
    ghost var first := FirstFailure(flags, env, files);
    var reached := flags[..Reached(flags, env, files)];
    ReachedShape(flags, env, files);
    ObjectsAllocated(reached);
    var created;
    created, err := ApplyEach(reached, env, files, first);
    if err.Some? {
      return null, err;
    }
    assert reached == flags;
    return created, None;
  }

  /** The flags `flagSet` reaches are those before the first failure, which apply
      cleanly and have distinct names, followed by the failing one if there is one. */
  lemma ReachedShape(flags: seq<Flag>, env: map<string, string>, files: map<string, string>)
    requires Distinct(AllNames(flags[..FirstFailure(flags, env, files)]))
    ensures var first, reached := FirstFailure(flags, env, files), flags[..Reached(flags, env, files)];
            && |reached| - 1 <= first <= |reached| && Distinct(AllNames(reached[..first]))
            && (forall k :: 0 <= k < |reached| ==> reached[k] == flags[k])
            && (forall k :: 0 <= k < first ==> reached[k].AppliesCleanly(env, files))
            && (first < |reached| ==> !reached[first].AppliesCleanly(env, files))
            && (first == |reached| ==> reached == flags)
            && (first == |flags| <==> forall i :: 0 <= i < |flags| ==> flags[i].AppliesCleanly(env, files))
  {
    var first, reached := FirstFailure(flags, env, files), flags[..Reached(flags, env, files)];
    assert reached[..first] == flags[..first];
  }

  /** The loop of `flagSet` over the flags it reaches: every flag before position
      `clean` applies cleanly, the one at `clean`, if any, is the last and fails, and
      the names of the clean ones are distinct. The error is that of the failing
      flag, and every flag ends with the value it took. */
  method ApplyEach(flags: seq<Flag>, env: map<string, string>, files: map<string, string>, ghost clean: nat)
    returns (fs: FlagSet, err: Option<Error>)
    requires |flags| - 1 <= clean <= |flags| && Distinct(AllNames(flags[..clean]))
    requires forall k :: 0 <= k < clean ==> flags[k].AppliesCleanly(env, files)
    requires clean < |flags| ==> !flags[clean].AppliesCleanly(env, files)
    requires forall a, b :: 0 <= a < b < |flags| ==> flags[a].Obj() != flags[b].Obj()
    requires forall k :: 0 <= k < |flags| ==> flags[k].CanApply(env, files)
    requires allocated(flags)
    modifies Footprints(flags)
    ensures fresh(fs) && fs.Valid() && fs.actual == {}
    ensures err == if clean < |flags| then flags[clean].ApplyError(env, files) else None
    ensures err.None? ==> forall n :: n in fs.formal <==> n in AllNames(flags)
    ensures forall k :: 0 <= k < |flags| ==> Took(flags[k], env, files)
  {
    ObjectsAllocated(flags);
    fs := new FlagSet();
    for i := 0 to |flags|
      invariant fresh(fs) && fs.Valid() && fs.actual == {}
      invariant i <= clean
      invariant forall n :: n in fs.formal <==> n in AllNames(flags[..i])
      invariant forall k :: i <= k < |flags| ==> unchanged(flags[k].Obj())
      invariant forall k :: 0 <= k < i ==> Took(flags[k], env, files)
    {
      assert old(flags[i].CanApply(env, files));
      if flags[i].AppliesCleanly(env, files) {
        DistinctWithin(flags, flags, clean, i);
      }
      err := ApplyNext(flags, i, fs, env, files);
      if err.Some? {
        assert i == clean == |flags| - 1;
        return;
      }
      assert i != clean;
    }
    assert flags[..|flags|] == flags;
    err := None;
  }

  /** A prefix of a prefix whose names are distinct has distinct names. */
  lemma DistinctWithin(flags: seq<Flag>, reached: seq<Flag>, m: nat, i: nat)
    requires i < m <= |flags| && i < |reached| <= |flags| && reached == flags[..|reached|]
    requires Distinct(AllNames(flags[..m]))
    ensures Distinct(AllNames(reached[..i + 1]))
  {
    SamePrefix(flags, reached, m, i + 1);
    DistinctPrefix(flags[..m], i + 1);
  }

  /** Two prefixes of the same list agree up to the shorter one's length. */
  lemma SamePrefix(flags: seq<Flag>, reached: seq<Flag>, m: nat, j: nat)
    requires j <= m <= |flags| && j <= |reached| <= |flags| && reached == flags[..|reached|]
    ensures flags[..m][..j] == reached[..j]
  {
    var p, q := flags[..m][..j], reached[..j];
    forall k | 0 <= k < j ensures p[k] == q[k] {
      assert p[k] == flags[k] == q[k];
    }
  }

  /** One step of `flagSet`: applying flag `i` declares its names after those of the
      earlier flags, leaves the flag's own value as `Took` says and every other flag
      untouched. Its names must be new only when it applies cleanly, for a failing flag
      declares nothing. */
  method ApplyNext(flags: seq<Flag>, i: nat, fs: FlagSet, env: map<string, string>, files: map<string, string>)
    returns (err: Option<Error>)
    requires i < |flags| && (flags[i].AppliesCleanly(env, files) ==> Distinct(AllNames(flags[..i + 1])))
    requires forall a, b :: 0 <= a < b < |flags| ==> flags[a].Obj() != flags[b].Obj()
    requires fs.Valid() && forall n :: n in fs.formal <==> n in AllNames(flags[..i])
    requires flags[i].CanApply(env, files) && forall k :: 0 <= k < |flags| ==> flags[k].Obj() != fs
    modifies flags[i].Footprint(), fs
    ensures fs.Valid() && fs.actual == old(fs.actual)
    ensures err == flags[i].ApplyError(env, files)
    ensures err.None? ==> forall n :: n in fs.formal <==> n in AllNames(flags[..i + 1])
    ensures Took(flags[i], env, files)
    ensures forall k :: 0 <= k < |flags| && k != i ==> unchanged(flags[k].Obj())
  {
    var prefix := flags[..i + 1];
    assert prefix[..i] == flags[..i] && prefix[i] == flags[i];
    if flags[i].AppliesCleanly(env, files) {
      NamesOfNext(prefix, i);
    }
    OthersUntouched(flags, i);
    ObjectsAllocated(flags);
    err := ApplyFlag(flags[i], fs, env, files);
  }

  // ---------------------------------------------------------------- normalizeFlags

  /** The names as `normalizeFlags` compares them, with spaces trimmed at both ends. */
  function Trimmed(names: seq<string>): (r: seq<string>)
    ensures |r| == |names|
    ensures forall i :: 0 <= i < |names| ==> r[i] == TrimChar(names[i], ' ')
  {
    seq(|names|, i requires 0 <= i < |names| => TrimChar(names[i], ' '))
  }

  /** The trimmed names found in the visited set, in order, repeats included. */
  function VisitedForms(names: seq<string>, visited: set<string>): (r: seq<string>)
    ensures forall i :: 0 <= i < |r| ==> r[i] in visited
    ensures |r| <= |names|
  {
    if names == [] then []
    else
      var rest := VisitedForms(names[..|names| - 1], visited);
      var n := TrimChar(names[|names| - 1], ' ');
      if n in visited then rest + [n] else rest
  }

  /** The error `normalizeFlags` reports for one flag: given in two forms, naming the
      second visited form, then the first. Single-name flags are never checked. */
  function TwoFormsOf(f: Flag, visited: set<string>): Option<Error> {
    var forms := VisitedForms(f.Names(), visited);
    if |f.Names()| != 1 && |forms| >= 2 then Some(TwoForms(forms[1], forms[0])) else None
  }

  /** The first flag's two-forms error, in list order. */
  function FirstTwoForms(flags: seq<Flag>, visited: set<string>): Option<Error> {
    if flags == [] then None
    else if TwoFormsOf(flags[0], visited).Some? then TwoFormsOf(flags[0], visited)
    else FirstTwoForms(flags[1..], visited)
  }

  /** The trimmed names among `parts` that were not visited. */
  function Unvisited(parts: seq<string>, visited: set<string>): set<string> {
    set n | n in Trimmed(parts) && n !in visited
  }

  /** The names a flag's value is copied to: for a flag with several names and exactly
      one visited form, its other trimmed names. */
  function CopyTargets(f: Flag, visited: set<string>): set<string> {
    if |f.Names()| != 1 && |VisitedForms(f.Names(), visited)| == 1 then Unvisited(f.Names(), visited) else {}
  }

  /** The name whose value a flag's copy targets receive: its one visited form. */
  function CopySource(f: Flag, visited: set<string>): string
    requires |VisitedForms(f.Names(), visited)| >= 1
  {
    VisitedForms(f.Names(), visited)[0]
  }

  /** The copy targets of every flag in the list. */
  function AllCopyTargets(flags: seq<Flag>, visited: set<string>): set<string> {
    if flags == [] then {} else AllCopyTargets(flags[..|flags| - 1], visited) + CopyTargets(flags[|flags| - 1], visited)
  }

  /** A prefix of the list has no more copy targets than the whole list. */
  lemma {:induction false} CopyTargetsGrow(flags: seq<Flag>, i: nat, visited: set<string>)
    requires i <= |flags|
    ensures AllCopyTargets(flags[..i], visited) <= AllCopyTargets(flags, visited)
    decreases |flags|
  {
    if i < |flags| {
      assert flags[..|flags| - 1][..i] == flags[..i];
      CopyTargetsGrow(flags[..|flags| - 1], i, visited);
    } else {
      assert flags[..i] == flags;
    }
  }

  /** Whether every copy target of the flags takes every string its flag's source
      cell can render without Go's reflection panicking. */
  ghost predicate TargetsSettable(flags: seq<Flag>, formal: map<string, Entry>, visited: set<string>)
    requires visited <= formal.Keys
  {
    forall k, n :: 0 <= k < |flags| && n in CopyTargets(flags[k], visited) && n in formal ==>
      SettableFrom(formal[n].cell, formal[CopySource(flags[k], visited)].cell)
  }

  /** Whether `src` can render `r` at some point of a copy walk. It does not depend on
      the heap, so it survives every write the walk makes: a boolean cell renders
      "true" or "false", an unsigned cell decimal digits, a string cell anything, a
      choice cell over a pointer "" or a token of its registry, and any other choice
      cell its fixed rendering. */
  predicate MayRender(src: Cell, r: string) {
    match src
    case BoolCell(_) => r == "true" || r == "false"
    case Uint64Cell(_) => r != "" && forall i :: 0 <= i < |r| ==> '0' <= r[i] <= '9'
    case StringCell(_) => true
    case ChoiceCell(cv) =>
      match cv.storage
      case Indirect(_) => r == "" || r in cv.choice.sMap.Values
      case Direct(v) => r == ToString(cv.choice, v)
      case _ => r == ""
  }

  /** A cell can always render what it renders now. */
  lemma RendersItself(src: Cell)
    ensures MayRender(src, src.String())
  {
  }

  /** Whether copying from `src` can never make `target`'s `Set` panic. */
  ghost predicate SettableFrom(target: Cell, src: Cell) {
    forall r :: MayRender(src, r) ==> target.Settable(r)
  }

  /** The objects of the cells declared under `names`. */
  ghost function CellObjects(formal: map<string, Entry>, names: set<string>): set<object> {
    set n, o | n in names && n in formal && o in formal[n].cell.Objects() :: o
  }

  /** The value a standard cell holds; a choice cell holds none of these. */
  datatype Held = BoolHeld(b: bool) | Uint64Held(u: Uint64) | StringHeld(s: string) | NoStandardValue

  /** The value `c` holds. */
  function HeldBy(c: Cell): Held
    reads c.Objects()
  {
    match c
    case BoolCell(b) => BoolHeld(b.val)
    case Uint64Cell(u) => Uint64Held(u.val)
    case StringCell(s) => StringHeld(s.val)
    case ChoiceCell(_) => NoStandardValue
  }

  /** A cell of the source's standard kind holds the value the source held before. */
  twostate predicate HoldsCopy(src: Cell, target: Cell)
    reads target.Objects()
  {
    SameStandardKind(src, target) ==> HeldBy(target) == old(HeldBy(src))
  }

  /** The value a choice cell decodes its own rendering to: what copying the cell onto
      a name declared with it writes through a pointer. A registered value comes back
      as itself. */
  function Redecoded(cv: ChoiceValue): (r: Any)
    reads cv.Objects()
    ensures Valid(cv.choice) && !cv.Absent() && cv.Value() in cv.choice.vMap.Values ==> r == cv.Value()
  {
    FromString(cv.choice, cv.String())
  }

  /** Whether copying a choice cell onto a name declared with that same cell succeeds,
      so the name becomes visited: always without storage, through a pointer when the
      rendering decodes to a known value, never into a plain value. */
  predicate SelfCopyVisits(cv: ChoiceValue)
    reads cv.Objects()
  {
    cv.Absent() || (cv.storage.Indirect? && Redecoded(cv) != Nil)
  }

  /** Every target declared in `formal` has the choice cell `src`, as every name of
      one choice flag does, and the cell's registry is well formed. */
  ghost predicate SharesChoiceCell(src: Cell, targets: set<string>, formal: map<string, Entry>) {
    src.ChoiceCell? && Valid(src.cv.choice) && forall n :: n in targets && n in formal ==> formal[n].cell == src
  }

  /** What copying the choice cell `src` onto `copied`, names all declared with it,
      leaves behind: all of them become visited when the copy succeeds and none
      otherwise; the cell ends holding what its rendering decodes to when that is
      written through a pointer, and its old value in every other case. */
  twostate predicate ChoiceCopied(src: Cell, copied: set<string>, fs: FlagSet)
    requires src.ChoiceCell?
    reads fs, src.Objects()
  {
    && fs.actual == old(fs.actual) + (if old(SelfCopyVisits(src.cv)) then copied else {})
    && src.cv.Value() ==
       (if src.cv.storage.Indirect? && old(Redecoded(src.cv)) != Nil && copied != {} then old(Redecoded(src.cv))
        else old(src.cv.Value()))
  }

  /** `copyFlag`: set `name` from the rendering of `ff`'s cell; none of the cells here
      is a `Serializer`. Go discards the error `Set` returns; the model hands it back
      as `ignored`. Between standard cells of the same kind the copy always succeeds
      and carries the value over. */
  method CopyFlag(name: string, ff: Entry, fs: FlagSet) returns (ignored: Option<Error>)
    requires fs.Valid() && (name in fs.formal ==> fs.formal[name].cell.Settable(ff.cell.String()))
    modifies fs, if name in fs.formal then fs.formal[name].cell.Objects() else {}
    ensures fs.Valid() && fs.formal == old(fs.formal)
    ensures name !in fs.formal ==> ignored == Some(NoSuchFlag(name)) && fs.actual == old(fs.actual)
    ensures name in fs.formal ==> Stored(fs.formal[name].cell, old(ff.cell.String()), ignored)
    ensures name in fs.formal ==> fs.actual == if ignored.None? then old(fs.actual) + {name} else old(fs.actual)
    ensures name in fs.formal && SameStandardKind(ff.cell, fs.formal[name].cell) ==> ignored == None
    ensures name in fs.formal && ff.cell.BoolCell? && fs.formal[name].cell.BoolCell? ==>
              fs.formal[name].cell.b.val == old(ff.cell.b.val)
    ensures name in fs.formal && ff.cell.Uint64Cell? && fs.formal[name].cell.Uint64Cell? ==>
              fs.formal[name].cell.u.val == old(ff.cell.u.val)
    ensures name in fs.formal && ff.cell.StringCell? && fs.formal[name].cell.StringCell? ==>
              fs.formal[name].cell.s.val == old(ff.cell.s.val)
  {
    RenderingParses(ff.cell);
    ignored := fs.Set(name, ff.cell.String());
  }

  /** The first loop over a flag's names in `normalizeFlags`: find the visited form,
      failing on a second one. */
  method FindVisitedForm(parts: seq<string>, visited: set<string>) returns (ffName: Option<string>, err: Option<Error>)
    ensures var forms := VisitedForms(parts, visited);
            && (|forms| == 0 ==> ffName == None && err == None)
            && (|forms| == 1 ==> ffName == Some(forms[0]) && err == None)
            && (|forms| >= 2 ==> err == Some(TwoForms(forms[1], forms[0])))
  {
    ffName := None;
    for i := 0 to |parts|
      invariant var forms := VisitedForms(parts[..i], visited);
                && (|forms| == 0 <==> ffName == None)
                && (|forms| == 1 ==> ffName == Some(forms[0]))
                && |forms| <= 1
    {
      assert parts[..i + 1][..i] == parts[..i];
      var name := TrimChar(parts[i], ' ');
      if name in visited {
        if ffName.Some? {
          VisitedFormsPrefix(parts, i + 1, visited);
          return ffName, Some(TwoForms(name, ffName.value));
        }
        ffName := Some(name);
      }
    }
    assert parts[..|parts|] == parts;
    err := None;
  }

  /** The visited forms of a prefix of the names start the visited forms of all of them. */
  lemma {:induction false} VisitedFormsPrefix(names: seq<string>, j: nat, visited: set<string>)
    requires j <= |names|
    ensures VisitedForms(names[..j], visited) <= VisitedForms(names, visited)
    decreases |names|
  {
    if j < |names| {
      var init := names[..|names| - 1];
      assert init[..j] == names[..j];
      VisitedFormsPrefix(init, j, visited);
    } else {
      assert names[..j] == names;
    }
  }

  /** A flag has two visited forms exactly when two of its positions hold visited names. */
  lemma {:induction false} TwoVisitedPositions(names: seq<string>, visited: set<string>)
    ensures |VisitedForms(names, visited)| >= 2 <==>
            exists i, j :: 0 <= i < j < |names| && TrimChar(names[i], ' ') in visited && TrimChar(names[j], ' ') in visited
    decreases |names|
  {
    if names != [] {
      var init := names[..|names| - 1];
      TwoVisitedPositions(init, visited);
      OneVisitedPosition(init, visited);
      TwoPositionsStep(names, visited);
    }
  }

  /** Whether position `i` of `names` holds a visited name. */
  ghost predicate VisitedAt(names: seq<string>, visited: set<string>, i: int) {
    0 <= i < |names| && TrimChar(names[i], ' ') in visited
  }

  /** Two positions hold visited names exactly when two earlier ones do, or the last
      one does and an earlier one does. */
  lemma TwoPositionsStep(names: seq<string>, visited: set<string>)
    requires names != []
    ensures var init := names[..|names| - 1];
            (exists i, j :: i < j && VisitedAt(names, visited, i) && VisitedAt(names, visited, j)) <==>
            (exists i, j :: i < j && VisitedAt(init, visited, i) && VisitedAt(init, visited, j)) ||
            (VisitedAt(names, visited, |names| - 1) && exists i :: VisitedAt(init, visited, i))
  {
    var init := names[..|names| - 1];
    var last := |names| - 1;
    forall i | 0 <= i < last ensures VisitedAt(names, visited, i) == VisitedAt(init, visited, i) {
      assert init[i] == names[i];
    }
    if exists i, j :: i < j && VisitedAt(names, visited, i) && VisitedAt(names, visited, j) {
      var i, j :| i < j && VisitedAt(names, visited, i) && VisitedAt(names, visited, j);
      if j < last {
        assert VisitedAt(init, visited, i) && VisitedAt(init, visited, j);
      } else {
        assert VisitedAt(init, visited, i);
      }
    }
    if exists i :: VisitedAt(init, visited, i) {
      var i :| VisitedAt(init, visited, i);
      assert VisitedAt(names, visited, i);
    }
  }

  /** A flag has a visited form exactly when one of its positions holds a visited name. */
  lemma {:induction false} OneVisitedPosition(names: seq<string>, visited: set<string>)
    ensures |VisitedForms(names, visited)| >= 1 <==> exists i :: 0 <= i < |names| && TrimChar(names[i], ' ') in visited
    decreases |names|
  {
    if names != [] {
      var init := names[..|names| - 1];
      OneVisitedPosition(init, visited);
      if exists i :: 0 <= i < |names| && TrimChar(names[i], ' ') in visited {
        var i :| 0 <= i < |names| && TrimChar(names[i], ' ') in visited;
        if i < |names| - 1 {
          assert init[i] == names[i];
        }
      }
      if exists i :: 0 <= i < |init| && TrimChar(init[i], ' ') in visited {
        var i :| 0 <= i < |init| && TrimChar(init[i], ' ') in visited;
        assert names[i] == init[i];
      }
    }
  }

  /** The check `normalizeFlags` makes of one flag passes: it has a single name, or
      fewer than two visited forms. */
  predicate OneFormAtMost(f: Flag, visited: set<string>) {
    |f.Names()| == 1 || |VisitedForms(f.Names(), visited)| < 2
  }

  /** No error is reported exactly when no flag with several names has two visited forms. */
  lemma NoTwoForms(flags: seq<Flag>, visited: set<string>)
    ensures FirstTwoForms(flags, visited).None? <==> forall k :: 0 <= k < |flags| ==> OneFormAtMost(flags[k], visited)
  {
    if FirstTwoForms(flags, visited).None? {
      NoErrorAllPass(flags, visited);
    } else {
      ErrorSomeFails(flags, visited);
    }
  }

  /** When no error is reported, every flag passes the check. */
  lemma {:induction false} NoErrorAllPass(flags: seq<Flag>, visited: set<string>)
    requires FirstTwoForms(flags, visited).None?
    ensures forall k :: 0 <= k < |flags| ==> OneFormAtMost(flags[k], visited)
  {
    if flags != [] {
      var rest := flags[1..];
      assert TwoFormsOf(flags[0], visited).None? && FirstTwoForms(rest, visited).None?;
      NoErrorAllPass(rest, visited);
      forall k | 0 <= k < |flags|
        ensures OneFormAtMost(flags[k], visited)
      {
        if k > 0 {
          assert flags[k] == rest[k - 1];
        }
      }
    }
  }

  /** When an error is reported, some flag fails the check. */
  lemma {:induction false} ErrorSomeFails(flags: seq<Flag>, visited: set<string>)
    requires FirstTwoForms(flags, visited).Some?
    ensures exists k :: 0 <= k < |flags| && !OneFormAtMost(flags[k], visited)
  {
    if TwoFormsOf(flags[0], visited).Some? {
      assert !OneFormAtMost(flags[0], visited);
    } else {
      var rest := flags[1..];
      ErrorSomeFails(rest, visited);
      var k :| 0 <= k < |rest| && !OneFormAtMost(rest[k], visited);
      assert flags[k + 1] == rest[k];
    }
  }

  /** One call of `copyFlag` in the second loop of `normalizeFlags`: every standard
      cell of the source's kind that held the source's value `v` still holds it, the
      source included; a choice cell copied onto its own names ends as
      `CopyOntoOwnCell` states. */
  method CopyKeeping(name: string, ff: Entry, fs: FlagSet, ghost v: Held)
    requires fs.Valid() && HeldBy(ff.cell) == v
    requires name in fs.formal ==> SettableFrom(fs.formal[name].cell, ff.cell)
    modifies fs, if name in fs.formal then fs.formal[name].cell.Objects() else {}
    ensures fs.Valid() && fs.formal == old(fs.formal)
    ensures name !in fs.formal ==> fs.actual == old(fs.actual)
    ensures name in fs.formal ==> old(fs.actual) <= fs.actual <= old(fs.actual) + {name}
    ensures name in fs.formal && SameStandardKind(ff.cell, fs.formal[name].cell) ==> name in fs.actual
    ensures forall m :: m in fs.formal && SameStandardKind(ff.cell, fs.formal[m].cell) && old(HeldBy(fs.formal[m].cell)) == v ==>
              HeldBy(fs.formal[m].cell) == v
    ensures name in fs.formal && SameStandardKind(ff.cell, fs.formal[name].cell) ==> HeldBy(fs.formal[name].cell) == v
    ensures HeldBy(ff.cell) == v
    ensures ff.cell.ChoiceCell? && Valid(ff.cell.cv.choice) && (name in fs.formal ==> fs.formal[name].cell == ff.cell) ==>
              && Redecoded(ff.cell.cv) == old(Redecoded(ff.cell.cv))
              && fs.actual == (if old(SelfCopyVisits(ff.cell.cv)) && name in fs.formal then old(fs.actual) + {name} else old(fs.actual))
              && ff.cell.cv.Value() ==
                 (if ff.cell.cv.storage.Indirect? && old(Redecoded(ff.cell.cv)) != Nil && name in fs.formal then old(Redecoded(ff.cell.cv))
                  else old(ff.cell.cv.Value()))
  {
    RendersItself(ff.cell);
    if ff.cell.ChoiceCell? && (name in fs.formal ==> fs.formal[name].cell == ff.cell) {
      CopyOntoOwnCell(name, ff, fs);
      assert HeldBy(ff.cell) == NoStandardValue;
    } else {
      CopyHolding(name, ff, fs, v);
    }
  }

  /** `copyFlag` between standard cells: besides what `CopyFlag` states, every
      standard cell of the source's kind that held the source's value `v` still holds
      it, the source included. */
  method CopyHolding(name: string, ff: Entry, fs: FlagSet, ghost v: Held)
    requires fs.Valid() && HeldBy(ff.cell) == v
    requires name in fs.formal ==> SettableFrom(fs.formal[name].cell, ff.cell)
    modifies fs, if name in fs.formal then fs.formal[name].cell.Objects() else {}
    ensures fs.Valid() && fs.formal == old(fs.formal)
    ensures name !in fs.formal ==> fs.actual == old(fs.actual)
    ensures name in fs.formal ==> old(fs.actual) <= fs.actual <= old(fs.actual) + {name}
    ensures name in fs.formal && SameStandardKind(ff.cell, fs.formal[name].cell) ==> name in fs.actual
    ensures forall m :: m in fs.formal && SameStandardKind(ff.cell, fs.formal[m].cell) && old(HeldBy(fs.formal[m].cell)) == v ==>
              HeldBy(fs.formal[m].cell) == v
    ensures name in fs.formal && SameStandardKind(ff.cell, fs.formal[name].cell) ==> HeldBy(fs.formal[name].cell) == v
    ensures HeldBy(ff.cell) == v
  {
    RendersItself(ff.cell);
    var _ := CopyFlag(name, ff, fs);
  }

  /** `copyFlag` from a choice cell onto a name declared with that same cell, or onto
      an undeclared name: the rendering decodes to the value the cell holds, so the
      copy succeeds exactly when `SelfCopyVisits` says, and through a pointer it
      writes back what the rendering decodes to. */
  method CopyOntoOwnCell(name: string, ff: Entry, fs: FlagSet)
    requires fs.Valid() && ff.cell.ChoiceCell?
    requires name in fs.formal ==> fs.formal[name].cell == ff.cell && ff.cell.Settable(ff.cell.String())
    modifies fs, if name in fs.formal then fs.formal[name].cell.Objects() else {}
    ensures fs.Valid() && fs.formal == old(fs.formal)
    ensures old(fs.actual) <= fs.actual <= old(fs.actual) + (if name in fs.formal then {name} else {})
    ensures Valid(ff.cell.cv.choice) ==>
              && Redecoded(ff.cell.cv) == old(Redecoded(ff.cell.cv))
              && fs.actual == (if old(SelfCopyVisits(ff.cell.cv)) && name in fs.formal then old(fs.actual) + {name} else old(fs.actual))
              && ff.cell.cv.Value() ==
                 (if ff.cell.cv.storage.Indirect? && old(Redecoded(ff.cell.cv)) != Nil && name in fs.formal then old(Redecoded(ff.cell.cv))
                  else old(ff.cell.cv.Value()))
  {
    ghost var d := Redecoded(ff.cell.cv);
    var _ := CopyFlag(name, ff, fs);
    if Valid(ff.cell.cv.choice) && d != Nil {
      RoundTripValue(ff.cell.cv.choice, d);
    }
  }

  /** The names among the first `i` that the second loop of `normalizeFlags` copies
      to: not visited before the walk, and declared. */
  function CopiedBefore(parts: seq<string>, visited: set<string>, formal: map<string, Entry>, i: nat): (r: set<string>)
    requires i <= |parts|
    ensures r <= Unvisited(parts, visited) && r <= formal.Keys
    ensures i == |parts| ==> r == Unvisited(parts, visited) * formal.Keys
  {
    set k | 0 <= k < i && TrimChar(parts[k], ' ') !in visited && TrimChar(parts[k], ' ') in formal :: Trimmed(parts)[k]
  }

  /** One more name adds at most itself to the names copied to. */
  lemma CopiedStep(parts: seq<string>, visited: set<string>, formal: map<string, Entry>, i: nat)
    requires i < |parts|
    ensures var n := TrimChar(parts[i], ' ');
            CopiedBefore(parts, visited, formal, i + 1) ==
            CopiedBefore(parts, visited, formal, i) + (if n !in visited && n in formal then {n} else {})
  {
  }

  /** One turn of the second loop of `normalizeFlags`: copy to the `i`th name unless
      it was visited before the walk. Only a declared name that was not visited can
      become visited; standard cells of the source's kind that held the source's value
      keep it; a choice source shared by every target keeps what its rendering
      decodes to. */
  method CopyNext(parts: seq<string>, i: nat, ff: Entry, visited: set<string>, fs: FlagSet, ghost v: Held, ghost shared: bool)
    requires i < |parts| && fs.Valid() && HeldBy(ff.cell) == v
    requires forall n :: n in Unvisited(parts, visited) && n in fs.formal ==> SettableFrom(fs.formal[n].cell, ff.cell)
    requires shared == SharesChoiceCell(ff.cell, Unvisited(parts, visited), fs.formal)
    modifies fs, CellObjects(fs.formal, Unvisited(parts, visited))
    ensures fs.Valid() && fs.formal == old(fs.formal) && HeldBy(ff.cell) == v
    ensures forall m :: m in fs.formal && SameStandardKind(ff.cell, fs.formal[m].cell) && old(HeldBy(fs.formal[m].cell)) == v ==>
              HeldBy(fs.formal[m].cell) == v
    ensures var name := TrimChar(parts[i], ' ');
            var copied := name !in visited && name in fs.formal;
            && old(fs.actual) <= fs.actual <= old(fs.actual) + (if copied then {name} else {})
            && (copied && SameStandardKind(ff.cell, fs.formal[name].cell) ==> name in fs.actual && HeldBy(fs.formal[name].cell) == v)
            && (shared ==>
                  && Redecoded(ff.cell.cv) == old(Redecoded(ff.cell.cv))
                  && fs.actual == old(fs.actual) + (if old(SelfCopyVisits(ff.cell.cv)) && copied then {name} else {})
                  && ff.cell.cv.Value() ==
                     (if ff.cell.cv.storage.Indirect? && old(Redecoded(ff.cell.cv)) != Nil && copied then old(Redecoded(ff.cell.cv))
                      else old(ff.cell.cv.Value())))
  {
    var name := TrimChar(parts[i], ' ');
    if name !in visited {
      assert name == Trimmed(parts)[i] && name in Unvisited(parts, visited);
      assert shared ==> ff.cell.ChoiceCell? && Valid(ff.cell.cv.choice) && (name in fs.formal ==> fs.formal[name].cell == ff.cell);
      CopyKeeping(name, ff, fs, v);
    }
  }

  /** The second loop over a flag's names in `normalizeFlags`: copy the visited
      form's value to every name that was not visited. Only those names can become
      visited and only their cells change; each of them whose cell has the source's
      standard kind becomes visited and ends holding the source's value, and a choice
      cell that all of them share ends as `ChoiceCopied` says. */
  method CopySiblings(parts: seq<string>, ff: Entry, visited: set<string>, fs: FlagSet)
    requires fs.Valid()
    requires forall n :: n in Unvisited(parts, visited) && n in fs.formal ==> SettableFrom(fs.formal[n].cell, ff.cell)
    modifies fs, CellObjects(fs.formal, Unvisited(parts, visited))
    ensures fs.Valid() && fs.formal == old(fs.formal)
    ensures old(fs.actual) <= fs.actual <= old(fs.actual) + Unvisited(parts, visited)
    ensures forall n :: n in Unvisited(parts, visited) && n in fs.formal ==>
              && HoldsCopy(ff.cell, fs.formal[n].cell)
              && (SameStandardKind(ff.cell, fs.formal[n].cell) ==> n in fs.actual)
    ensures SharesChoiceCell(ff.cell, Unvisited(parts, visited), fs.formal) ==>
              ChoiceCopied(ff.cell, Unvisited(parts, visited) * fs.formal.Keys, fs)
  {
    ghost var v := HeldBy(ff.cell);
    ghost var shared := SharesChoiceCell(ff.cell, Unvisited(parts, visited), fs.formal);
    ghost var d0 := if ff.cell.ChoiceCell? then Redecoded(ff.cell.cv) else Nil;
    ghost var visits := ff.cell.ChoiceCell? && SelfCopyVisits(ff.cell.cv);
    ghost var v0 := if ff.cell.ChoiceCell? then ff.cell.cv.Value() else Nil;
    ghost var done: set<string> := {};
    ghost var formal := fs.formal;
    for i := 0 to |parts|
      invariant fs.Valid() && fs.formal == formal
      invariant old(fs.actual) <= fs.actual <= old(fs.actual) + Unvisited(parts, visited)
      invariant HeldBy(ff.cell) == v
      invariant done == CopiedBefore(parts, visited, formal, i)
      invariant !shared ==> forall n :: n in done && SameStandardKind(ff.cell, formal[n].cell) ==>
                  HeldBy(formal[n].cell) == v && n in fs.actual
      invariant shared ==> Redecoded(ff.cell.cv) == d0
      invariant shared ==> fs.actual == old(fs.actual) + (if visits then done else {})
      invariant shared ==> ff.cell.cv.Value() == (if ff.cell.cv.storage.Indirect? && d0 != Nil && done != {} then d0 else v0)
    {
      ghost var d := if shared then Redecoded(ff.cell.cv) else Nil;
      CopyNext(parts, i, ff, visited, fs, v, shared);
      assert shared ==> Redecoded(ff.cell.cv) == d;
      CopiedStep(parts, visited, formal, i);
      var name := TrimChar(parts[i], ' ');
      if name !in visited && name in fs.formal {
        done := done + {name};
      }
    }
  }

  /** The copying half of one turn of the loop in `normalizeFlags`, for a flag with
      several names and exactly one visited form: its value goes to the flag's other
      names, whose cells are the only ones that change. */
  method CopyFromForm(f: Flag, fs: FlagSet, visited: set<string>, form: string)
    requires fs.Valid() && visited <= fs.formal.Keys
    requires |f.Names()| != 1 && VisitedForms(f.Names(), visited) == [form]
    requires forall n :: n in CopyTargets(f, visited) && n in fs.formal ==>
               SettableFrom(fs.formal[n].cell, fs.formal[CopySource(f, visited)].cell)
    modifies fs, CellObjects(fs.formal, CopyTargets(f, visited))
    ensures fs.Valid() && fs.formal == old(fs.formal)
    ensures old(fs.actual) <= fs.actual <= old(fs.actual) + CopyTargets(f, visited)
    ensures forall n :: n in CopyTargets(f, visited) && n in fs.formal ==>
              var src := fs.formal[CopySource(f, visited)].cell;
              && HoldsCopy(src, fs.formal[n].cell)
              && (SameStandardKind(src, fs.formal[n].cell) ==> n in fs.actual)
    ensures SharesChoiceCell(fs.formal[CopySource(f, visited)].cell, Unvisited(f.Names(), visited), fs.formal) ==>
              ChoiceCopied(fs.formal[CopySource(f, visited)].cell, Unvisited(f.Names(), visited) * fs.formal.Keys, fs)
  {
    assert CopyTargets(f, visited) == Unvisited(f.Names(), visited);
    assert form == CopySource(f, visited);
    var ff := fs.Lookup(form);
    CopySiblings(f.Names(), ff.value, visited, fs);
  }

  /** One turn of the loop in `normalizeFlags`, for one flag against the names
      visited before the walk began: a single-name flag is skipped; two visited forms
      are the error; with exactly one, `CopyFromForm` copies it to the flag's other
      names, whose cells are the only ones that change, and those of its standard
      kind become visited. */
  method NormalizeFlag(f: Flag, fs: FlagSet, visited: set<string>) returns (err: Option<Error>)
    requires fs.Valid() && visited <= fs.formal.Keys
    requires forall n :: n in CopyTargets(f, visited) && n in fs.formal ==>
               SettableFrom(fs.formal[n].cell, fs.formal[CopySource(f, visited)].cell)
    modifies fs, CellObjects(fs.formal, CopyTargets(f, visited))
    ensures fs.Valid() && fs.formal == old(fs.formal)
    ensures err == TwoFormsOf(f, visited)
    ensures old(fs.actual) <= fs.actual <= old(fs.actual) + CopyTargets(f, visited)
    ensures forall n :: n in CopyTargets(f, visited) && n in fs.formal &&
                        SameStandardKind(fs.formal[CopySource(f, visited)].cell, fs.formal[n].cell) ==>
              n in fs.actual
  {
    var parts := f.Names();
    if |parts| == 1 {
      return None;
    }
    var ffName, e := FindVisitedForm(parts, visited);
    if e.Some? {
      return e;
    }
    if ffName.None? {
      return None;
    }
    assert VisitedForms(parts, visited) == [ffName.value];
    CopyFromForm(f, fs, visited, ffName.value);
    return None;
  }

  /** `normalizeFlags`: against the names visited before it starts, each flag with
      several names is checked for two visited forms (an error that stops the walk)
      and, with exactly one, its value is copied to its other names; only the cells of
      copy targets change. Go's reflection panics if a copy writes a known token into
      a choice cell over a plain value, so every copy target must reject every string
      its source can render. */
  method NormalizeFlags(flags: seq<Flag>, fs: FlagSet) returns (err: Option<Error>)
    requires fs.Valid() && TargetsSettable(flags, fs.formal, fs.actual)
    modifies fs, CellObjects(fs.formal, AllCopyTargets(flags, fs.actual))
    ensures fs.Valid() && fs.formal == old(fs.formal)
    ensures err == FirstTwoForms(flags, old(fs.actual))
    ensures old(fs.actual) <= fs.actual <= old(fs.actual) + AllCopyTargets(flags, old(fs.actual))
    ensures err.None? ==> forall k, n ::
              (0 <= k < |flags| && n in CopyTargets(flags[k], old(fs.actual)) && n in fs.formal &&
               SameStandardKind(fs.formal[VisitedForms(flags[k].Names(), old(fs.actual))[0]].cell, fs.formal[n].cell)) ==>
              n in fs.actual
  {
    var visited := fs.actual;
    for i := 0 to |flags|
      invariant fs.Valid() && fs.formal == old(fs.formal) && visited == old(fs.actual)
      invariant FirstTwoForms(flags, visited) == FirstTwoForms(flags[i..], visited)
      invariant visited <= fs.actual <= visited + AllCopyTargets(flags[..i], visited)
      invariant forall k, n ::
                  (0 <= k < i && n in CopyTargets(flags[k], visited) && n in fs.formal &&
                   SameStandardKind(fs.formal[VisitedForms(flags[k].Names(), visited)[0]].cell, fs.formal[n].cell)) ==>
                  n in fs.actual
    {
      assert flags[i..][1..] == flags[i + 1..];
      assert flags[..i + 1][..i] == flags[..i];
      CopyTargetsGrow(flags, i + 1, visited);
      var e := NormalizeFlag(flags[i], fs, visited);
      if e.Some? {
        CopyTargetsGrow(flags, i, visited);
        return e;
      }
    }
    assert flags[..|flags|] == flags;
    return None;
  }

  /** `hasFlag`: whether the list holds this very flag (same kind, same object). */
  method HasFlag(flags: seq<Flag>, fl: Flag) returns (found: bool)
    ensures found <==> fl in flags
  {
    for i := 0 to |flags|
      invariant fl !in flags[..i]
    {
      if flags[i] == fl {
        return true;
      }
      assert flags[..i + 1] == flags[..i] + [flags[i]];
    }
    assert flags[..|flags|] == flags;
    return false;
  }
}
