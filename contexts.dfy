/** context.go: the execution context, the chain of its parents, how a flag name is
    resolved along that chain, the required-flag check and the flag-name visitor; also
    the context accessors of the flag kinds (`Context.Bool`, `Uint64`, `Path`,
    `Choice`), which Go declares next to each kind. */
module Contexts {
  import opened Wrappers
  import opened Errors
  import opened Text
  import opened Choices
  import opened FlagSets
  import opened FlagBool
  import opened FlagUint64
  import opened FlagPath
  import opened FlagList

  /** The part of `App` the engine reads: its flags. */
  class App {
    const flags: seq<Flag>

    constructor (flags: seq<Flag>)
      ensures this.flags == flags
    {
      this.flags := flags;
    }
  }

  /** The part of `Command` the engine reads: its flags. */
  class Command {
    const flags: seq<Flag>

    constructor (flags: seq<Flag>)
      ensures this.flags == flags
    {
      this.flags := flags;
    }
  }

  /** What `flag.Getter.Get()` returns for a declared name: the typed value of a
      standard cell, or the choice cell itself. */
  datatype Got = GotBool(b: bool) | GotUint64(n: Uint64) | GotString(s: string) | GotChoice(cv: ChoiceValue)

  function Get(cell: Cell): (r: Got)
    reads cell.Objects()
    ensures cell.BoolCell? <==> r.GotBool?
    ensures cell.Uint64Cell? <==> r.GotUint64?
    ensures cell.StringCell? <==> r.GotString?
    ensures cell.BoolCell? ==> r.b == cell.b.val
    ensures cell.Uint64Cell? ==> r.n == cell.u.val
    ensures cell.StringCell? ==> r.s == cell.s.val
    ensures cell.ChoiceCell? ==> r == GotChoice(cell.cv)
  {
    match cell
    case BoolCell(b) => GotBool(b.val)
    case Uint64Cell(u) => GotUint64(u.val)
    case StringCell(s) => GotString(s.val)
    case ChoiceCell(cv) => GotChoice(cv)
  }

  /** The flag objects of a list of flags. */
  ghost function FlagObjects(flags: seq<Flag>): set<object?> {
    set k | 0 <= k < |flags| :: flags[k].Obj() as object?
  }

  /** The names of the flags of the list that the environment or a file set. */
  ghost function SetNames(flags: seq<Flag>): set<string>
    reads FlagObjects(flags)
  {
    set k, n | 0 <= k < |flags| && flags[k].IsSet() && n in flags[k].Names() :: n
  }

  /** The inner loops of `IsSet`, over one list of flags: whether some flag set from
      the environment or a file has `name` among its names. */
  method AnyFlagClaims(flags: seq<Flag>, name: string) returns (found: bool)
    ensures found <==> name in SetNames(flags)
  {
    for i := 0 to |flags|
      invariant forall k :: 0 <= k < i && flags[k].IsSet() ==> name !in flags[k].Names()
    {
      if !flags[i].IsSet() {
        continue;
      }
      var names := flags[i].Names();
      for j := 0 to |names|
        invariant name !in names[..j]
      {
        if names[j] == name {
          assert flags[i].IsSet() && name in flags[i].Names();
          return true;
        }
      }
      assert names[..|names|] == names;
    }
    return false;
  }

  /** `flagSetLookupWithValueSet`: `Visit` walks the visited names (Go sorts them; the
      order does not matter, as a name occurs once) and keeps the one equal to `name`.
      So a declared but unvisited name is not found. */
  method FlagSetLookupWithValueSet(fs: FlagSet, name: string) returns (f: Option<Entry>)
    requires fs.Valid()
    ensures f.Some? <==> name in fs.actual
    ensures f.Some? ==> f.value == fs.formal[name]
  {
    f := None;
    var rest := fs.actual;
    while rest != {}
      invariant rest <= fs.actual
      invariant f == if name in fs.actual - rest then Some(fs.formal[name]) else None
      decreases |rest|
    {
      var ff :| ff in rest;
      if ff == name {
        f := Some(fs.formal[ff]);
      }
      rest := rest - {ff};
    }
  }

  /** The contexts of a chain and their flag sets. */
  ghost function Scopes(chain: seq<Context>): set<object?>
    reads set c | c in chain
  {
    (set c: object? | c in chain) + (set c | c in chain :: c.flagSet as object?)
  }

  /** Every scope of the chain has a flag set. `lookupFlagSet`, and so `Value` and the
      typed accessors, dereference each scope's set without a test; `IsSet` reads only
      the sets of scopes with a command, but is given the same demand. */
  ghost predicate Ready(chain: seq<Context>)
    reads Scopes(chain)
  {
    forall i :: 0 <= i < |chain| ==> chain[i].flagSet != null && chain[i].flagSet.Valid()
  }

  /** The first scope at or after `from` whose flag set declares `name`. */
  ghost function FirstDeclaring(chain: seq<Context>, name: string, from: nat): (r: Option<nat>)
    requires Ready(chain) && from <= |chain|
    reads Scopes(chain)
    ensures r.Some? ==> from <= r.value < |chain| && name in chain[r.value].flagSet.formal
    ensures forall k :: from <= k < |chain| && (r.None? || k < r.value) ==> name !in chain[k].flagSet.formal
    decreases |chain| - from
  {
    if from == |chain| then None
    else if name in chain[from].flagSet.formal then Some(from)
    else FirstDeclaring(chain, name, from + 1)
  }

  /** The first scope at or after `from` whose flag set visited `name`. */
  ghost function FirstVisited(chain: seq<Context>, name: string, from: nat): (r: Option<nat>)
    requires Ready(chain) && from <= |chain|
    reads Scopes(chain)
    ensures r.Some? ==> from <= r.value < |chain| && name in chain[r.value].flagSet.actual
    ensures forall k :: from <= k < |chain| && (r.None? || k < r.value) ==> name !in chain[k].flagSet.actual
    decreases |chain| - from
  {
    if from == |chain| then None
    else if name in chain[from].flagSet.actual then Some(from)
    else FirstVisited(chain, name, from + 1)
  }

  /** The nearest declaring scope of a suffix of the chain is the nearest declaring
      scope of the chain from where the suffix starts. */
  lemma DeclaringShift(chain: seq<Context>, name: string, i: nat)
    requires Ready(chain) && i <= |chain|
    ensures Ready(chain[i..])
    ensures var d := FirstDeclaring(chain, name, i);
            FirstDeclaring(chain[i..], name, 0) == if d.Some? then Some(d.value - i) else None
  {
    assert forall k :: 0 <= k < |chain| - i ==> chain[i..][k] == chain[i + k];
    var d := FirstDeclaring(chain, name, i);
    var e := FirstDeclaring(chain[i..], name, 0);
    if d.Some? {
      assert chain[i..][d.value - i] == chain[d.value];
    }
    if e.Some? {
      assert chain[i..][e.value] == chain[i + e.value];
    }
  }

  /** One turn of the lookup loop: the first scope at or after `i` that visited `name`
      is the nearest declaring scope when that one visited it, and otherwise the first
      at or after `i + 1`, since a flag set only visits names it declares. */
  lemma VisitedStep(chain: seq<Context>, name: string, i: nat)
    requires Ready(chain) && i < |chain|
    ensures var d := FirstDeclaring(chain, name, i);
            if d.Some? && name in chain[d.value].flagSet.actual then FirstVisited(chain, name, i) == d
            else FirstVisited(chain, name, i) == FirstVisited(chain, name, i + 1)
  {
    var d := FirstDeclaring(chain, name, i);
    var v := FirstVisited(chain, name, i);
    if v.Some? {
      assert name in chain[v.value].flagSet.formal;
    }
  }

  /** The names one scope lets `IsSet` report: with a command, the names of its flags
      set from the environment or a file and the names its flag set visited; without
      a command, none. */
  ghost function ScopeSetNames(c: Context): set<string>
    requires c.flagSet != null
    reads c, c.command, c.flagSet, if c.command != null then FlagObjects(c.command.flags) else {}
  {
    if c.command == null then {} else SetNames(c.command.flags) + c.flagSet.actual
  }

  /** One turn of the lineage loop of `IsSet`: a scope without a command is skipped. */
  method ScopeIsSet(ctx: Context, name: string) returns (found: bool)
    requires ctx.flagSet != null && ctx.flagSet.Valid()
    ensures found <==> name in ScopeSetNames(ctx)
  {
    if ctx.command == null {
      return false;
    }
    found := AnyFlagClaims(ctx.command.flags, name);
    if found {
      return true;
    }
    var f := FlagSetLookupWithValueSet(ctx.flagSet, name);
    return f.Some?;
  }

  /** What the scopes of a chain let `IsSet` read: the contexts, their flag sets,
      their commands and those commands' flags. */
  ghost function ScopeFrame(chain: seq<Context>): set<object?>
    reads set c | c in chain
  {
    Scopes(chain)
    + (set c | c in chain :: c.command as object?)
    + (set c, o | c in chain && c.command != null && o in FlagObjects(c.command.flags) :: o)
  }

  /** The names some scope of the chain lets `IsSet` report. */
  ghost function LineageSetNames(chain: seq<Context>): set<string>
    requires Ready(chain)
    reads Scopes(chain), ScopeFrame(chain)
  {
    set i, n | 0 <= i < |chain| && n in ScopeSetNames(chain[i]) :: n
  }

  /** The lineage loop of `IsSet`: whether some scope reports `name`. */
  method LineageIsSet(lineage: seq<Context>, name: string) returns (found: bool)
    requires Ready(lineage)
    ensures found <==> name in LineageSetNames(lineage)
  {
    ChainObjectsAllocated(lineage);
    for i := 0 to |lineage|
      invariant Ready(lineage)
      invariant forall k :: 0 <= k < i ==> name !in old(ScopeSetNames(lineage[k]))
    {
      found := ScopeIsSet(lineage[i], name);
      LineageKept(lineage);
      if found {
        assert name in ScopeSetNames(lineage[i]);
        return true;
      }
      ScopeKept(lineage[i]);
      assert name !in old(ScopeSetNames(lineage[i]));
    }
    LineageKept(lineage);
    assert name !in old(LineageSetNames(lineage));
    return false;
  }

  /** What the app part of `IsSet` reads beyond the context: the app's flags. */
  ghost function AppFrame(c: Context): set<object?> {
    if c.app != null then FlagObjects(c.app.flags) else {}
  }

  /** The names the app part of `IsSet` reports for context `c`: with an app, the names
      of its flags set from the environment or a file and the names the context's flag
      set visited; without an app, none. */
  ghost function AppSetNames(c: Context): set<string>
    requires c.flagSet != null
    reads c, c.flagSet, AppFrame(c)
  {
    if c.app == null then {} else SetNames(c.app.flags) + c.flagSet.actual
  }

  /** The names `IsSet` reports in the first context of `chain`: those of every scope
      of the chain and of the app. */
  ghost function SetNamesOf(chain: seq<Context>): set<string>
    requires chain != [] && Ready(chain)
    reads Scopes(chain), ScopeFrame(chain), AppFrame(chain[0])
  {
    LineageSetNames(chain) + AppSetNames(chain[0])
  }

  /** What one scope lets `IsSet` read. */
  ghost function ScopeObjects(c: Context): set<object?>
    reads c
  {
    {c, c.flagSet, c.command} + (if c.command != null then FlagObjects(c.command.flags) else {})
  }

  /** Everything `IsSet` reads for a chain of allocated contexts is allocated, so a
      call that changes nothing keeps it. */
  lemma ChainObjectsAllocated(chain: seq<Context>)
    requires forall i :: 0 <= i < |chain| ==> allocated(chain[i])
    ensures forall i, o :: 0 <= i < |chain| && o in ScopeObjects(chain[i]) ==> allocated(o)
    ensures chain != [] ==> forall o :: o in AppFrame(chain[0]) ==> allocated(o)
  {
    forall i | 0 <= i < |chain|
      ensures forall o :: o in ScopeObjects(chain[i]) ==> allocated(o)
    {
      if chain[i].command != null {
        ObjectsAllocated(chain[i].command.flags);
      }
    }
    if chain != [] && chain[0].app != null {
      ObjectsAllocated(chain[0].app.flags);
    }
  }

  /** A scope none of whose objects changed reports the same names. */
  twostate lemma ScopeKept(c: Context)
    requires old(c.flagSet) != null
    requires forall o: object | o in old(ScopeObjects(c)) :: unchanged(o)
    ensures c.flagSet != null && ScopeSetNames(c) == old(ScopeSetNames(c))
    ensures old(c.flagSet.Valid()) ==> c.flagSet.Valid()
  {
    assert c in old(ScopeObjects(c)) && old(c.flagSet) in old(ScopeObjects(c));
    if c.command != null {
      assert c.command in old(ScopeObjects(c));
      forall o: object | o in FlagObjects(c.command.flags)
        ensures unchanged(o)
      {
        assert o in old(ScopeObjects(c));
      }
    }
  }

  /** A chain none of whose scopes' objects changed stays ready and reports the same
      names. */
  twostate lemma LineageKept(chain: seq<Context>)
    requires old(Ready(chain))
    requires forall i, o: object | 0 <= i < |chain| && o in old(ScopeObjects(chain[i])) :: unchanged(o)
    ensures Ready(chain) && LineageSetNames(chain) == old(LineageSetNames(chain))
  {
    forall i | 0 <= i < |chain|
      ensures chain[i].flagSet != null && chain[i].flagSet.Valid()
      ensures ScopeSetNames(chain[i]) == old(ScopeSetNames(chain[i]))
    {
      ScopeKept(chain[i]);
    }
    assert LineageSetNames(chain) == old(LineageSetNames(chain));
  }

  /** The first scope that visited a name stays the same when no scope's objects
      changed. */
  twostate lemma VisitedKept(chain: seq<Context>, new name: string, new from: nat)
    requires old(Ready(chain)) && from <= |chain|
    requires forall i :: 0 <= i < |chain| ==> unchanged(chain[i]) && unchanged(old(chain[i].flagSet))
    ensures Ready(chain) && FirstVisited(chain, name, from) == old(FirstVisited(chain, name, from))
  {
    forall o: object | o in old(Scopes(chain))
      ensures unchanged(o)
    {
      var c :| c in chain && (o == c || o == old(c.flagSet));
      var i :| 0 <= i < |chain| && chain[i] == c;
    }
  }

  /** The names `IsSet` reports for a chain are kept when every scope's objects and the
      app's flags are unchanged. */
  twostate lemma SetNamesKept(chain: seq<Context>)
    requires chain != [] && old(Ready(chain))
    requires forall i, o: object | 0 <= i < |chain| && o in old(ScopeObjects(chain[i])) :: unchanged(o)
    requires forall o: object | o in AppFrame(chain[0]) :: unchanged(o)
    ensures Ready(chain) && SetNamesOf(chain) == old(SetNamesOf(chain))
  {
    LineageKept(chain);
    assert chain[0] in old(ScopeObjects(chain[0])) && old(chain[0].flagSet) in old(ScopeObjects(chain[0]));
  }

  /** Some name of the flag, trimmed, is among the reported names (checked from the
      last name back). */
  function AnyFormSet(reported: set<string>, names: seq<string>): bool {
    names != [] && (AnyFormSet(reported, names[..|names| - 1]) || TrimSpace(names[|names| - 1]) in reported)
  }

  /** A flag counts as present exactly when one of its names, trimmed, is reported. */
  lemma {:induction false} AnyFormSetSome(reported: set<string>, names: seq<string>)
    ensures AnyFormSet(reported, names) <==> exists k :: 0 <= k < |names| && TrimSpace(names[k]) in reported
  {
    if names != [] {
      var init := names[..|names| - 1];
      var last := |names| - 1;
      AnyFormSetSome(reported, init);
      if AnyFormSet(reported, names) {
        if AnyFormSet(reported, init) {
          var k :| 0 <= k < |init| && TrimSpace(init[k]) in reported;
          assert names[k] == init[k];
        } else {
          assert TrimSpace(names[last]) in reported;
        }
      } else {
        forall k | 0 <= k < |names|
          ensures TrimSpace(names[k]) !in reported
        {
          if k < last {
            assert names[k] == init[k];
          }
        }
      }
    }
  }

  /** The names `checkRequiredFlags` reports, in flag order, given the names `IsSet`
      reports. */
  function Missing(reported: set<string>, flags: seq<Flag>): (r: seq<string>)
    ensures |r| <= |flags|
  {
    if flags == [] then []
    else
      var f := flags[|flags| - 1];
      var rest := Missing(reported, flags[..|flags| - 1]);
      if f.IsRequired() && !AnyFormSet(reported, f.Names()) && ReportedName(f.Names()) != "" then
        rest + [ReportedName(f.Names())]
      else rest
  }

  /** Every missing name belongs to a required flag none of whose names is set, and
      is that flag's last name longer than one character. */
  lemma {:induction false} MissingSound(reported: set<string>, flags: seq<Flag>)
    ensures forall m :: m in Missing(reported, flags) ==>
              exists k :: 0 <= k < |flags| && flags[k].IsRequired() && !AnyFormSet(reported, flags[k].Names()) &&
                          m == ReportedName(flags[k].Names()) && m != ""
  {
    if flags != [] {
      var init := flags[..|flags| - 1];
      MissingSound(reported, init);
      forall m | m in Missing(reported, flags)
        ensures exists k :: 0 <= k < |flags| && flags[k].IsRequired() && !AnyFormSet(reported, flags[k].Names()) &&
                            m == ReportedName(flags[k].Names()) && m != ""
      {
        if m in Missing(reported, init) {
          var k :| 0 <= k < |init| && init[k].IsRequired() && !AnyFormSet(reported, init[k].Names()) &&
                   m == ReportedName(init[k].Names()) && m != "";
          assert flags[k] == init[k];
        } else {
          assert m == ReportedName(flags[|flags| - 1].Names());
        }
      }
    }
  }

  /** Every required flag with no name set and some name longer than one character
      is reported missing. */
  lemma {:induction false} MissingComplete(reported: set<string>, flags: seq<Flag>)
    ensures forall k :: 0 <= k < |flags| && flags[k].IsRequired() && !AnyFormSet(reported, flags[k].Names()) &&
                        ReportedName(flags[k].Names()) != "" ==>
              ReportedName(flags[k].Names()) in Missing(reported, flags)
  {
    if flags != [] {
      var init := flags[..|flags| - 1];
      MissingComplete(reported, init);
      forall k | 0 <= k < |flags| - 1 && flags[k].IsRequired() && !AnyFormSet(reported, flags[k].Names()) &&
                 ReportedName(flags[k].Names()) != ""
        ensures ReportedName(flags[k].Names()) in Missing(reported, flags)
      {
        assert flags[k] == init[k];
      }
    }
  }

  /** Each comma-part of a name with white space trimmed at both ends. */
  function TrimmedParts(parts: seq<string>): (r: seq<string>)
    ensures |r| == |parts|
    ensures forall k :: 0 <= k < |parts| ==> r[k] == TrimSpace(parts[k])
  {
    seq(|parts|, k requires 0 <= k < |parts| => TrimSpace(parts[k]))
  }

  /** The position of the longest part, the earliest among equals. */
  function Longest(parts: seq<string>): (j: nat)
    requires |parts| >= 1
    ensures j < |parts|
    ensures forall k :: 0 <= k < |parts| ==> |parts[k]| <= |parts[j]|
    ensures forall k :: 0 <= k < j ==> |parts[k]| < |parts[j]|
  {
    if |parts| == 1 then 0
    else
      var j := Longest(parts[..|parts| - 1]);
      if |parts[|parts| - 1]| > |parts[j]| then |parts| - 1 else j
  }

  /** The closure `makeFlagNameVisitor` builds, applied to one visited name: the longest
      trimmed comma-part, the earliest among equals, is appended to `names`, unless every
      part trims to nothing. */
  method VisitFlagName(names: seq<string>, flagName: string) returns (r: seq<string>)
    ensures var parts := TrimmedParts(Split(flagName, ','));
            r == if parts[Longest(parts)] == "" then names else names + [parts[Longest(parts)]]
    ensures var parts := TrimmedParts(Split(flagName, ','));
            r == names <==> forall k :: 0 <= k < |parts| ==> parts[k] == ""
  {
    var nameParts := Split(flagName, ',');
    var parts := TrimmedParts(nameParts);
    var name := parts[0];
    ghost var j := 0;
    for i := 0 to |nameParts|
      invariant j < (if i == 0 then 1 else i) && name == parts[j]
      invariant forall k :: 0 <= k < i ==> |parts[k]| <= |parts[j]|
      invariant forall k :: 0 <= k < j ==> |parts[k]| < |parts[j]|
    {
      var part := parts[i];
      if |part| > |name| {
        name := part;
        j := i;
      }
    }
    assert j == Longest(parts);
    if name != "" {
      return names + [name];
    }
    return names;
  }

  /** The name `checkRequiredFlags` reports for a flag: its last name longer than one
      character, or "" when it has none. */
  function ReportedName(names: seq<string>): (r: string)
    ensures r != "" ==> exists k :: 0 <= k < |names| && names[k] == r && |r| > 1 &&
                          forall j :: k < j < |names| ==> |names[j]| <= 1
    ensures r == "" <==> forall k :: 0 <= k < |names| ==> |names[k]| <= 1
  {
    if names == [] then ""
    else if |names[|names| - 1]| > 1 then names[|names| - 1]
    else ReportedName(names[..|names| - 1])
  }

  class Context {
    const app: App?
    var command: Command?
    var shellComplete: bool
    var flagSet: FlagSet?
    const parentContext: Context?
    /** The number of ancestors; it makes the walk up the parents terminate. */
    ghost const depth: nat

    /** Each parent is one level nearer the root. */
    ghost predicate Linked()
      decreases depth
    {
      if parentContext == null then depth == 0
      else parentContext.depth + 1 == depth && parentContext.Linked()
    }

    /** This context and its ancestors, child first. */
    ghost function Chain(): (r: seq<Context>)
      requires Linked()
      decreases depth
      ensures |r| == depth + 1 && r[0] == this
    {
      if parentContext == null then [this] else [this] + parentContext.Chain()
    }

    /** `NewContext`: a child of `parentCtx` (or a root) with an empty command; it
        inherits `shellComplete`, and a parent without a flag set is given an empty one. */
    constructor (app: App?, fs: FlagSet?, parentCtx: Context?)
      requires parentCtx != null ==> parentCtx.Linked()
      modifies parentCtx
      ensures this.app == app && flagSet == fs && parentContext == parentCtx && Linked()
      ensures command != null && fresh(command) && command.flags == []
      ensures shellComplete == (parentCtx != null && parentCtx.shellComplete)
      ensures parentCtx != null ==>
                && parentCtx.flagSet != null
                && parentCtx.shellComplete == old(parentCtx.shellComplete)
                && parentCtx.command == old(parentCtx.command)
      ensures parentCtx != null && old(parentCtx.flagSet) != null ==> parentCtx.flagSet == old(parentCtx.flagSet)
      ensures parentCtx != null && old(parentCtx.flagSet) == null ==>
                fresh(parentCtx.flagSet) && parentCtx.flagSet.formal == map[] && parentCtx.flagSet.actual == {}
    {
      this.app := app;
      flagSet := fs;
      parentContext := parentCtx;
      depth := if parentCtx == null then 0 else parentCtx.depth + 1;
      shellComplete := parentCtx != null && parentCtx.shellComplete;
      command := new Command([]);
      new;
      if parentCtx != null && parentCtx.flagSet == null {
        parentCtx.flagSet := new FlagSet();
      }
    }

    /** Every context of the chain is linked and its own chain is the rest of this one;
        consecutive entries are child and parent, and the last is the root. */
    lemma {:induction false} ChainLinks()
      requires Linked()
      decreases depth
      ensures forall i :: 0 <= i < |Chain()| ==> Chain()[i].Linked() && Chain()[i].Chain() == Chain()[i..]
      ensures forall i :: 0 <= i < |Chain()| - 1 ==> Chain()[i].parentContext == Chain()[i + 1]
      ensures Chain()[|Chain()| - 1].parentContext == null
    {
      if parentContext != null {
        parentContext.ChainLinks();
        var c := Chain();
        assert c == [this] + parentContext.Chain();
        forall i | 0 < i < |c| ensures c[i].Linked() && c[i].Chain() == c[i..] {
          assert c[i..] == parentContext.Chain()[i - 1..];
        }
      }
    }

    /** The context at position `i` of the chain has the rest of the chain as its own. */
    lemma ChainSuffix(i: nat)
      requires Linked() && i < |Chain()|
      ensures Chain()[i].Linked() && Chain()[i].Chain() == Chain()[i..]
    {
      ChainLinks();
    }

    /** The contexts of the chain are allocated, so a call that changes nothing keeps
        what is known about them. */
    lemma {:induction false} ChainAllocated()
      requires Linked()
      decreases depth
      ensures forall i :: 0 <= i < |Chain()| ==> allocated(Chain()[i])
    {
      if parentContext != null {
        parentContext.ChainAllocated();
        assert forall i :: 0 < i < |Chain()| ==> Chain()[i] == parentContext.Chain()[i - 1];
      }
    }

    /** `Lineage`: follow the parents from this context to the root. */
    method Lineage() returns (lineage: seq<Context>)
      requires Linked()
      ensures lineage == Chain()
    {
      lineage := [];
      var cur: Context? := this;
      while cur != null
        invariant cur != null ==> cur.Linked() && lineage + cur.Chain() == Chain()
        invariant cur == null ==> lineage == Chain()
        decreases if cur == null then 0 else cur.depth + 1
      {
        assert cur.Chain() == [cur] + (if cur.parentContext == null then [] else cur.parentContext.Chain());
        lineage := lineage + [cur];
        cur := cur.parentContext;
      }
    }

    /** `Set`: set a name in this context's own flag set. */
    method Set(name: string, value: string) returns (err: Option<Error>)
      requires flagSet != null && flagSet.Valid()
      requires name in flagSet.formal ==> flagSet.formal[name].cell.Settable(value)
      modifies flagSet, if name in flagSet.formal then flagSet.formal[name].cell.Objects() else {}
      ensures flagSet.Valid() && flagSet.formal == old(flagSet.formal)
      ensures name !in flagSet.formal ==> err == Some(NoSuchFlag(name)) && flagSet.actual == old(flagSet.actual)
      ensures name in flagSet.formal ==> Stored(flagSet.formal[name].cell, value, err)
      ensures name in flagSet.formal ==> flagSet.actual == if err.None? then old(flagSet.actual) + {name} else old(flagSet.actual)
    {
      err := flagSet.Set(name, value);
    }

    /** `lookupFlagSet`: the flag set of the nearest scope that declares `name`. */
    method LookupFlagSet(name: string) returns (fs: FlagSet?)
      requires Linked() && Ready(Chain())
      ensures var d := FirstDeclaring(Chain(), name, 0);
              fs == if d.Some? then Chain()[d.value].flagSet else null
    {
      ChainAllocated();
      var lineage := Lineage();
      for i := 0 to |lineage|
        invariant FirstDeclaring(lineage, name, 0) == FirstDeclaring(lineage, name, i)
      {
        var f := lineage[i].flagSet.Lookup(name);
        if f.Some? {
          return lineage[i].flagSet;
        }
      }
      return null;
    }

    /** What a name resolves to: the entry of the nearest scope whose flag set visited
        it. */
    ghost function Resolved(name: string): Option<Entry>
      requires Linked() && Ready(Chain())
      reads Scopes(Chain())
    {
      var v := FirstVisited(Chain(), name, 0);
      if v.Some? then Some(Chain()[v.value].flagSet.formal[name]) else None
    }

    /** A name resolves to nothing exactly when no scope visited it, and otherwise to
        the entry of a scope that visited it with no nearer scope doing so: a child's
        explicit value shadows its ancestors'. */
    lemma ResolvedMeaning(name: string)
      requires Linked() && Ready(Chain())
      ensures Resolved(name).None? <==> forall i :: 0 <= i < |Chain()| ==> name !in Chain()[i].flagSet.actual
      ensures Resolved(name).Some? ==>
                exists i :: 0 <= i < |Chain()| && name in Chain()[i].flagSet.actual &&
                            Resolved(name).value == Chain()[i].flagSet.formal[name] &&
                            forall k :: 0 <= k < i ==> name !in Chain()[k].flagSet.actual
    {
      var v := FirstVisited(Chain(), name, 0);
      if v.Some? {
        assert 0 <= v.value < |Chain()| && name in Chain()[v.value].flagSet.actual &&
               forall k :: 0 <= k < v.value ==> name !in Chain()[k].flagSet.actual;
      }
    }

    /** A name this context visited resolves here, whatever the ancestors hold. */
    lemma Shadowing(name: string)
      requires Linked() && Ready(Chain()) && name in flagSet.actual
      ensures Resolved(name) == Some(flagSet.formal[name])
    {
      assert Chain()[0] == this;
    }

    /** A name this context did not visit resolves as in the parent. */
    lemma {:induction false} Inherited(name: string)
      requires Linked() && Ready(Chain()) && parentContext != null && name !in flagSet.actual
      ensures parentContext.Linked() && Ready(parentContext.Chain())
      ensures Resolved(name) == parentContext.Resolved(name)
    {
      var c := Chain();
      var p := parentContext.Chain();
      assert c == [this] + p;
      assert forall i :: 0 <= i < |p| ==> p[i] == c[i + 1];
      var v := FirstVisited(c, name, 0);
      var w := FirstVisited(p, name, 0);
      if w.Some? {
        assert v == Some(w.value + 1);
      } else {
        assert v.None?;
      }
    }

    /** The loop that `Value` and the accessors share: in each scope, the nearest flag
        set declaring `name`, if it visited `name`. */
    method Resolve(name: string) returns (f: Option<Entry>)
      requires Linked() && Ready(Chain())
      ensures f == Resolved(name)
    {
      ChainAllocated();
      var lineage := Lineage();
      for i := 0 to |lineage|
        invariant Ready(lineage)
        invariant old(FirstVisited(lineage, name, 0)) == old(FirstVisited(lineage, name, i))
      {
        var e := ResolveStep(lineage, i, name);
        VisitedKept(lineage, name, 0);
        VisitedKept(lineage, name, i);
        if e.Some? {
          return e;
        }
        VisitedKept(lineage, name, i + 1);
      }
      VisitedKept(lineage, name, 0);
      return None;
    }

    /** One turn of that loop, at scope `i`: what it finds is the first scope from `i`
        on that visited `name`; when it finds nothing, that scope lies beyond `i`. */
    method ResolveStep(lineage: seq<Context>, i: nat, name: string) returns (e: Option<Entry>)
      requires Linked() && Ready(Chain()) && lineage == Chain() && i < |lineage|
      ensures var v := FirstVisited(lineage, name, i);
              if e.Some? then v.Some? && e == Some(lineage[v.value].flagSet.formal[name])
              else v == FirstVisited(lineage, name, i + 1)
    {
      ChainSuffix(i);
      DeclaringShift(lineage, name, i);
      VisitedStep(lineage, name, i);
      var fs := lineage[i].LookupFlagSet(name);
      e := None;
      if fs != null {
        e := FlagSetLookupWithValueSet(fs, name);
      }
    }

    /** `Value`: the `Get()` of the entry the name resolves to, nil when no scope
        visited it. */
    method Value(name: string) returns (v: Option<Got>)
      requires Linked() && Ready(Chain())
      ensures Resolved(name).None? ==> v.None?
      ensures Resolved(name).Some? ==> v == Some(Get(Resolved(name).value.cell))
    {
      var f := Resolve(name);
      if f.Some? {
        return Some(Get(f.value.cell));
      }
      return None;
    }

    /** `IsSet`: whether some scope of the lineage, or the app, reports `name`. */
    method IsSet(name: string) returns (found: bool)
      requires Linked() && Ready(Chain())
      ensures found <==> name in SetNamesOf(Chain())
    {
      ChainAllocated();
      ChainObjectsAllocated(Chain());
      var lineage := Lineage();
      found := LineageIsSet(lineage, name);
      LineageKept(lineage);
      if !found {
        found := AppIsSet(name);
      }
      SetNamesKept(lineage);
    }

    /** The app part of `IsSet`. */
    method AppIsSet(name: string) returns (found: bool)
      requires flagSet != null && flagSet.Valid()
      ensures found <==> name in AppSetNames(this)
    {
      if app != null {
        var claimed := AnyFlagClaims(app.flags, name);
        if claimed {
          return true;
        }
        var f := FlagSetLookupWithValueSet(flagSet, name);
        if f.Some? {
          return true;
        }
      }
      return false;
    }

    /** `checkRequiredFlags`: nil when nothing is missing, otherwise one error listing
        every missing name in flag order. */
    method CheckRequiredFlags(flags: seq<Flag>) returns (err: Option<Error>)
      requires Linked() && Ready(Chain())
      ensures err.None? <==> Missing(SetNamesOf(Chain()), flags) == []
      ensures err.Some? ==> err == Some(RequiredFlags(Missing(SetNamesOf(Chain()), flags)))
    {
      ChainAllocated();
      ChainObjectsAllocated(Chain());
      ghost var reported := SetNamesOf(Chain());
      var missingFlags: seq<string> := [];
      for i := 0 to |flags|
        invariant Ready(Chain()) && SetNamesOf(Chain()) == reported
        invariant missingFlags == Missing(reported, flags[..i])
      {
        assert flags[..i + 1][..i] == flags[..i];
        var f := flags[i];
        if f.IsRequired() {
          var flagName, flagPresent := RequiredNames(f.Names());
          SetNamesKept(Chain());
          if !flagPresent && flagName != "" {
            missingFlags := missingFlags + [flagName];
          }
        }
      }
      assert flags[..|flags|] == flags;
      if |missingFlags| != 0 {
        return Some(RequiredFlags(missingFlags));
      }
      return None;
    }

    /** The loop of `checkRequiredFlags` over the names of one required flag: the name
        to report, and whether some name, trimmed, is set. */
    method RequiredNames(names: seq<string>) returns (flagName: string, flagPresent: bool)
      requires Linked() && Ready(Chain())
      ensures flagName == ReportedName(names)
      ensures flagPresent <==> AnyFormSet(SetNamesOf(Chain()), names)
    {
      ghost var reported := SetNamesOf(Chain());
      flagPresent := false;
      flagName := "";
      for j := 0 to |names|
        invariant Ready(Chain()) && SetNamesOf(Chain()) == reported
        invariant flagName == ReportedName(names[..j])
        invariant flagPresent <==> AnyFormSet(reported, names[..j])
      {
        assert names[..j + 1][..j] == names[..j];
        if |names[j]| > 1 {
          flagName := names[j];
        }
        var present := TrimmedIsSet(names[j]);
        if present {
          flagPresent := true;
        }
      }
      assert names[..|names|] == names;
    }

    /** `IsSet` on one name of a required flag, trimmed; it changes nothing the
        reported names depend on. */
    method TrimmedIsSet(name: string) returns (present: bool)
      requires Linked() && Ready(Chain())
      ensures Ready(Chain()) && SetNamesOf(Chain()) == old(SetNamesOf(Chain()))
      ensures present <==> TrimSpace(name) in SetNamesOf(Chain())
    {
      ChainAllocated();
      ChainObjectsAllocated(Chain());
      present := IsSet(TrimSpace(name));
      SetNamesKept(Chain());
    }

    /** `Context.Bool`: the boolean the name resolves to, false when no scope visited
        it; through a boolean cell it is the stored value. */
    method Bool(name: string) returns (r: bool)
      requires Linked() && Ready(Chain())
      ensures Resolved(name).None? ==> !r
      ensures Resolved(name).Some? ==> r == LookupBool(Resolved(name).value.cell)
      ensures Resolved(name).Some? && Resolved(name).value.cell.BoolCell? ==> r == Resolved(name).value.cell.b.val
    {
      var f := Resolve(name);
      if f.Some? {
        return LookupBool(f.value.cell);
      }
      return false;
    }

    /** `Context.Uint64`: the number the name resolves to, 0 when no scope visited it;
        through an unsigned cell it is the stored value. */
    method Uint64(name: string) returns (r: Uint64)
      requires Linked() && Ready(Chain())
      ensures Resolved(name).None? ==> r == 0
      ensures Resolved(name).Some? ==> r == LookupUint64(Resolved(name).value.cell)
      ensures Resolved(name).Some? && Resolved(name).value.cell.Uint64Cell? ==> r == Resolved(name).value.cell.u.val
    {
      var f := Resolve(name);
      if f.Some? {
        return LookupUint64(f.value.cell);
      }
      return 0;
    }

    /** `Context.Path`: the rendering of the cell the name resolves to, "" when no scope
        visited it; through a string cell it is the stored string unchanged. */
    method Path(name: string) returns (r: string)
      requires Linked() && Ready(Chain())
      ensures Resolved(name).None? ==> r == ""
      ensures Resolved(name).Some? ==> r == LookupPath(Resolved(name).value.cell)
      ensures Resolved(name).Some? && Resolved(name).value.cell.StringCell? ==> r == Resolved(name).value.cell.s.val
    {
      var f := Resolve(name);
      if f.Some? {
        return LookupPath(f.value.cell);
      }
      return "";
    }

    /** `Context.Choice`: the value held by the choice cell the name resolves to; nil
        when no scope visited it or the cell is not a choice cell. */
    method Choice(name: string) returns (r: Any)
      requires Linked() && Ready(Chain())
      ensures Resolved(name).None? ==> r == Nil
      ensures Resolved(name).Some? && Resolved(name).value.cell.ChoiceCell? ==> r == Resolved(name).value.cell.cv.Value()
      ensures Resolved(name).Some? && !Resolved(name).value.cell.ChoiceCell? ==> r == Nil
    {
      var v := Value(name);
      if v.Some? && v.value.GotChoice? {
        return v.value.cv.Value();
      }
      return Nil;
    }
  }
}
