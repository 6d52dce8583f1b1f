/** flag_uint64.go: the unsigned 64-bit flag kind and its lookup. */
module FlagUint64 {
  import opened Wrappers
  import opened Text
  import opened Errors
  import opened Pointers
  import opened FlagSets
  import opened FlagHelpers

  class Uint64Flag {
    const name: string
    const aliases: seq<string>
    const usage: string
    const envVars: seq<string>
    const filePath: string
    const required: bool
    var value: Uint64
    const destination: Ref?<Uint64>
    var hasBeenSet: bool

    /** A `Uint64Flag{...}` literal; nothing has set it yet. */
    constructor (name: string, aliases: seq<string>, usage: string, envVars: seq<string>, filePath: string,
                 required: bool, value: Uint64, destination: Ref?<Uint64>)
      ensures this.name == name && this.aliases == aliases && this.usage == usage
      ensures this.envVars == envVars && this.filePath == filePath && this.required == required
      ensures this.value == value && this.destination == destination && !hasBeenSet
    {
      this.name := name;
      this.aliases := aliases;
      this.usage := usage;
      this.envVars := envVars;
      this.filePath := filePath;
      this.required := required;
      this.value := value;
      this.destination := destination;
      hasBeenSet := false;
    }

    /** `Names`: one name per input, in order, `Name` first, each cut as `flagNames` cuts it. */
    function Names(): (r: seq<string>)
      ensures |r| == |aliases| + 1 && r[0] == CutAtCommaOrSpace(name)
      ensures forall i :: 0 <= i < |aliases| ==> r[i + 1] == CutAtCommaOrSpace(aliases[i])
    {
      NameFormsShape(name, aliases);
      NameForms(name, aliases)
    }

    /** `IsSet`: whether the environment or a file supplied the value; only `Apply` sets it. */
    function IsSet(): (r: bool)
      reads this
      ensures r <==> hasBeenSet
    {
      hasBeenSet
    }

    /** `TakesValue`: the flag needs an argument. */
    function TakesValue(): (r: bool)
      ensures r
    {
      true
    }

    /** `GetValue`: the value in decimal, which parses back to the value. */
    function GetValue(): (r: string)
      reads this
      ensures ParseUint64(r) == Num(value)
      ensures forall i :: 0 <= i < |r| ==> '0' <= r[i] <= '9'
    {
      FormatParses(value);
      FormatUint64(value)
    }

    /** The value `flagFromEnvOrFile` would hand to Apply. */
    function Source(env: map<string, string>, files: map<string, string>): Option<string> {
      EnvOrFile(env, files, envVars, filePath)
    }

    /** Whether Apply rejects the source value: present, non-empty and not an unsigned 64-bit number. */
    predicate Rejects(env: map<string, string>, files: map<string, string>) {
      var src := Source(env, files);
      src.Some? && src.value != "" && !ParseUint64(src.value).Num?
    }

    /** `Apply`: take a non-empty environment or file value (an unparsable one is an
        error that registers nothing), then declare every name over the destination
        when there is one, otherwise over a fresh variable per name. Go tests the
        destination inside the loop; it is the same for every name, so the model tests
        it once and runs one of two loops. */
    method Apply(fs: FlagSet, env: map<string, string>, files: map<string, string>) returns (err: Option<Error>)
      requires fs.Valid() && (!Rejects(env, files) ==> FreshNames(Names(), fs.formal))
      modifies this, fs, destination
      ensures fs.Valid() && fs.actual == old(fs.actual)
      ensures var src := Source(env, files);
              if Rejects(env, files) then
                && err == Some(BadUint64(src.value, name))
                && value == old(value) && hasBeenSet == old(hasBeenSet)
                && fs.formal == old(fs.formal) && (destination != null ==> destination.val == old(destination.val))
              else if src.Some? && src.value != "" then
                err == None && value == ParseUint64(src.value).n && hasBeenSet
              else
                err == None && value == old(value) && hasBeenSet == old(hasBeenSet)
      ensures err.None? ==> fs.formal.Keys == old(fs.formal).Keys + set k | 0 <= k < |Names()| :: Names()[k]
      ensures err.None? ==> forall n :: n in old(fs.formal) ==> fs.formal[n] == old(fs.formal)[n]
      ensures err.None? ==> forall k :: 0 <= k < |Names()| ==>
                && fs.formal[Names()[k]].usage == usage && fs.formal[Names()[k]].cell.Uint64Cell?
                && fs.formal[Names()[k]].cell.u.val == value
                && (if destination != null then fs.formal[Names()[k]].cell.u == destination
                    else fresh(fs.formal[Names()[k]].cell.u))
      ensures err.None? && destination == null ==> forall i, j :: 0 <= i < j < |Names()| ==>
                fs.formal[Names()[i]].cell.u != fs.formal[Names()[j]].cell.u
    {
      var val, ok := FlagFromEnvOrFile(env, files, envVars, filePath);
      ghost var src := Source(env, files);
      assert ok == src.Some? && val == src.GetOr("");
      if ok && val != "" {
        var valInt := ParseUint64(val);
        if !valInt.Num? {
          assert Rejects(env, files);
          return Some(BadUint64(val, name));
        }
        value := valInt.n;
        hasBeenSet := true;
      }
      assert !Rejects(env, files);
      Declare(fs);
      return None;
    }

    /** The registration loop of `Apply`: every name over the destination when there
        is one, otherwise over a fresh variable per name. */
    method Declare(fs: FlagSet)
      requires fs.Valid() && FreshNames(Names(), fs.formal)
      modifies fs, destination
      ensures fs.Valid() && fs.actual == old(fs.actual)
      ensures fs.formal.Keys == old(fs.formal).Keys + set k | 0 <= k < |Names()| :: Names()[k]
      ensures forall n :: n in old(fs.formal) ==> fs.formal[n] == old(fs.formal)[n]
      ensures forall k :: 0 <= k < |Names()| ==>
                && fs.formal[Names()[k]].usage == usage && fs.formal[Names()[k]].cell.Uint64Cell?
                && fs.formal[Names()[k]].cell.u.val == value
                && (if destination != null then fs.formal[Names()[k]].cell.u == destination
                    else fresh(fs.formal[Names()[k]].cell.u))
      ensures destination == null ==> forall i, j :: 0 <= i < j < |Names()| ==>
                fs.formal[Names()[i]].cell.u != fs.formal[Names()[j]].cell.u
    {
      var names := FlagNames(name, aliases);
      if destination != null {
        DeclareShared(fs, names, destination);
      } else {
        DeclareOwned(fs, names);
      }
    }

    /** The loop of `Apply` without a destination: `Uint64` allocates a variable per name. */
    method DeclareOwned(fs: FlagSet, names: seq<string>)
      requires fs.Valid() && FreshNames(names, fs.formal)
      modifies fs
      ensures fs.Valid() && fs.actual == old(fs.actual)
      ensures fs.formal.Keys == old(fs.formal).Keys + set k | 0 <= k < |names| :: names[k]
      ensures forall n :: n in old(fs.formal) ==> fs.formal[n] == old(fs.formal)[n]
      ensures forall k :: 0 <= k < |names| ==>
                && fs.formal[names[k]].usage == usage && fs.formal[names[k]].cell.Uint64Cell?
                && fs.formal[names[k]].cell.u.val == value && fresh(fs.formal[names[k]].cell.u)
      ensures forall i, j :: 0 <= i < j < |names| ==> fs.formal[names[i]].cell.u != fs.formal[names[j]].cell.u
    {
      ghost var refs: seq<Ref<Uint64>> := [];
      for i := 0 to |names|
        invariant fs.actual == old(fs.actual)
        invariant fs.formal.Keys == old(fs.formal).Keys + set k | 0 <= k < i :: names[k]
        invariant forall n :: n in old(fs.formal) ==> fs.formal[n] == old(fs.formal)[n]
        invariant |refs| == i
        invariant forall k :: 0 <= k < i ==>
                    fs.formal[names[k]] == Entry(Uint64Cell(refs[k]), usage) && refs[k].val == value && fresh(refs[k])
        invariant forall a, b :: 0 <= a < b < i ==> refs[a] != refs[b]
      {
        var p := fs.Uint64(names[i], value, usage);
        assert forall k :: 0 <= k < i ==> refs[k] != p;
        refs := refs + [p];
      }
    }

    /** The loop of `Apply` with a destination: every name shares it through `Uint64Var`. */
    method DeclareShared(fs: FlagSet, names: seq<string>, dest: Ref<Uint64>)
      requires fs.Valid() && FreshNames(names, fs.formal)
      modifies fs, dest
      ensures fs.Valid() && fs.actual == old(fs.actual)
      ensures fs.formal.Keys == old(fs.formal).Keys + set k | 0 <= k < |names| :: names[k]
      ensures forall n :: n in old(fs.formal) ==> fs.formal[n] == old(fs.formal)[n]
      ensures forall k :: 0 <= k < |names| ==> fs.formal[names[k]] == Entry(Uint64Cell(dest), usage)
      ensures |names| > 0 ==> dest.val == value
      ensures |names| == 0 ==> dest.val == old(dest.val)
    {
      for i := 0 to |names|
        invariant fs.actual == old(fs.actual)
        invariant fs.formal.Keys == old(fs.formal).Keys + set k | 0 <= k < i :: names[k]
        invariant forall n :: n in old(fs.formal) ==> fs.formal[n] == old(fs.formal)[n]
        invariant forall k :: 0 <= k < i ==> fs.formal[names[k]] == Entry(Uint64Cell(dest), usage)
        invariant dest.val == if i > 0 then value else old(dest.val)
      {
        fs.Uint64Var(dest, names[i], value, usage);
      }
    }
  }

  /** `lookupUint64`: parse the cell's rendering, 0 when it does not parse. On an
      unsigned cell this is exactly the stored value. */
  function LookupUint64(cell: Cell): (r: Uint64)
    reads cell.Objects()
    ensures cell.Uint64Cell? ==> r == cell.u.val
    ensures !ParseUint64(cell.String()).Num? ==> r == 0
  {
    var parsed := ParseUint64(cell.String());
    assert cell.Uint64Cell? ==> parsed == Num(cell.u.val) by {
      if cell.Uint64Cell? {
        FormatParses(cell.u.val);
      }
    }
    if parsed.Num? then parsed.n else 0
  }
}
