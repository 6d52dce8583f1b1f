/** flag_path.go: the path flag kind (a string naming a file) and its lookup. */
module FlagPath {
  import opened Wrappers
  import opened Text
  import opened Errors
  import opened Pointers
  import opened FlagSets
  import opened FlagHelpers
  import opened Choices

  class PathFlag {
    const name: string
    const aliases: seq<string>
    const usage: string
    const envVars: seq<string>
    const filePath: string
    const required: bool
    var value: string
    const destination: Ref?<string>
    var hasBeenSet: bool

    /** A `PathFlag{...}` literal; nothing has set it yet. */
    constructor (name: string, aliases: seq<string>, usage: string, envVars: seq<string>, filePath: string,
                 required: bool, value: string, destination: Ref?<string>)
      ensures this.name == name && this.aliases == aliases && this.usage == usage
      ensures this.envVars == envVars && this.filePath == filePath && this.required == required
      ensures this.value == value && this.destination == destination && !hasBeenSet
    {
      this.name := name;
      this.aliases := aliases;
      this.usage := usage;
      this.envVars := envVars;
      this.filePath := filePath;
      this.required := required;
      this.value := value;
      this.destination := destination;
      hasBeenSet := false;
    }

    /** `Names`: one name per input, in order, `Name` first, each cut as `flagNames` cuts it. */
    function Names(): (r: seq<string>)
      ensures |r| == |aliases| + 1 && r[0] == CutAtCommaOrSpace(name)
      ensures forall i :: 0 <= i < |aliases| ==> r[i + 1] == CutAtCommaOrSpace(aliases[i])
    {
      NameFormsShape(name, aliases);
      NameForms(name, aliases)
    }

    /** `IsSet`: whether the environment or a file supplied the value; only `Apply` sets it. */
    function IsSet(): (r: bool)
      reads this
      ensures r <==> hasBeenSet
    {
      hasBeenSet
    }

    /** `TakesValue`: the flag needs an argument. */
    function TakesValue(): (r: bool)
      ensures r
    {
      true
    }

    /** `GetValue`: the path as given, with no quoting or cleaning. */
    function GetValue(): (r: string)
      reads this
      ensures r == value
    {
      value
    }

    /** The value `flagFromEnvOrFile` would hand to Apply. */
    function Source(env: map<string, string>, files: map<string, string>): Option<string> {
      EnvOrFile(env, files, envVars, filePath)
    }

    /** `Apply`: any environment or file value, even an empty one, becomes the value;
        then every name is declared over the destination when there is one, otherwise
        over a fresh variable per name. Go tests the destination inside the loop; it is
        the same for every name, so the model tests it once and runs one of two loops. */
    method Apply(fs: FlagSet, env: map<string, string>, files: map<string, string>) returns (err: Option<Error>)
      requires fs.Valid() && FreshNames(Names(), fs.formal)
      modifies this, fs, destination
      ensures fs.Valid() && fs.actual == old(fs.actual) && err == None
      ensures var src := Source(env, files);
              if src.Some? then value == src.value && hasBeenSet
              else value == old(value) && hasBeenSet == old(hasBeenSet)
      ensures fs.formal.Keys == old(fs.formal).Keys + set k | 0 <= k < |Names()| :: Names()[k]
      ensures forall n :: n in old(fs.formal) ==> fs.formal[n] == old(fs.formal)[n]
      ensures forall k :: 0 <= k < |Names()| ==>
                && fs.formal[Names()[k]].usage == usage && fs.formal[Names()[k]].cell.StringCell?
                && fs.formal[Names()[k]].cell.s.val == value
                && (if destination != null then fs.formal[Names()[k]].cell.s == destination
                    else fresh(fs.formal[Names()[k]].cell.s))
      ensures destination == null ==> forall i, j :: 0 <= i < j < |Names()| ==>
                fs.formal[Names()[i]].cell.s != fs.formal[Names()[j]].cell.s
    {
      var val, ok := FlagFromEnvOrFile(env, files, envVars, filePath);
      if ok {
        value := val;
        hasBeenSet := true;
      }
      Declare(fs);
      return None;
    }

    /** The registration loop of `Apply`: every name over the destination when there
        is one, otherwise over a fresh variable per name. */
    method Declare(fs: FlagSet)
      requires fs.Valid() && FreshNames(Names(), fs.formal)
      modifies fs, destination
      ensures fs.Valid() && fs.actual == old(fs.actual)
      ensures fs.formal.Keys == old(fs.formal).Keys + set k | 0 <= k < |Names()| :: Names()[k]
      ensures forall n :: n in old(fs.formal) ==> fs.formal[n] == old(fs.formal)[n]
      ensures forall k :: 0 <= k < |Names()| ==>
                && fs.formal[Names()[k]].usage == usage && fs.formal[Names()[k]].cell.StringCell?
                && fs.formal[Names()[k]].cell.s.val == value
                && (if destination != null then fs.formal[Names()[k]].cell.s == destination
                    else fresh(fs.formal[Names()[k]].cell.s))
      ensures destination == null ==> forall i, j :: 0 <= i < j < |Names()| ==>
                fs.formal[Names()[i]].cell.s != fs.formal[Names()[j]].cell.s
    {
      var names := FlagNames(name, aliases);
      if destination != null {
        DeclareShared(fs, names, destination);
      } else {
        DeclareOwned(fs, names);
      }
    }

    /** The loop of `Apply` without a destination: `String` allocates a variable per name. */
    method DeclareOwned(fs: FlagSet, names: seq<string>)
      requires fs.Valid() && FreshNames(names, fs.formal)
      modifies fs
      ensures fs.Valid() && fs.actual == old(fs.actual)
      ensures fs.formal.Keys == old(fs.formal).Keys + set k | 0 <= k < |names| :: names[k]
      ensures forall n :: n in old(fs.formal) ==> fs.formal[n] == old(fs.formal)[n]
      ensures forall k :: 0 <= k < |names| ==>
                && fs.formal[names[k]].usage == usage && fs.formal[names[k]].cell.StringCell?
                && fs.formal[names[k]].cell.s.val == value && fresh(fs.formal[names[k]].cell.s)
      ensures forall i, j :: 0 <= i < j < |names| ==> fs.formal[names[i]].cell.s != fs.formal[names[j]].cell.s
    {
      ghost var refs: seq<Ref<string>> := [];
      for i := 0 to |names|
        invariant fs.actual == old(fs.actual)
        invariant fs.formal.Keys == old(fs.formal).Keys + set k | 0 <= k < i :: names[k]
        invariant forall n :: n in old(fs.formal) ==> fs.formal[n] == old(fs.formal)[n]
        invariant |refs| == i
        invariant forall k :: 0 <= k < i ==>
                    fs.formal[names[k]] == Entry(StringCell(refs[k]), usage) && refs[k].val == value && fresh(refs[k])
        invariant forall a, b :: 0 <= a < b < i ==> refs[a] != refs[b]
      {
        var p := fs.String(names[i], value, usage);
        assert forall k :: 0 <= k < i ==> refs[k] != p;
        refs := refs + [p];
      }
    }

    /** The loop of `Apply` with a destination: every name shares it through `StringVar`. */
    method DeclareShared(fs: FlagSet, names: seq<string>, dest: Ref<string>)
      requires fs.Valid() && FreshNames(names, fs.formal)
      modifies fs, dest
      ensures fs.Valid() && fs.actual == old(fs.actual)
      ensures fs.formal.Keys == old(fs.formal).Keys + set k | 0 <= k < |names| :: names[k]
      ensures forall n :: n in old(fs.formal) ==> fs.formal[n] == old(fs.formal)[n]
      ensures forall k :: 0 <= k < |names| ==> fs.formal[names[k]] == Entry(StringCell(dest), usage)
      ensures |names| > 0 ==> dest.val == value
      ensures |names| == 0 ==> dest.val == old(dest.val)
    {
      for i := 0 to |names|
        invariant fs.actual == old(fs.actual)
        invariant fs.formal.Keys == old(fs.formal).Keys + set k | 0 <= k < i :: names[k]
        invariant forall n :: n in old(fs.formal) ==> fs.formal[n] == old(fs.formal)[n]
        invariant forall k :: 0 <= k < i ==> fs.formal[names[k]] == Entry(StringCell(dest), usage)
        invariant dest.val == if i > 0 then value else old(dest.val)
      {
        fs.StringVar(dest, names[i], value, usage);
      }
    }
  }

  /** `lookupPath`: the cell's rendering, which cannot fail. On a string cell this is
      exactly the stored text; on a choice cell it is the token of the stored value. */
  function LookupPath(cell: Cell): (r: string)
    reads cell.Objects()
    ensures cell.StringCell? ==> r == cell.s.val
    ensures cell.ChoiceCell? && Valid(cell.cv.choice) && r != "" ==> FromString(cell.cv.choice, r) == cell.cv.Value()
  {
    cell.String()
  }
}
