/** flag_choice.go: the choice flag kind, whose value is one of a registry's values,
    entered on the command line by its token. */
module FlagChoice {
  import opened Wrappers
  import opened Errors
  import opened Choices
  import opened FlagSets
  import opened FlagHelpers

  class ChoiceFlag {
    const name: string
    const aliases: seq<string>
    /** The default value: any `interface{}`. */
    var value: Iface
    /** The registry; `None` is a nil `Choice`. */
    const choice: Option<Registry>
    const envVars: seq<string>
    const filePath: string
    const usage: string
    const required: bool
    /** Where to store the value; `Plain(Nil)` is no destination. */
    const destination: Iface
    var hasBeenSet: bool

    /** A `ChoiceFlag{...}` literal; nothing has set it yet. */
    constructor (name: string, aliases: seq<string>, value: Iface, choice: Option<Registry>, envVars: seq<string>,
                 filePath: string, usage: string, required: bool, destination: Iface)
      ensures this.name == name && this.aliases == aliases && this.value == value && this.choice == choice
      ensures this.envVars == envVars && this.filePath == filePath && this.usage == usage
      ensures this.required == required && this.destination == destination && !hasBeenSet
    {
      this.name := name;
      this.aliases := aliases;
      this.value := value;
      this.choice := choice;
      this.envVars := envVars;
      this.filePath := filePath;
      this.usage := usage;
      this.required := required;
      this.destination := destination;
      hasBeenSet := false;
    }

    /** `Names`: unlike the other kinds, the aliases come first, `Name` last, and no
        name is cut at a comma or space. */
    function Names(): (r: seq<string>)
      ensures |r| == |aliases| + 1 && r[|aliases|] == name
      ensures forall i :: 0 <= i < |aliases| ==> r[i] == aliases[i]
    {
      aliases + [name]
    }

    /** `IsSet`: whether the environment or a file supplied the value; only `Apply` sets it. */
    function IsSet(): (r: bool)
      reads this
      ensures r <==> hasBeenSet
    {
      hasBeenSet
    }

    /** `TakesValue`: the flag needs an argument. */
    function TakesValue(): (r: bool)
      ensures r
    {
      true
    }

    /** `GetValue`: the token of the current value; the empty string for a value the
        registry does not hold or a pointer. A non-empty token decodes to the value,
        and every registered value yields a token that decodes to it. A nil `Choice`
        makes Go panic here, so it is excluded. */
    function GetValue(): (r: string)
      requires choice.Some?
      reads this
      ensures Valid(choice.value) && r != "" ==> value.Plain? && FromString(choice.value, r) == value.v
      ensures Valid(choice.value) && value.Plain? && value.v in choice.value.vMap.Values ==>
                FromString(choice.value, r) == value.v
    {
      if value.Plain? then ToString(choice.value, value.v) else ""
    }

    /** The value `flagFromEnvOrFile` would hand to Apply. */
    function Source(env: map<string, string>, files: map<string, string>): Option<string> {
      EnvOrFile(env, files, envVars, filePath)
    }

    /** Whether Apply gets past the registry and the source value: a registry is
        present, and a source value, if any, is a known token. */
    predicate Accepts(env: map<string, string>, files: map<string, string>) {
      var src := Source(env, files);
      choice.Some? && (src.Some? ==> FromString(choice.value, src.value) != Nil)
    }

    /** The cell every name is declared with once the value is settled: over the
        destination pointer when there is one, otherwise over the value itself. */
    function CellFor(): ChoiceValue
      requires choice.Some?
      reads this
    {
      if destination.Ptr? then ChoiceValue(Indirect(destination.p), choice.value)
      else NewChoiceValue(choice.value, value)
    }

    /** `Apply`: a nil registry is an error; an environment or file value must be a
        known token (otherwise `errParse`) and becomes the value; then each name is
        declared, swapping the value into the destination when there is one. A
        destination that is not a non-nil pointer fails on the first name, after the
        value was already taken. The model's values hold no pointers, so a pointer
        default that would be written into a destination is excluded (in Go that
        write panics unless the destination points to an interface). */
    method Apply(fs: FlagSet, env: map<string, string>, files: map<string, string>) returns (err: Option<Error>)
      requires fs.Valid() && (Accepts(env, files) && (destination.Ptr? || destination == Plain(Nil)) ==> FreshNames(Names(), fs.formal))
      requires choice.Some? && destination.Ptr? && !value.Plain? ==> Source(env, files).Some?
      modifies this, fs, if destination.Ptr? then {destination.p} else {}
      ensures fs.Valid() && fs.actual == old(fs.actual)
      ensures !Accepts(env, files) ==> fs.formal == old(fs.formal) && value == old(value) && hasBeenSet == old(hasBeenSet)
      ensures !Accepts(env, files) && destination.Ptr? ==> destination.p.val == old(destination.p.val)
      ensures choice.None? ==> err == Some(ChoiceMissing)
      ensures choice.Some? && !Accepts(env, files) ==> err == Some(Parse)
      ensures Accepts(env, files) && Source(env, files).Some? ==>
                value == Plain(FromString(choice.value, Source(env, files).value)) && hasBeenSet
      ensures Accepts(env, files) && Source(env, files).None? ==> value == old(value) && hasBeenSet == old(hasBeenSet)
      ensures Accepts(env, files) && destination.NilPtr? ==>
                err == Some(SwapFailed(DestinationNil)) && fs.formal == old(fs.formal)
      ensures Accepts(env, files) && destination.Plain? && destination != Plain(Nil) ==>
                err == Some(SwapFailed(DestinationNotPointer)) && fs.formal == old(fs.formal)
      ensures Accepts(env, files) && (destination.Ptr? || destination == Plain(Nil)) ==>
                && err == None
                && fs.formal.Keys == old(fs.formal).Keys + (set k | 0 <= k < |Names()| :: Names()[k])
                && (forall n :: n in old(fs.formal) ==> fs.formal[n] == old(fs.formal)[n])
                && (forall k :: 0 <= k < |Names()| ==> fs.formal[Names()[k]] == Entry(ChoiceCell(CellFor()), usage))
      ensures Accepts(env, files) && destination.Ptr? ==>
                destination.p.val == if value.v != Nil then value.v else old(destination.p.val)
    {
      if choice.None? {
        return Some(ChoiceMissing);
      }
      var v, ok := FlagFromEnvOrFile(env, files, envVars, filePath);
      if ok {
        var d := FromString(choice.value, v);
        if d == Nil {
          return Some(Parse);
        }
        value := Plain(d);
        hasBeenSet := true;
      }
      err := Declare(fs, Names());
    }

    /** The loop of `Apply` that declares each name with the settled value; a bad
        destination fails on the first name. */
    method Declare(fs: FlagSet, names: seq<string>) returns (err: Option<Error>)
      requires choice.Some? && fs.Valid() && |names| > 0
      requires destination.Ptr? || destination == Plain(Nil) ==> FreshNames(names, fs.formal)
      requires destination.Ptr? ==> value.Plain?
      modifies fs, if destination.Ptr? then {destination.p} else {}
      ensures fs.Valid() && fs.actual == old(fs.actual)
      ensures destination.NilPtr? ==> err == Some(SwapFailed(DestinationNil)) && fs.formal == old(fs.formal)
      ensures destination.Plain? && destination != Plain(Nil) ==>
                err == Some(SwapFailed(DestinationNotPointer)) && fs.formal == old(fs.formal)
      ensures destination.Ptr? || destination == Plain(Nil) ==>
                && err == None
                && fs.formal.Keys == old(fs.formal).Keys + (set k | 0 <= k < |names| :: names[k])
                && (forall n :: n in old(fs.formal) ==> fs.formal[n] == old(fs.formal)[n])
                && (forall k :: 0 <= k < |names| ==> fs.formal[names[k]] == Entry(ChoiceCell(CellFor()), usage))
      ensures destination.Ptr? ==> destination.p.val == if value.v != Nil then value.v else old(destination.p.val)
    {
      for i := 0 to |names|
        invariant fs.actual == old(fs.actual)
        invariant i > 0 ==> destination.Ptr? || destination == Plain(Nil)
        invariant fs.formal.Keys == old(fs.formal).Keys + set k | 0 <= k < i :: names[k]
        invariant forall n :: n in old(fs.formal) ==> fs.formal[n] == old(fs.formal)[n]
        invariant forall k :: 0 <= k < i ==> fs.formal[names[k]] == Entry(ChoiceCell(CellFor()), usage)
        invariant destination.Ptr? ==>
                    destination.p.val == if i > 0 && value.v != Nil then value.v else old(destination.p.val)
      {
        if destination != Plain(Nil) {
          var cv, e := NewChoiceValueSwap(choice.value, value, destination);
          if e.Some? {
            return Some(SwapFailed(e.value));
          }
          fs.Var(ChoiceCell(cv.value), names[i], usage);
          continue;
        }
        fs.Var(ChoiceCell(NewChoiceValue(choice.value, value)), names[i], usage);
      }
      return None;
    }
  }
}
