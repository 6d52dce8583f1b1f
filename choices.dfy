/** The choice registry (`defaultChoice`) and the choice-binding cell (`choiceValue`)
    of flag_choice.go. Go moves choice values around as `interface{}` and writes them
    through `reflect`; here the values are the datatype `Any`, the interface fields that
    may hold a pointer are `Iface`, and the reflected storage is the sum type `Storage`. */
module Choices {
  import opened Wrappers
  import opened Errors
  import opened Pointers

  /** A non-pointer Go value that a choice may map to: `nil`, a string, or any
      other comparable value, known only by its identity. */
  datatype Any = Nil | Str(s: string) | Opaque(id: int)

  /** What an `interface{}` field such as `ChoiceFlag.Value` or `ChoiceFlag.Destination`
      holds: a plain value (`Plain(Nil)` is the nil interface), a typed nil pointer,
      or a pointer to a variable. */
  datatype Iface = Plain(v: Any) | NilPtr | Ptr(p: Ref<Any>)

  /** `defaultChoice`: the caller's token-to-value table, its inverse and the tokens. */
  datatype Registry = Registry(vMap: map<string, Any>, sMap: map<Any, string>, ss: seq<string>)

  ghost predicate Distinct(ss: seq<string>) {
    forall i, j :: 0 <= i < j < |ss| ==> ss[i] != ss[j]
  }

  /** The table maps distinct tokens to distinct values: the documented precondition of NewChoice. */
  ghost predicate Injective(m: map<string, Any>) {
    forall a, b :: a in m && b in m && a != b ==> m[a] != m[b]
  }

  /** What `init` establishes: the reverse table covers exactly the mapped values and
      sends each back to one token mapping to it, and the tokens are listed once each. */
  ghost predicate Valid(c: Registry) {
    && c.sMap.Keys == c.vMap.Values
    && (forall v :: v in c.sMap ==> c.sMap[v] in c.vMap && c.vMap[c.sMap[v]] == v)
    && Distinct(c.ss)
    && (forall k :: k in c.vMap <==> k in c.ss)
  }

  /** `NewChoice` with `defaultChoice.init`: one pass over the table (in Go's unspecified
      map order) fills the reverse table, a second fills the token array with a counter. */
  method NewChoice(v: map<string, Any>) returns (c: Registry)
    ensures c.vMap == v && Valid(c)
    ensures |c.ss| == |v|
  {
    var sMap := InvertTable(v);
    var ss := ListTokens(v);
    c := Registry(v, sMap, ss);
  }

  /** The first loop of `init`: every value points back at the last key seen for it. */
  method InvertTable(v: map<string, Any>) returns (sMap: map<Any, string>)
    ensures sMap.Keys == v.Values
    ensures forall x :: x in sMap ==> sMap[x] in v && v[sMap[x]] == x
  {
    sMap := map[];
    var rest := v.Keys;
    while rest != {}
      invariant rest <= v.Keys
      invariant sMap.Keys == set k | k in v.Keys - rest :: v[k]
      invariant forall x :: x in sMap ==> sMap[x] in v && v[sMap[x]] == x
      decreases rest
    {
      var k :| k in rest;
      sMap := sMap[v[k] := k];
      rest := rest - {k};
    }
    forall x | x in v.Values ensures x in sMap.Keys {
      var k :| k in v && v[k] == x;
      assert k in v.Keys - rest;
    }
  }

  /** The second loop of `init`: the keys written into an array of `len(v)` slots with a counter. */
  method ListTokens(v: map<string, Any>) returns (tokens: seq<string>)
    ensures Distinct(tokens) && |tokens| == |v|
    ensures forall k :: k in v <==> k in tokens
  {
    var ss := new string[|v.Keys|];
    var i := 0;
    var rest := v.Keys;
    while rest != {}
      invariant rest <= v.Keys
      invariant i + |rest| == |v.Keys|
      invariant forall a, b :: 0 <= a < b < i ==> ss[a] != ss[b]
      invariant forall k :: k in ss[..i] <==> k in v.Keys - rest
      decreases rest
    {
      var k :| k in rest;
      forall a | 0 <= a < i ensures ss[a] != k {
        assert ss[a] in ss[..i];
      }
      ss[i] := k;
      i := i + 1;
      rest := rest - {k};
      assert ss[..i] == ss[..i - 1] + [k];
    }
    assert ss[..] == ss[..i];
    tokens := ss[..];
  }

  /** `NewStringChoice`: each string is both a token and its own value. */
  method NewStringChoice(ss: seq<string>) returns (c: Registry)
    ensures Valid(c) && Injective(c.vMap)
    ensures forall s :: FromString(c, s) == (if s in ss then Str(s) else Nil)
    ensures forall s :: s in ss ==> ToString(c, Str(s)) == s
  {
    var m: map<string, Any> := map[];
    for i := 0 to |ss|
      invariant m == map s | s in ss[..i] :: Str(s)
    {
      assert ss[..i + 1] == ss[..i] + [ss[i]];
      m := m[ss[i] := Str(ss[i])];
    }
    assert ss[..|ss|] == ss;
    c := NewChoice(m);
    forall s | s in ss ensures ToString(c, Str(s)) == s {
      RoundTripToken(c, s);
    }
  }

  /** `FromString`: forward lookup, `nil` for an unknown token. */
  function FromString(c: Registry, s: string): (r: Any)
    ensures r == Nil || r in c.vMap.Values
    ensures s !in c.vMap ==> r == Nil
  {
    if s in c.vMap then c.vMap[s] else Nil
  }

  /** `ToString`: reverse lookup, the empty string for an unregistered value. */
  function ToString(c: Registry, v: Any): (r: string)
    ensures Valid(c) && r != "" ==> r in c.vMap && c.vMap[r] == v
    ensures Valid(c) && v in c.vMap.Values ==> r in c.vMap && c.vMap[r] == v
    ensures Valid(c) && v !in c.vMap.Values ==> r == ""
  {
    if v in c.sMap then c.sMap[v] else ""
  }

  /** `Strings`: the tokens as built by `init`. */
  function Strings(c: Registry): (r: seq<string>)
    ensures Valid(c) ==> Distinct(r) && forall s :: s in r <==> s in c.vMap
  {
    c.ss
  }

  /** A token the table does not hold decodes to `nil`, whatever the registry. */
  lemma UnknownToken(c: Registry, s: string)
    requires Valid(c) && Nil !in c.vMap.Values
    ensures FromString(c, s) == Nil <==> s !in c.vMap
  {
  }

  /** Every mapped value survives rendering and decoding. */
  lemma RoundTripValue(c: Registry, v: Any)
    requires Valid(c) && v in c.vMap.Values
    ensures FromString(c, ToString(c, v)) == v
  {
  }

  /** With unique values (the documented precondition) every token survives
      decoding and rendering. */
  lemma RoundTripToken(c: Registry, s: string)
    requires Valid(c) && Injective(c.vMap) && s in c.vMap
    ensures ToString(c, FromString(c, s)) == s
  {
    var v := c.vMap[s];
    assert v in c.vMap.Values;
    assert c.vMap[c.sMap[v]] == v;
  }

  /** A value outside the table renders as the empty string. */
  lemma UnregisteredValue(c: Registry, v: Any)
    requires Valid(c) && v !in c.vMap.Values
    ensures ToString(c, v) == ""
  {
  }

  /** `Strings()` lists every token exactly once: a permutation of the table's keys. */
  lemma StringsArePermutation(c: Registry)
    requires Valid(c)
    ensures multiset(Strings(c)) == multiset(c.vMap.Keys)
    ensures |Strings(c)| == |c.vMap|
  {
    DistinctMultiset(c.ss, c.vMap.Keys);
  }

  lemma {:induction false} DistinctMultiset(ss: seq<string>, keys: set<string>)
    requires Distinct(ss) && (forall k :: k in keys <==> k in ss)
    ensures multiset(ss) == multiset(keys) && |ss| == |keys|
    decreases |ss|
  {
    if ss == [] {
      assert keys == {};
    } else {
      var last := ss[|ss| - 1];
      var init := ss[..|ss| - 1];
      assert ss == init + [last];
      assert last !in init;
      assert forall k :: k in keys - {last} <==> k in init;
      DistinctMultiset(init, keys - {last});
      assert keys == (keys - {last}) + {last};
    }
  }

  /** The reflected location a `choiceValue` reads and writes: an invalid value (from
      a nil interface), a typed nil pointer, a plain non-pointer value, or a pointer. */
  datatype Storage = Invalid | NilPointer | Direct(v: Any) | Indirect(p: Ref<Any>)

  /** `newChoiceValue`: the storage is `reflect.ValueOf(val)`. */
  function NewChoiceValue(choice: Registry, val: Iface): (cv: ChoiceValue)
    ensures cv.choice == choice
    ensures val == Plain(Nil) <==> cv.storage.Invalid?
    ensures val.Ptr? <==> cv.storage.Indirect?
  {
    var storage :=
      match val
      case Plain(v) => if v == Nil then Invalid else Direct(v)
      case NilPtr => NilPointer
      case Ptr(p) => Indirect(p);
    ChoiceValue(storage, choice)
  }

  /** `newChoiceValueSwap`: bind to a caller destination, which must be a non-nil
      pointer; a known default is written through it at once. The model's values
      hold no pointers, so a pointer default that would be written through the
      destination is excluded; Apply never calls this with a nil destination. */
  method NewChoiceValueSwap(choice: Registry, val: Iface, dest: Iface) returns (cv: Option<ChoiceValue>, err: Option<Error>)
    requires dest != Plain(Nil)
    requires dest.Ptr? ==> val.Plain?
    modifies if dest.Ptr? then {dest.p} else {}
    ensures dest.Plain? ==> err == Some(DestinationNotPointer) && cv == None
    ensures dest.NilPtr? ==> err == Some(DestinationNil) && cv == None
    ensures dest.Ptr? ==> err == None && cv == Some(ChoiceValue(Indirect(dest.p), choice))
    ensures dest.Ptr? ==> dest.p.val == (if val.v != Nil then val.v else old(dest.p.val))
  {
    match dest {
      case Plain(_) =>
        return None, Some(DestinationNotPointer);
      case NilPtr =>
        return None, Some(DestinationNil);
      case Ptr(p) =>
        if val.v != Nil {
          p.val := val.v;
        }
        return Some(ChoiceValue(Indirect(p), choice)), None;
    }
  }

  /** `choiceValue`: the cell a choice flag registers with the flag set. */
  datatype ChoiceValue = ChoiceValue(storage: Storage, choice: Registry) {

    /** The heap locations the cell reads and writes. */
    function Objects(): set<object> {
      if storage.Indirect? then {storage.p} else {}
    }

    /** Whether `Set` ignores its argument: no storage to write. */
    predicate Absent() {
      storage.Invalid? || storage.NilPointer?
    }

    /** `Value`: the stored value, `nil` when there is no storage. */
    function Value(): (r: Any)
      reads Objects()
      ensures Absent() ==> r == Nil
    {
      match storage
      case Invalid => Nil
      case NilPointer => Nil
      case Direct(v) => v
      case Indirect(p) => p.val
    }

    /** `String`: the token of the stored value; the empty string without storage. */
    function String(): (r: string)
      reads Objects()
      ensures Absent() ==> r == ""
      ensures Valid(choice) && r != "" ==> FromString(choice, r) == Value()
    {
      if Absent() then "" else ToString(choice, Value())
    }

    /** `Set`: decode the token and write it through the storage. An unknown token
        is `errParse` and leaves the storage alone; without storage the call is a
        silent no-op. Writing a known token into a plain, non-pointer value makes Go's
        reflection panic, so only that case is excluded. */
    method Set(s: string) returns (err: Option<Error>)
      requires storage.Direct? ==> FromString(choice, s) == Nil
      modifies Objects()
      ensures Absent() ==> err == None
      ensures storage.Direct? ==> err == Some(Parse)
      ensures storage.Indirect? && FromString(choice, s) != Nil ==> err == None && Value() == FromString(choice, s)
      ensures storage.Indirect? && FromString(choice, s) == Nil ==> err == Some(Parse) && Value() == old(Value())
    {
      if Absent() {
        return None;
      }
      var v := FromString(choice, s);
      if v != Nil {
        storage.p.val := v;
        return None;
      }
      return Some(Parse);
    }
  }

  /** Re-setting a cell from its own rendering keeps its value when that value is registered. */
  lemma SetOwnString(cv: ChoiceValue)
    requires Valid(cv.choice) && cv.Value() in cv.choice.vMap.Values
    ensures FromString(cv.choice, cv.String()) == cv.Value() || cv.Absent()
  {
  }
}
