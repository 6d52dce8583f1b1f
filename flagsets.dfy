/** The slice of Go's standard `flag.FlagSet` that the engine builds on: declared
    names with their cells, the set of names given an explicit value ("actual", what
    `Visit` walks), registration and `Set`. Also the `strconv` conversions the
    standard cells and the engine's accessors use. */
module FlagSets {
  import opened Wrappers
  import opened Errors
  import opened Pointers
  import opened Choices

  const MaxUint64: nat := 0xFFFF_FFFF_FFFF_FFFF

  type Uint64 = n: nat | n <= MaxUint64

  /** `strconv.ParseBool`: its fixed sets of accepted spellings. An accepted spelling
      starts with the digit or letter of its value, and "true" and "false" are read
      as the values they name. */
  function ParseBool(s: string): (r: Option<bool>)
    ensures r.Some? ==> s != "" && (r.value <==> s[0] in {'1', 't', 'T'})
    ensures s == "true" || s == "false" ==> r == Some(s == "true")
  {
    if s in {"1", "t", "T", "TRUE", "true", "True"} then Some(true)
    else if s in {"0", "f", "F", "FALSE", "false", "False"} then Some(false)
    else None
  }

  /** `strconv.FormatBool`; its output parses back to the same value. */
  function FormatBool(b: bool): (r: string)
    ensures ParseBool(r) == Some(b)
  {
    if b then "true" else "false"
  }

  /** The outcome of `strconv.ParseUint(s, 0, 64)`. */
  datatype NumResult = Num(n: Uint64) | SyntaxError | RangeError

  /** The value of a digit or letter in bases up to 36, -1 for anything else. */
  function DigitValue(c: char): int {
    if '0' <= c <= '9' then c as int - '0' as int
    else if 'a' <= c <= 'z' then c as int - 'a' as int + 10
    else if 'A' <= c <= 'Z' then c as int - 'A' as int + 10
    else -1
  }

  /** Go's digit loop with base 0: left to right, an underscore is skipped, the first
      bad digit is a syntax error and the first digit that takes the value past
      2^64-1 a range error. */
  function ScanDigits(s: string, base: nat): NumResult
    decreases |s|
  {
    if s == [] then Num(0)
    else
      match ScanDigits(s[..|s| - 1], base)
      case Num(acc) =>
        var c := s[|s| - 1];
        var d := DigitValue(c);
        if c == '_' then Num(acc)
        else if d < 0 || d >= base then SyntaxError
        else if acc * base + d > MaxUint64 then RangeError
        else Num(acc * base + d)
      case err => err
  }

  /** Only digits of the base and underscores scan to a number. */
  lemma {:induction false} ScanDigitsChars(s: string, base: nat)
    ensures ScanDigits(s, base).Num? ==> forall i :: 0 <= i < |s| ==> s[i] == '_' || 0 <= DigitValue(s[i]) < base
    decreases |s|
  {
    if s != [] {
      var init := s[..|s| - 1];
      ScanDigitsChars(init, base);
      assert forall i :: 0 <= i < |init| ==> init[i] == s[i];
    }
  }

  /** What `underscoreOK` has last seen: the start, a digit or base prefix, an
      underscore, or anything else. */
  datatype Seen = Start | Digit | Underscore | Other

  /** Whether `c` is a hexadecimal letter in either case. */
  predicate IsHexLetter(c: char) {
    'a' <= c <= 'f' || 'A' <= c <= 'F'
  }

  /** The loop of `underscoreOK` from state `saw`: every underscore must follow a
      digit and be followed by one. */
  function UnderscoresFrom(s: string, saw: Seen, hex: bool): bool
    decreases |s|
  {
    if s == [] then saw != Underscore
    else if '0' <= s[0] <= '9' || (hex && IsHexLetter(s[0])) then UnderscoresFrom(s[1..], Digit, hex)
    else if s[0] == '_' then saw == Digit && UnderscoresFrom(s[1..], Underscore, hex)
    else saw != Underscore && UnderscoresFrom(s[1..], Other, hex)
  }

  /** `underscoreOK`: after an optional sign and base prefix (which counts as a
      digit), underscores appear only between digits. */
  function UnderscoreOK(s0: string): bool {
    var s := if |s0| >= 1 && (s0[0] == '-' || s0[0] == '+') then s0[1..] else s0;
    if |s| >= 2 && s[0] == '0' && s[1] in {'b', 'B', 'o', 'O', 'x', 'X'} then
      UnderscoresFrom(s[2..], Digit, s[1] in {'x', 'X'})
    else UnderscoresFrom(s, Start, false)
  }

  /** The digits `ParseUint(s, 0, 64)` scans and their base: a `0x`, `0o` or `0b`
      prefix (either case, with at least one character after it) picks base 16, 8 or
      2, any other leading zero base 8, everything else base 10. */
  function ScanBase0(s: string): NumResult
    requires s != ""
  {
    if s[0] == '0' && |s| >= 3 && (s[1] == 'x' || s[1] == 'X') then ScanDigits(s[2..], 16)
    else if s[0] == '0' && |s| >= 3 && (s[1] == 'o' || s[1] == 'O') then ScanDigits(s[2..], 8)
    else if s[0] == '0' && |s| >= 3 && (s[1] == 'b' || s[1] == 'B') then ScanDigits(s[2..], 2)
    else if s[0] == '0' then ScanDigits(s[1..], 8)
    else ScanDigits(s, 10)
  }

  /** The characters `ScanBase0` accepts are letters, digits and underscores. */
  lemma ScanBase0Chars(s: string)
    requires s != ""
    ensures ScanBase0(s).Num? ==> forall i :: 0 <= i < |s| ==> s[i] == '_' || DigitValue(s[i]) >= 0
  {
    if |s| >= 3 && s[0] == '0' && s[1] in {'x', 'X', 'o', 'O', 'b', 'B'} {
      var base := if s[1] in {'x', 'X'} then 16 else if s[1] in {'o', 'O'} then 8 else 2;
      ScanDigitsChars(s[2..], base);
      assert forall i :: 2 <= i < |s| ==> s[i] == s[2..][i - 2];
    } else if s[0] == '0' {
      ScanDigitsChars(s[1..], 8);
      assert forall i :: 1 <= i < |s| ==> s[i] == s[1..][i - 1];
    } else {
      ScanDigitsChars(s, 10);
    }
  }

  /** `strconv.ParseUint(s, 0, 64)`: the empty string is a syntax error; a range error
      stops the scan at once; a number that scanned cleanly is still a syntax error
      when it holds a misplaced underscore. A number only ever holds letters, digits
      and underscores, and one with a misplaced underscore never parses. */
  function ParseUint64(s: string): (r: NumResult)
    ensures r.Num? ==> forall i :: 0 <= i < |s| ==> s[i] == '_' || DigitValue(s[i]) >= 0
    ensures '_' in s && !UnderscoreOK(s) ==> !r.Num?
  {
    if s == "" then SyntaxError
    else
      ScanBase0Chars(s);
      match ScanBase0(s)
      case Num(n) => if '_' in s && !UnderscoreOK(s) then SyntaxError else Num(n)
      case err => err
  }

  /** With base 0, underscores between digits are accepted and ignored. */
  lemma UnderscoreAccepted()
    ensures ParseUint64("1_000") == Num(1000)
  {
    assert ScanDigits("1_000", 10) == Num(1000) by {
      assert "1_000"[..4] == "1_00" && "1_00"[..3] == "1_0" && "1_0"[..2] == "1_" && "1_"[..1] == "1" && "1"[..0] == "";
    }
    assert UnderscoreOK("1_000") by {
      assert "1_000"[1..] == "_000" && "_000"[1..] == "000" && "000"[1..] == "00" && "00"[1..] == "0" && "0"[1..] == "";
    }
  }

  /** An underscore may also follow a base prefix. */
  lemma UnderscoreAfterPrefix()
    ensures ParseUint64("0x_ff") == Num(255)
  {
    assert "0x_ff"[2..] == "_ff";
    assert ScanDigits("_ff", 16) == Num(255) by {
      assert "_ff"[..2] == "_f" && "_f"[..1] == "_" && "_"[..0] == "";
    }
    assert UnderscoreOK("0x_ff") by {
      assert "_ff"[1..] == "ff" && "ff"[1..] == "f" && "f"[1..] == "";
    }
  }

  /** Two underscores in a row, or one at the end, are a syntax error even though
      every digit scans. */
  lemma UnderscoreMisplaced()
    ensures ParseUint64("1__0") == SyntaxError
    ensures ParseUint64("10_") == SyntaxError
  {
    assert ScanDigits("1__0", 10) == Num(10) by {
      assert "1__0"[..3] == "1__" && "1__"[..2] == "1_" && "1_"[..1] == "1" && "1"[..0] == "";
    }
    assert !UnderscoreOK("1__0") by {
      assert "1__0"[1..] == "__0" && "__0"[1..] == "_0";
    }
    assert ScanDigits("10_", 10) == Num(10) by {
      assert "10_"[..2] == "10" && "10"[..1] == "1" && "1"[..0] == "";
    }
    assert !UnderscoreOK("10_") by {
      assert "10_"[1..] == "0_" && "0_"[1..] == "_" && "_"[1..] == "";
    }
  }

  /** `strconv.FormatUint(n, 10)`. */
  function FormatUint64(n: nat): (r: string)
    ensures |r| >= 1
    ensures forall i :: 0 <= i < |r| ==> '0' <= r[i] <= '9'
    ensures r[0] == '0' ==> n == 0
  {
    if n < 10 then ['0' + n as char]
    else FormatUint64(n / 10) + ['0' + (n % 10) as char]
  }

  /** Decimal digits scan back to the number they render. */
  lemma {:induction false} ScanFormat(n: Uint64)
    ensures ScanDigits(FormatUint64(n), 10) == Num(n)
  {
    var r := FormatUint64(n);
    if n < 10 {
      assert r[..0] == [];
    } else {
      assert r[..|r| - 1] == FormatUint64(n / 10);
      ScanFormat(n / 10);
    }
  }

  /** `FormatUint64` and `ParseUint64` round-trip every 64-bit value. */
  lemma FormatParses(n: Uint64)
    ensures ParseUint64(FormatUint64(n)) == Num(n)
  {
    if n == 0 {
      assert FormatUint64(0) == "0";
    } else {
      ScanFormat(n);
    }
  }

  /** A cell registered with the flag set: the standard `*boolValue`, `*uint64Value`
      and `*stringValue` over a pointer, or the engine's `*choiceValue`. */
  datatype Cell =
    | BoolCell(b: Ref<bool>)
    | Uint64Cell(u: Ref<Uint64>)
    | StringCell(s: Ref<string>)
    | ChoiceCell(cv: ChoiceValue)
  {
    /** The heap locations the cell reads and writes. */
    function Objects(): set<object> {
      match this
      case BoolCell(b) => {b}
      case Uint64Cell(u) => {u}
      case StringCell(s) => {s}
      case ChoiceCell(cv) => cv.Objects()
    }

    /** Whether `Set(s)` can run without Go's reflection panicking: only a known
        token written into a choice cell over a plain value panics. */
    predicate Settable(s: string) {
      ChoiceCell? && cv.storage.Direct? ==> FromString(cv.choice, s) == Nil
    }

    /** `Value.String()`. */
    function String(): string
      reads Objects()
    {
      match this
      case BoolCell(b) => FormatBool(b.val)
      case Uint64Cell(u) => FormatUint64(u.val)
      case StringCell(s) => s.val
      case ChoiceCell(cv) => cv.String()
    }
  }

  /** What `Value.Set(s)` leaves behind. The standard cells store the parse result even
      when it fails (false, 0, or 2^64-1 on overflow); a choice cell keeps its old
      value on an unknown token, answers `errParse` when it holds a plain value, and
      ignores the call when it has no storage. */
  twostate predicate Stored(c: Cell, s: string, new err: Option<Error>)
    reads c.Objects()
  {
    match c
    case BoolCell(b) =>
      b.val == ParseBool(s).GetOr(false) && err == (if ParseBool(s).Some? then None else Some(Parse))
    case Uint64Cell(u) =>
      (match ParseUint64(s)
       case Num(n) => u.val == n && err == None
       case SyntaxError => u.val == 0 && err == Some(Parse)
       case RangeError => u.val == MaxUint64 && err == Some(Range))
    case StringCell(r) => r.val == s && err == None
    case ChoiceCell(cv) =>
      (match cv.storage
       case Indirect(p) =>
         var d := FromString(cv.choice, s);
         if d != Nil then p.val == d && err == None else p.val == old(p.val) && err == Some(Parse)
       case Direct(_) => err == Some(Parse)
       case _ => err == None)
  }

  /** `Value.Set(s)` on one cell. */
  method SetCell(c: Cell, s: string) returns (err: Option<Error>)
    requires c.Settable(s)
    modifies c.Objects()
    ensures Stored(c, s, err)
  {
    match c {
      case BoolCell(b) =>
        var v := ParseBool(s);
        b.val := v.GetOr(false);
        err := if v.Some? then None else Some(Parse);
      case Uint64Cell(u) =>
        match ParseUint64(s) {
          case Num(n) => u.val := n; err := None;
          case SyntaxError => u.val := 0; err := Some(Parse);
          case RangeError => u.val := MaxUint64; err := Some(Range);
        }
      case StringCell(r) =>
        r.val := s;
        err := None;
      case ChoiceCell(cv) =>
        err := cv.Set(s);
    }
  }

  /** Two cells of the same standard kind: both boolean, both unsigned or both string. */
  predicate SameStandardKind(c: Cell, d: Cell) {
    || (c.BoolCell? && d.BoolCell?)
    || (c.Uint64Cell? && d.Uint64Cell?)
    || (c.StringCell? && d.StringCell?)
  }

  /** The rendering of a boolean or unsigned cell parses back to the value it holds,
      so a cell of the same kind accepts it. */
  lemma RenderingParses(c: Cell)
    ensures c.BoolCell? ==> ParseBool(c.String()) == Some(c.b.val)
    ensures c.Uint64Cell? ==> ParseUint64(c.String()) == Num(c.u.val)
  {
    if c.Uint64Cell? {
      FormatParses(c.u.val);
    }
  }

  /** `flag.Flag` as the set records it: the cell and the usage text. */
  datatype Entry = Entry(cell: Cell, usage: string)

  class FlagSet {
    /** Declared names (`formal`). */
    var formal: map<string, Entry>
    /** Names given an explicit value (`actual`): the names `Visit` walks. */
    var actual: set<string>

    /** The standard set only records a name as visited after it was declared. */
    ghost predicate Valid()
      reads this
    {
      actual <= formal.Keys
    }

    /** `flag.NewFlagSet`, or the zero `flag.FlagSet{}`: nothing declared, nothing visited. */
    constructor ()
      ensures formal == map[] && actual == {} && Valid()
    {
      formal := map[];
      actual := {};
    }

    /** `Lookup`: the declared entry, visited or not. */
    function Lookup(name: string): (r: Option<Entry>)
      reads this
      ensures r.Some? <==> name in formal
    {
      if name in formal then Some(formal[name]) else None
    }

    /** The cells of every declared name. */
    ghost function Storage(): set<object>
      reads this`formal
    {
      set n, o | n in formal && o in formal[n].cell.Objects() :: o
    }

    /** `Var`: declare `name` with an existing cell. Redeclaring a name panics in Go,
        so it is excluded. */
    method Var(cell: Cell, name: string, usage: string)
      requires name !in formal
      modifies this
      ensures formal == old(formal)[name := Entry(cell, usage)] && actual == old(actual)
    {
      formal := formal[name := Entry(cell, usage)];
    }

    /** `BoolVar`: store the default through `p`, then declare the cell over `p`. */
    method BoolVar(p: Ref<bool>, name: string, value: bool, usage: string)
      requires name !in formal
      modifies this, p
      ensures p.val == value
      ensures formal == old(formal)[name := Entry(BoolCell(p), usage)] && actual == old(actual)
    {
      p.val := value;
      Var(BoolCell(p), name, usage);
    }

    /** `Bool`: like BoolVar over a freshly allocated variable. */
    method Bool(name: string, value: bool, usage: string) returns (p: Ref<bool>)
      requires name !in formal
      modifies this
      ensures fresh(p) && p.val == value
      ensures formal == old(formal)[name := Entry(BoolCell(p), usage)] && actual == old(actual)
    {
      p := new Ref(value);
      BoolVar(p, name, value, usage);
    }

    /** `Uint64Var`. */
    method Uint64Var(p: Ref<Uint64>, name: string, value: Uint64, usage: string)
      requires name !in formal
      modifies this, p
      ensures p.val == value
      ensures formal == old(formal)[name := Entry(Uint64Cell(p), usage)] && actual == old(actual)
    {
      p.val := value;
      Var(Uint64Cell(p), name, usage);
    }

    /** `Uint64`. */
    method Uint64(name: string, value: Uint64, usage: string) returns (p: Ref<Uint64>)
      requires name !in formal
      modifies this
      ensures fresh(p) && p.val == value
      ensures formal == old(formal)[name := Entry(Uint64Cell(p), usage)] && actual == old(actual)
    {
      p := new Ref(value);
      Uint64Var(p, name, value, usage);
    }

    /** `StringVar`. */
    method StringVar(p: Ref<string>, name: string, value: string, usage: string)
      requires name !in formal
      modifies this, p
      ensures p.val == value
      ensures formal == old(formal)[name := Entry(StringCell(p), usage)] && actual == old(actual)
    {
      p.val := value;
      Var(StringCell(p), name, usage);
    }

    /** `String`. */
    method String(name: string, value: string, usage: string) returns (p: Ref<string>)
      requires name !in formal
      modifies this
      ensures fresh(p) && p.val == value
      ensures formal == old(formal)[name := Entry(StringCell(p), usage)] && actual == old(actual)
    {
      p := new Ref(value);
      StringVar(p, name, value, usage);
    }

    /** `Set`: an undeclared name is an error; otherwise the cell's `Set` runs and, if it
        succeeds, the name becomes visited. */
    method Set(name: string, value: string) returns (err: Option<Error>)
      requires Valid()
      requires name in formal ==> formal[name].cell.Settable(value)
      modifies this, if name in formal then formal[name].cell.Objects() else {}
      ensures Valid() && formal == old(formal)
      ensures name !in formal ==> err == Some(NoSuchFlag(name)) && actual == old(actual)
      ensures name in formal ==> Stored(formal[name].cell, value, err)
      ensures name in formal ==> actual == if err.None? then old(actual) + {name} else old(actual)
    {
      if name !in formal {
        return Some(NoSuchFlag(name));
      }
      err := SetCell(formal[name].cell, value);
      if err.None? {
        actual := actual + {name};
      }
    }
  }
}
