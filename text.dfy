/** The pieces of Go's `strings` and `regexp` packages that the flag engine uses,
    over strings of Unicode code points. */
module Text {

  /** Go's `unicode.IsSpace`: the Latin-1 spaces and the Unicode White_Space characters. */
  predicate IsSpace(c: char) {
    || c == ' ' || c == '\t' || c == '\n' || c == '\U{000B}' || c == '\U{000C}' || c == '\r'
    || c == '\U{0085}' || c == '\U{00A0}' || c == '\U{1680}'
    || ('\U{2000}' <= c <= '\U{200A}')
    || c == '\U{2028}' || c == '\U{2029}' || c == '\U{202F}' || c == '\U{205F}' || c == '\U{3000}'
  }

  /** Leading white space removed. */
  function TrimLeftSpace(s: string): (r: string)
    ensures |r| <= |s|
  {
    if s != [] && IsSpace(s[0]) then TrimLeftSpace(s[1..]) else s
  }

  /** Trailing white space removed. */
  function TrimRightSpace(s: string): (r: string)
    ensures |r| <= |s|
  {
    if s != [] && IsSpace(s[|s| - 1]) then TrimRightSpace(s[..|s| - 1]) else s
  }

  /** `strings.TrimSpace`. */
  function TrimSpace(s: string): string {
    TrimRightSpace(TrimLeftSpace(s))
  }

  /** Trimming at the front keeps a suffix that does not start with white space,
      and drops only white space. */
  lemma {:induction false} TrimLeftShape(s: string)
    ensures var r := TrimLeftSpace(s);
            && |r| <= |s| && r == s[|s| - |r|..] && (r == [] || !IsSpace(r[0]))
            && forall i :: 0 <= i < |s| - |r| ==> IsSpace(s[i])
  {
    if s != [] && IsSpace(s[0]) {
      TrimLeftShape(s[1..]);
    }
  }

  /** Trimming at the back keeps a prefix that does not end with white space, and
      drops only white space. */
  lemma {:induction false} TrimRightShape(s: string)
    ensures var r := TrimRightSpace(s);
            && |r| <= |s| && r == s[..|r|] && (r == [] || !IsSpace(r[|r| - 1]))
            && forall i :: |r| <= i < |s| ==> IsSpace(s[i])
  {
    if s != [] && IsSpace(s[|s| - 1]) {
      TrimRightShape(s[..|s| - 1]);
    }
  }

  /** `TrimSpace` keeps the piece of its input that starts at `a`, and what it drops
      on either side is all white space. */
  lemma TrimSpacePiece(s: string)
    ensures var r := TrimSpace(s);
            var a := |s| - |TrimLeftSpace(s)|;
            && a + |r| <= |s|
            && r == s[a..a + |r|]
            && (forall i :: 0 <= i < a ==> IsSpace(s[i]))
            && (forall i :: a + |r| <= i < |s| ==> IsSpace(s[i]))
  {
    var l := TrimLeftSpace(s);
    TrimLeftShape(s);
    TrimRightShape(l);
    var a := |s| - |l|;
    var r := TrimRightSpace(l);
    forall i | a + |r| <= i < |s| ensures IsSpace(s[i]) {
      assert s[i] == l[i - a];
    }
  }

  /** `TrimSpace` keeps the piece of its input that starts at `a`, with no white
      space at either end, and what it drops on either side is all white space; so
      trimming it again changes nothing. */
  lemma TrimSpaceShape(s: string)
    ensures var r := TrimSpace(s);
            var a := |s| - |TrimLeftSpace(s)|;
            && a + |r| <= |s|
            && r == s[a..a + |r|]
            && (r == [] || (!IsSpace(r[0]) && !IsSpace(r[|r| - 1])))
            && (forall i :: 0 <= i < a ==> IsSpace(s[i]))
            && (forall i :: a + |r| <= i < |s| ==> IsSpace(s[i]))
            && TrimSpace(r) == r
  {
    TrimSpacePiece(s);
    var l := TrimLeftSpace(s);
    TrimLeftShape(s);
    TrimRightShape(l);
    var r := TrimRightSpace(l);
    if r != [] {
      assert r[0] == l[0];
      assert TrimLeftSpace(r) == r;
    }
  }

  /** Leading and trailing `c` removed: `strings.Trim(s, string(c))`. */
  function TrimChar(s: string, c: char): (r: string)
    ensures r == [] || (r[0] != c && r[|r| - 1] != c)
    ensures |r| <= |s|
  {
    if s != [] && s[0] == c then TrimChar(s[1..], c)
    else if s != [] && s[|s| - 1] == c then TrimChar(s[..|s| - 1], c)
    else s
  }

  /** `strings.Split(s, string(sep))`: the pieces between separators; the empty
      string splits into one empty piece. */
  function Split(s: string, sep: char): (r: seq<string>)
    ensures |r| >= 1
    ensures forall i :: 0 <= i < |r| ==> sep !in r[i]
  {
    if s == [] then [""]
    else
      var rest := Split(s[1..], sep);
      if s[0] == sep then [""] + rest else [[s[0]] + rest[0]] + rest[1..]
  }

  /** `strings.Join`. */
  function Join(ss: seq<string>, sep: string): string {
    if |ss| == 0 then ""
    else if |ss| == 1 then ss[0]
    else ss[0] + sep + Join(ss[1..], sep)
  }

  /** Whether `c` is matched by the character class `[, ]`. */
  predicate IsCommaOrSpace(c: char) {
    c == ',' || c == ' '
  }

  /** What the regular expression `.*` consumes: everything up to, not
      including, the next line feed. */
  function SkipLine(s: string): (r: string)
    ensures |r| <= |s| && r == s[|s| - |r|..]
    ensures r == [] || r[0] == '\n'
    ensures s != [] && s[0] != '\n' ==> |r| < |s|
  {
    if s == [] || s[0] == '\n' then s else SkipLine(s[1..])
  }

  /** `regexp.MustCompile("[, ]+.*").ReplaceAllString(s, "")`: on every line,
      the first comma or space and everything after it on that line is removed. */
  function CutAtCommaOrSpace(s: string): (r: string)
    ensures |r| <= |s|
    ensures forall i :: 0 <= i < |r| ==> !IsCommaOrSpace(r[i])
    decreases |s|
  {
    if s == [] then []
    else if IsCommaOrSpace(s[0]) then CutAtCommaOrSpace(SkipLine(s))
    else [s[0]] + CutAtCommaOrSpace(s[1..])
  }

  /** Index of the first comma or space, or `|s|` when there is none. */
  function FirstCommaOrSpace(s: string): (k: nat)
    ensures k <= |s|
    ensures forall i :: 0 <= i < k ==> !IsCommaOrSpace(s[i])
    ensures k < |s| ==> IsCommaOrSpace(s[k])
  {
    if s == [] || IsCommaOrSpace(s[0]) then 0 else 1 + FirstCommaOrSpace(s[1..])
  }

  /** On a single line the cut keeps exactly the text before the first comma or space. */
  lemma {:induction false} CutSingleLine(s: string)
    requires '\n' !in s
    ensures CutAtCommaOrSpace(s) == s[..FirstCommaOrSpace(s)]
  {
    if s == [] {
    } else if IsCommaOrSpace(s[0]) {
      SkipToEnd(s);
    } else {
      assert '\n' !in s[1..] by {
        forall i | 0 <= i < |s[1..]| ensures s[1..][i] != '\n' {
          assert s[1..][i] == s[i + 1];
        }
      }
      CutSingleLine(s[1..]);
    }
  }

  /** Without a line feed, `.*` consumes the rest of the string. */
  lemma {:induction false} SkipToEnd(s: string)
    requires '\n' !in s
    ensures SkipLine(s) == []
  {
    if s != [] {
      assert '\n' !in s[1..] by {
        forall i | 0 <= i < |s[1..]| ensures s[1..][i] != '\n' {
          assert s[1..][i] == s[i + 1];
        }
      }
      SkipToEnd(s[1..]);
    }
  }

  /** A string without commas and spaces is left alone by the cut. */
  lemma {:induction false} CutKeepsClean(s: string)
    requires forall i :: 0 <= i < |s| ==> !IsCommaOrSpace(s[i])
    ensures CutAtCommaOrSpace(s) == s
  {
    if s != [] {
      assert forall i :: 0 <= i < |s[1..]| ==> !IsCommaOrSpace(s[1..][i]) by {
        forall i | 0 <= i < |s[1..]| ensures !IsCommaOrSpace(s[1..][i]) {
          assert s[1..][i] == s[i + 1];
        }
      }
      CutKeepsClean(s[1..]);
      assert [s[0]] + s[1..] == s;
    }
  }

  /** The cut is idempotent. */
  lemma CutIdempotent(s: string)
    ensures CutAtCommaOrSpace(CutAtCommaOrSpace(s)) == CutAtCommaOrSpace(s)
  {
    CutKeepsClean(CutAtCommaOrSpace(s));
  }
}
