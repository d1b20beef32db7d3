/** The parts of Python's `str` that the pipeline relies on: `isspace`,
    `strip()`, `split()` with no argument, `sep.join(...)`, and `split(sep)`
    with a one-character separator (the inverse of `join`). */
module PyStr {

  /** Python's whitespace for `str.strip()` and `str.split()`: the characters
      whose bidirectional class is WS, B or S, or whose category is Zs. */
  predicate IsSpace(c: char) {
    var n := c as int;
    (0x09 <= n <= 0x0D) || (0x1C <= n <= 0x20) || n == 0x85 || n == 0xA0
    || n == 0x1680 || (0x2000 <= n <= 0x200A) || n == 0x2028 || n == 0x2029
    || n == 0x202F || n == 0x205F || n == 0x3000
  }

  predicate AllSpace(s: string) {
    forall i :: 0 <= i < |s| ==> IsSpace(s[i])
  }

  predicate NoSpace(s: string) {
    forall i :: 0 <= i < |s| ==> !IsSpace(s[i])
  }

  function Min(a: int, b: int): int {
    if a <= b then a else b
  }

  /** The index of the first non-whitespace character, or `|s|`. */
  function FirstNonSpace(s: string): (i: nat)
    ensures i <= |s| && AllSpace(s[..i])
    ensures i < |s| ==> !IsSpace(s[i])
  {
    if s == [] || !IsSpace(s[0]) then 0
    else
      var i := 1 + FirstNonSpace(s[1..]);
      assert forall k :: 1 <= k < i ==> s[..i][k] == s[1..][..i - 1][k - 1];
      i
  }

  /** One past the last non-whitespace character, or 0. */
  function EndNonSpace(s: string): (j: nat)
    ensures j <= |s| && AllSpace(s[j..])
    ensures 0 < j ==> !IsSpace(s[j - 1])
  {
    if s == [] || !IsSpace(s[|s| - 1]) then |s|
    else
      var j := EndNonSpace(s[..|s| - 1]);
      assert forall k :: j <= k < |s| - 1 ==> s[k] == s[..|s| - 1][j..][k - j];
      j
  }

  /** `s.strip()`: the slice between the first and the last non-whitespace
      characters, or the empty string when there are none. */
  function Strip(s: string): string {
    var i, j := FirstNonSpace(s), EndNonSpace(s);
    if i < j then s[i..j] else []
  }

  /** `strip()` cuts whitespace, and only whitespace, off both ends: the
      result is the slice of `s` starting at `i` that has only whitespace
      before and after it, and it neither starts nor ends with whitespace. */
  lemma StripSpec(s: string) returns (i: nat)
    ensures var r := Strip(s);
            i + |r| <= |s| && r == s[i..i + |r|]
            && AllSpace(s[..i]) && AllSpace(s[i + |r|..])
    ensures var r := Strip(s);
            r == [] || (!IsSpace(r[0]) && !IsSpace(r[|r| - 1]))
  {
    i := FirstNonSpace(s);
    var j := EndNonSpace(s);
    BoundsMeet(s);
  }

  /** The two boundaries cross only when no character is left between
      them, that is when the scan from the left ran off the end. */
  lemma BoundsMeet(s: string)
    ensures EndNonSpace(s) <= FirstNonSpace(s) ==> FirstNonSpace(s) == |s|
  {
  }

  /** `strip()` gives the empty string exactly when `s` is all whitespace. */
  lemma StripEmptyIff(s: string)
    ensures Strip(s) == [] <==> AllSpace(s)
  {
    var i, j := FirstNonSpace(s), EndNonSpace(s);
    BoundsMeet(s);
    if j <= i {
      assert s == s[..i];
    }
  }

  /** The longest prefix of `s` without whitespace. */
  function Word(s: string): (w: string)
    ensures |w| <= |s| && w == s[..|w|] && NoSpace(w)
    ensures |w| == |s| || IsSpace(s[|w|])
  {
    if s == [] || IsSpace(s[0]) then [] else [s[0]] + Word(s[1..])
  }

  /** `s.split()`: the maximal runs of non-whitespace characters, in order. */
  function Tokens(s: string): (ts: seq<string>)
    ensures forall i :: 0 <= i < |ts| ==> ts[i] != [] && NoSpace(ts[i])
    decreases |s|
  {
    if s == [] then []
    else if IsSpace(s[0]) then Tokens(s[1..])
    else
      var w := Word(s);
      [w] + Tokens(s[|w|..])
  }

  /** The characters of `s` that are not whitespace, in order. */
  function NonSpace(s: string): string {
    if s == [] then [] else (if IsSpace(s[0]) then [] else [s[0]]) + NonSpace(s[1..])
  }

  /** The concatenation of a sequence of strings. */
  function Flatten(ts: seq<string>): string {
    if ts == [] then [] else ts[0] + Flatten(ts[1..])
  }

  /** `sep.join(ts)`. */
  function Join(ts: seq<string>, sep: string): string {
    if ts == [] then []
    else if |ts| == 1 then ts[0]
    else ts[0] + sep + Join(ts[1..], sep)
  }

  /** The index of the first `c` in `s`, or `|s|` when there is none. */
  function IndexOf(s: string, c: char): (k: nat)
    ensures k <= |s| && c !in s[..k]
    ensures k < |s| ==> s[k] == c
    ensures k == |s| <==> c !in s
  {
    if s == [] then 0 else if s[0] == c then 0 else 1 + IndexOf(s[1..], c)
  }

  /** `s.split(c)` for a one-character separator. */
  function SplitOn(s: string, c: char): (parts: seq<string>)
    ensures |parts| >= 1
    decreases |s|
  {
    var k := IndexOf(s, c);
    if k == |s| then [s] else [s[..k]] + SplitOn(s[k + 1..], c)
  }

  lemma {:induction false} NonSpaceAppend(a: string, b: string)
    ensures NonSpace(a + b) == NonSpace(a) + NonSpace(b)
  {
    if a == [] {
      assert a + b == b;
    } else {
      assert (a + b)[1..] == a[1..] + b;
      NonSpaceAppend(a[1..], b);
    }
  }

  lemma {:induction false} NonSpaceOfWord(w: string)
    requires NoSpace(w)
    ensures NonSpace(w) == w
  {
    if w != [] {
      NonSpaceOfWord(w[1..]);
    }
  }

  /** `split()` loses only whitespace: gluing the tokens back together gives
      the text with every whitespace character deleted. */
  lemma {:induction false} TokensKeepAllNonSpace(s: string)
    ensures Flatten(Tokens(s)) == NonSpace(s)
    decreases |s|
  {
    if s == [] {
    } else if IsSpace(s[0]) {
      TokensKeepAllNonSpace(s[1..]);
    } else {
      var w := Word(s);
      TokensKeepAllNonSpace(s[|w|..]);
      assert s == w + s[|w|..];
      NonSpaceAppend(w, s[|w|..]);
      NonSpaceOfWord(w);
    }
  }

  /** `split()` finds no token exactly when the text is all whitespace. */
  lemma {:induction false} TokensEmptyIff(s: string)
    ensures Tokens(s) == [] <==> AllSpace(s)
    decreases |s|
  {
    if s != [] && IsSpace(s[0]) {
      TokensEmptyIff(s[1..]);
      assert forall i :: 1 <= i < |s| ==> s[i] == s[1..][i - 1];
    }
  }

  /** A word runs up to the first whitespace character and no further. */
  lemma {:induction false} WordStopsAtSpace(a: string, c: char, b: string)
    requires IsSpace(c)
    ensures Word(a + [c] + b) == Word(a)
    decreases |a|
  {
    if a == [] {
      assert a + [c] + b == [c] + b;
    } else if !IsSpace(a[0]) {
      assert (a + [c] + b)[1..] == a[1..] + [c] + b;
      WordStopsAtSpace(a[1..], c, b);
    }
  }

  /** A non-empty run without whitespace is a single token. */
  lemma TokensOfWord(w: string)
    requires w != [] && NoSpace(w)
    ensures Tokens(w) == [w]
  {
    assert Word(w) == w;
    assert w[|w|..] == [];
  }

  /** `split()` separates at every whitespace character: the tokens of
      `a + [c] + b`, for whitespace `c`, are those of `a` followed by those
      of `b`. With `TokensOfWord` this determines `split()` completely. */
  lemma {:induction false} TokensSplitAtSpace(a: string, c: char, b: string)
    requires IsSpace(c)
    ensures Tokens(a + [c] + b) == Tokens(a) + Tokens(b)
    decreases |a|
  {
    var s := a + [c] + b;
    if a == [] {
      assert s[1..] == b;
    } else if IsSpace(a[0]) {
      assert s[1..] == a[1..] + [c] + b;
      TokensSplitAtSpace(a[1..], c, b);
    } else {
      var w := Word(a);
      WordStopsAtSpace(a, c, b);
      assert s[|w|..] == a[|w|..] + [c] + b;
      TokensSplitAtSpace(a[|w|..], c, b);
    }
  }

  /** Joining non-empty whitespace-free words with a blank and splitting
      again gives the words back. */
  lemma {:induction false} TokensOfJoin(ts: seq<string>)
    requires forall i :: 0 <= i < |ts| ==> ts[i] != [] && NoSpace(ts[i])
    ensures Tokens(Join(ts, " ")) == ts
  {
    if |ts| == 1 {
      TokensOfWord(ts[0]);
    } else if |ts| > 1 {
      var rest := Join(ts[1..], " ");
      assert Join(ts, " ") == ts[0] + [' '] + rest;
      TokensSplitAtSpace(ts[0], ' ', rest);
      TokensOfWord(ts[0]);
      TokensOfJoin(ts[1..]);
      assert ts == [ts[0]] + ts[1..];
    }
  }

  lemma {:induction false} JoinHasNoSpace(ts: seq<string>, sep: string)
    requires NoSpace(sep)
    requires forall i :: 0 <= i < |ts| ==> NoSpace(ts[i])
    ensures NoSpace(Join(ts, sep))
  {
    if |ts| > 1 {
      JoinHasNoSpace(ts[1..], sep);
      var rest := Join(ts[1..], sep);
      assert Join(ts, sep) == ts[0] + sep + rest;
      forall i | 0 <= i < |Join(ts, sep)| ensures !IsSpace(Join(ts, sep)[i]) {
        if i < |ts[0]| {
        } else if i < |ts[0]| + |sep| {
          assert Join(ts, sep)[i] == sep[i - |ts[0]|];
        } else {
          assert Join(ts, sep)[i] == rest[i - |ts[0]| - |sep|];
        }
      }
    }
  }

  lemma {:induction false} JoinEmptyIff(ts: seq<string>, sep: string)
    requires forall i :: 0 <= i < |ts| ==> ts[i] != []
    ensures Join(ts, sep) == [] <==> ts == []
  {
    if ts != [] {
      assert |Join(ts, sep)| >= |ts[0]|;
    }
  }

  /** Splitting on the separator undoes `join` when no part contains it. */
  lemma {:induction false} SplitOnJoin(ts: seq<string>, c: char)
    requires ts != []
    requires forall i :: 0 <= i < |ts| ==> c !in ts[i]
    ensures SplitOn(Join(ts, [c]), c) == ts
  {
    if |ts| == 1 {
      assert IndexOf(ts[0], c) == |ts[0]|;
    } else {
      var rest := Join(ts[1..], [c]);
      var s := ts[0] + [c] + rest;
      assert Join(ts, [c]) == s;
      IndexOfPrefix(ts[0], c, [c] + rest);
      assert s == ts[0] + ([c] + rest);
      assert s[..|ts[0]|] == ts[0];
      assert s[|ts[0]| + 1..] == rest;
      SplitOnJoin(ts[1..], c);
    }
  }

  lemma {:induction false} IndexOfPrefix(a: string, c: char, b: string)
    requires c !in a && b != [] && b[0] == c
    ensures IndexOf(a + b, c) == |a|
  {
    if a != [] {
      assert (a + b)[1..] == a[1..] + b;
      IndexOfPrefix(a[1..], c, b);
    }
  }
}
