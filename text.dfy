/**
 * The JavaScript string primitives the core relies on: `String.prototype.trim`,
 * the regular-expression class `\s`, `toLowerCase` and `Array.prototype.join`.
 * Positions are stated index by index, which keeps the solver's work small.
 */
module Text {

  /** ECMAScript WhiteSpace and LineTerminator code points: what `trim` removes and `\s` matches. */
  predicate IsSpace(c: char) {
    || c == '\t' || c == '\n' || c == '\U{B}' || c == '\U{C}' || c == '\r' || c == ' '
    || c == '\U{A0}' || c == '\U{1680}' || ('\U{2000}' <= c <= '\U{200A}')
    || c == '\U{2028}' || c == '\U{2029}' || c == '\U{202F}' || c == '\U{205F}'
    || c == '\U{3000}' || c == '\U{FEFF}'
  }

  /** Every character of `s` from `lo` up to (not including) `hi` is whitespace. */
  predicate SpaceBetween(s: string, lo: int, hi: int) {
    forall j :: lo <= j < hi && 0 <= j < |s| ==> IsSpace(s[j])
  }

  predicate AllSpace(s: string) {
    SpaceBetween(s, 0, |s|)
  }

  /** A string with no whitespace at either end. */
  predicate Trimmed(s: string) {
    s == [] || (!IsSpace(s[0]) && !IsSpace(s[|s| - 1]))
  }

  /** `r` occurs in `s` at offset `i`. */
  predicate OccursAt(r: string, s: string, i: int) {
    0 <= i && i + |r| <= |s| && forall j :: 0 <= j < |r| ==> r[j] == s[i + j]
  }

  ghost predicate IsSubstring(r: string, s: string) {
    exists i {:trigger OccursAt(r, s, i)} :: OccursAt(r, s, i)
  }

  predicate IsSuffix(r: string, s: string) {
    OccursAt(r, s, |s| - |r|)
  }

  /** Every end of `s` is a suffix of it. */
  lemma SliceIsSuffix(s: string, k: nat)
    requires k <= |s|
    ensures IsSuffix(s[k..], s)
  {
  }

  /** `s` is `r` surrounded by whitespace only, with `r` starting at offset `i`. */
  predicate PaddedAt(s: string, i: int, r: string) {
    OccursAt(r, s, i) && SpaceBetween(s, 0, i) && SpaceBetween(s, i + |r|, |s|)
  }

  /** `trimStart`: drops the leading whitespace. */
  function TrimStart(s: string): (r: string)
    ensures |r| <= |s|
    ensures r == [] || !IsSpace(r[0])
  {
    if s != [] && IsSpace(s[0]) then TrimStart(s[1..]) else s
  }

  /** `trimStart` keeps the end of `s`. */
  lemma {:induction false} TrimStartKeepsEnd(s: string)
    ensures TrimStart(s) == s[|s| - |TrimStart(s)|..]
    decreases |s|
  {
    if s != [] && IsSpace(s[0]) {
      TrimStartKeepsEnd(s[1..]);
    }
  }

  /** `trimStart` drops whitespace only. */
  lemma {:induction false} TrimStartDropsSpace(s: string, i: nat)
    requires i < |s| - |TrimStart(s)|
    ensures IsSpace(s[i])
    decreases i
  {
    if i > 0 {
      TrimStartDropsSpace(s[1..], i - 1);
    }
  }

  lemma TrimStartIsSuffix(s: string)
    ensures IsSuffix(TrimStart(s), s)
  {
    TrimStartKeepsEnd(s);
    SliceIsSuffix(s, |s| - |TrimStart(s)|);
  }

  /** `trimStart` keeps a suffix and drops whitespace only. */
  lemma TrimStartShape(s: string)
    ensures IsSuffix(TrimStart(s), s)
    ensures SpaceBetween(s, 0, |s| - |TrimStart(s)|)
  {
    TrimStartIsSuffix(s);
    forall i | 0 <= i < |s| - |TrimStart(s)| {
      TrimStartDropsSpace(s, i);
    }
  }

  /** `trimEnd`: drops the trailing whitespace. */
  function TrimEnd(s: string): (r: string)
    ensures |r| <= |s|
    ensures r == [] || !IsSpace(r[|r| - 1])
    ensures r != [] ==> r[0] == s[0]
  {
    if s != [] && IsSpace(s[|s| - 1]) then TrimEnd(s[..|s| - 1]) else s
  }

  /** `trimEnd` keeps the start of `s`. */
  lemma {:induction false} TrimEndKeepsStart(s: string)
    ensures TrimEnd(s) == s[..|TrimEnd(s)|]
    decreases |s|
  {
    if s != [] && IsSpace(s[|s| - 1]) {
      TrimEndKeepsStart(s[..|s| - 1]);
    }
  }

  /** `trimEnd` drops whitespace only. */
  lemma {:induction false} TrimEndDropsSpace(s: string, i: nat)
    requires |TrimEnd(s)| <= i < |s|
    ensures IsSpace(s[i])
    decreases |s|
  {
    if i < |s| - 1 {
      TrimEndDropsSpace(s[..|s| - 1], i);
    }
  }

  /** `trimEnd` keeps a prefix. */
  lemma TrimEndIsPrefix(s: string)
    ensures OccursAt(TrimEnd(s), s, 0)
  {
    TrimEndKeepsStart(s);
    var r := TrimEnd(s);
    assert forall j :: 0 <= j < |r| ==> r[j] == s[j];
  }

  /** `trim`: the text between the leading and the trailing whitespace. */
  function Trim(s: string): (r: string)
    ensures |r| <= |s|
    ensures Trimmed(r)
  {
    TrimEnd(TrimStart(s))
  }

  /** The trimmed text occurs in `s` where the leading whitespace ends. */
  lemma TrimOccurs(s: string)
    ensures OccursAt(Trim(s), s, |s| - |TrimStart(s)|)
  {
    var t := TrimStart(s);
    TrimStartIsSuffix(s);
    TrimEndIsPrefix(t);
    OccursTransitive(TrimEnd(t), t, 0, s, |s| - |t|);
  }

  /** What follows the trimmed text in `s` is whitespace. */
  lemma TrimTrailing(s: string)
    ensures SpaceBetween(s, |s| - |TrimStart(s)| + |Trim(s)|, |s|)
  {
    var t := TrimStart(s);
    var k := |s| - |t|;
    TrimStartKeepsEnd(s);
    forall j | k + |Trim(s)| <= j < |s|
      ensures IsSpace(s[j])
    {
      assert s[j] == t[j - k];
      TrimEndDropsSpace(t, j - k);
    }
  }

  /** `s` is its trimmed text padded with whitespace on both sides. */
  lemma TrimPadded(s: string)
    ensures PaddedAt(s, |s| - |TrimStart(s)|, Trim(s))
  {
    TrimOccurs(s);
    TrimTrailing(s);
    forall i | 0 <= i < |s| - |TrimStart(s)|
      ensures IsSpace(s[i])
    {
      TrimStartDropsSpace(s, i);
    }
  }

  /** `r` is all of `s` when it occurs at 0 and has the same length. */
  lemma OccursWhole(r: string, s: string)
    requires OccursAt(r, s, 0) && |r| == |s|
    ensures r == s
  {
    SameOccurrence(r, s, s, 0);
  }

  /** Only one position can hold the first non-whitespace character. */
  lemma FirstNonSpace(s: string, i: nat, k: nat)
    requires i < |s| && k < |s| && !IsSpace(s[i]) && !IsSpace(s[k])
    requires SpaceBetween(s, 0, i) && SpaceBetween(s, 0, k)
    ensures i == k
  {
  }

  /** Only one position can hold the last non-whitespace character. */
  lemma LastNonSpace(s: string, i: nat, k: nat)
    requires i < |s| && k < |s| && !IsSpace(s[i]) && !IsSpace(s[k])
    requires SpaceBetween(s, i + 1, |s|) && SpaceBetween(s, k + 1, |s|)
    ensures i == k
  {
  }

  /** Two strings of one length occurring at one offset are equal. */
  lemma SameOccurrence(r: string, t: string, s: string, i: int)
    requires OccursAt(r, s, i) && OccursAt(t, s, i) && |r| == |t|
    ensures r == t
  {
    assert forall j :: 0 <= j < |r| ==> r[j] == s[i + j];
  }

  /** Two unpadded strings that `s` pads with whitespace are the same string. */
  lemma PaddedUnique(s: string, i: int, r: string, k: int, t: string)
    requires Trimmed(r) && PaddedAt(s, i, r)
    requires Trimmed(t) && PaddedAt(s, k, t)
    ensures r == t
  {
    assert r != [] ==> r[0] == s[i] && r[|r| - 1] == s[i + |r| - 1];
    assert t != [] ==> t[0] == s[k] && t[|t| - 1] == s[k + |t| - 1];
    if r != [] && t != [] {
      FirstNonSpace(s, i, k);
      LastNonSpace(s, i + |r| - 1, k + |t| - 1);
      SameOccurrence(r, t, s, i);
    }
  }

  /** The string `trim` gives is the only unpadded string that `s` pads with whitespace. */
  lemma TrimUnique(s: string, i: int, r: string)
    requires Trimmed(r) && PaddedAt(s, i, r)
    ensures Trim(s) == r
  {
    var t := Trim(s);
    var k := |s| - |TrimStart(s)|;
    TrimPadded(s);
    assert Trimmed(t) && PaddedAt(s, k, t);
    PaddedUnique(s, i, r, k, t);
  }

  /** Trimming twice trims once. */
  lemma TrimIdempotent(s: string)
    ensures Trim(Trim(s)) == Trim(s)
  {
    TrimUnique(Trim(s), 0, Trim(s));
  }

  /** `trim` gives "" exactly when the string is whitespace only. */
  lemma TrimEmpty(s: string)
    ensures Trim(s) == [] <==> AllSpace(s)
  {
    var t := Trim(s);
    var k := |s| - |TrimStart(s)|;
    TrimPadded(s);
    if AllSpace(s) {
      TrimUnique(s, 0, []);
    } else if t != [] {
      assert t[0] == s[k];
    }
  }

  /** `toLowerCase` on the ASCII letters; every other code point is kept. */
  function LowerChar(c: char): (d: char)
    ensures 'A' <= c <= 'Z' ==> 'a' <= d <= 'z' && d as int - c as int == 32
    ensures !('A' <= c <= 'Z') ==> d == c
  {
    if 'A' <= c <= 'Z' then (c as int + 32) as char else c
  }

  function ToLower(s: string): (r: string)
    ensures |r| == |s|
    ensures forall i :: 0 <= i < |r| ==> !('A' <= r[i] <= 'Z')
  {
    if s == [] then [] else [LowerChar(s[0])] + ToLower(s[1..])
  }

  /** `toLowerCase` works code point by code point. */
  lemma {:induction false} ToLowerAt(s: string, i: nat)
    requires i < |s|
    ensures ToLower(s)[i] == LowerChar(s[i])
    decreases i
  {
    if i > 0 {
      ToLowerAt(s[1..], i - 1);
    }
  }

  /** A one-letter string lowers to the letter `c` exactly when it is `c` or its capital. */
  lemma LowerIsLetter(s: string, c: char)
    requires 'a' <= c <= 'z'
    ensures ToLower(s) == [c] <==> s == [c] || s == [(c as int - 32) as char]
  {
    if |s| == 1 {
      ToLowerAt(s, 0);
    }
  }

  /** `xs.join(sep)`. */
  function Join(xs: seq<string>, sep: string): (r: string)
    ensures |xs| == 1 ==> r == xs[0]
    decreases |xs|
  {
    if |xs| == 0 then ""
    else if |xs| == 1 then xs[0]
    else xs[0] + sep + Join(xs[1..], sep)
  }

  /** Where `xs[i]` starts in `Join(xs, sep)`. */
  function Offset(xs: seq<string>, sep: string, i: nat): nat
    requires i < |xs|
    decreases i
  {
    if i == 0 then 0 else |xs[0]| + |sep| + Offset(xs[1..], sep, i - 1)
  }

  /** The joined string holds every element in order, each one preceded by `sep` except the first. */
  lemma JoinAt(xs: seq<string>, sep: string, i: nat)
    requires i < |xs|
    ensures OccursAt(xs[i], Join(xs, sep), Offset(xs, sep, i))
    ensures i > 0 ==> OccursAt(sep, Join(xs, sep), Offset(xs, sep, i) - |sep|)
  {
    JoinElementAt(xs, sep, i);
    if i > 0 {
      JoinSeparatorAt(xs, sep, i);
    }
  }

  /** Element `i` sits at its offset in the join. */
  lemma {:induction false} JoinElementAt(xs: seq<string>, sep: string, i: nat)
    requires i < |xs|
    ensures OccursAt(xs[i], Join(xs, sep), Offset(xs, sep, i))
    decreases i
  {
    if |xs| > 1 {
      var head := xs[0] + sep;
      var rest := Join(xs[1..], sep);
      assert Join(xs, sep) == head + rest;
      if i == 0 {
        OccursBefore(xs[0], head, 0, rest);
      } else {
        JoinElementAt(xs[1..], sep, i - 1);
        assert xs[1..][i - 1] == xs[i];
        OccursAfter(xs[i], rest, Offset(xs[1..], sep, i - 1), head);
      }
    }
  }

  /** The separator sits right before element `i`, for every `i` after the first. */
  lemma {:induction false} JoinSeparatorAt(xs: seq<string>, sep: string, i: nat)
    requires 0 < i < |xs|
    ensures OccursAt(sep, Join(xs, sep), Offset(xs, sep, i) - |sep|)
    decreases i
  {
    var head := xs[0] + sep;
    var rest := Join(xs[1..], sep);
    assert Join(xs, sep) == head + rest;
    assert Offset(xs, sep, i) == |head| + Offset(xs[1..], sep, i - 1);
    if i == 1 {
      OccursEnd(xs[0], sep);
      OccursBefore(sep, head, |xs[0]|, rest);
    } else {
      JoinSeparatorAt(xs[1..], sep, i - 1);
      OccursAfter(sep, rest, Offset(xs[1..], sep, i - 1) - |sep|, head);
    }
  }

  /** `b` occurs at the end of `a + b`. */
  lemma OccursEnd(a: string, b: string)
    ensures OccursAt(b, a + b, |a|)
  {
  }

  /** An occurrence in `a` is an occurrence in `a + b`. */
  lemma OccursBefore(r: string, a: string, i: int, b: string)
    requires OccursAt(r, a, i)
    ensures OccursAt(r, a + b, i)
  {
  }

  /** An occurrence in `b` is an occurrence in `a + b`, shifted by `|a|`. */
  lemma OccursAfter(r: string, b: string, i: int, a: string)
    requires OccursAt(r, b, i)
    ensures OccursAt(r, a + b, |a| + i)
  {
  }

  /** An occurrence inside an occurrence is an occurrence. */
  lemma OccursTransitive(r: string, u: string, k: int, s: string, m: int)
    requires OccursAt(r, u, k) && OccursAt(u, s, m)
    ensures OccursAt(r, s, m + k)
  {
    forall j | 0 <= j < |r| ensures r[j] == s[m + k + j] {
      assert r[j] == u[k + j];
    }
  }

  /** A join starts with the first element and ends with the last. */
  lemma JoinEnds(xs: seq<string>, sep: string)
    ensures |xs| > 0 ==> OccursAt(xs[0], Join(xs, sep), 0) && IsSuffix(xs[|xs| - 1], Join(xs, sep))
  {
    if |xs| > 0 {
      JoinAt(xs, sep, 0);
      JoinAt(xs, sep, |xs| - 1);
      JoinLength(xs, sep);
    }
  }

  /** The length of a join: every element plus one separator between neighbours. */
  lemma {:induction false} JoinLength(xs: seq<string>, sep: string)
    requires |xs| > 0
    ensures |Join(xs, sep)| == Offset(xs, sep, |xs| - 1) + |xs[|xs| - 1]|
    decreases |xs|
  {
    if |xs| > 1 {
      JoinLength(xs[1..], sep);
    }
  }

  /** Joining a longer list appends the separator and the new element. */
  lemma {:induction false} JoinAppend(xs: seq<string>, x: string, sep: string)
    requires |xs| > 0
    ensures Join(xs + [x], sep) == Join(xs, sep) + sep + x
    decreases |xs|
  {
    if |xs| > 1 {
      assert (xs + [x])[1..] == xs[1..] + [x];
      JoinAppend(xs[1..], x, sep);
    } else {
      assert (xs + [x])[1..] == [x];
    }
  }
}
