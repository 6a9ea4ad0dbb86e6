/** The few JavaScript string built-ins the player relies on, on strings
    modelled as `seq<char>`: `String.prototype.trim`, `includes`, `split` with a
    non-empty string separator, and `Array.prototype.join` with a string
    separator. Each follows the algorithm of ECMA-262 for that built-in. */
module JsString {
  import opened Options

  /** The code points `trim` strips: the WhiteSpace and LineTerminator code
      points of ECMA-262 (tab, line tab, form feed, space, no-break space, byte
      order mark, the Unicode space separators, and LF, CR, LS, PS). */
  predicate IsSpace(c: char) {
    var n := c as int;
    || n == 0x09 || n == 0x0A || n == 0x0B || n == 0x0C || n == 0x0D
    || n == 0x20 || n == 0xA0 || n == 0x1680
    || (0x2000 <= n && n <= 0x200A)
    || n == 0x2028 || n == 0x2029 || n == 0x202F || n == 0x205F
    || n == 0x3000 || n == 0xFEFF
  }

  predicate AllSpace(s: string) {
    forall i :: 0 <= i < |s| ==> IsSpace(s[i])
  }

  /** Neither end of `s` is a space: what `trim` returns. */
  predicate IsTrimmed(s: string) {
    |s| == 0 || (!IsSpace(s[0]) && !IsSpace(s[|s| - 1]))
  }

  /** `core` sits at offset `i` of `s` with nothing but spaces around it. */
  ghost predicate PaddedAt(s: string, core: string, i: int) {
    && 0 <= i <= |s| - |core|
    && s[i..i + |core|] == core
    && AllSpace(s[..i])
    && AllSpace(s[i + |core|..])
  }

  /** Drops the leading spaces. */
  function TrimStart(s: string): (r: string)
    ensures |r| <= |s| && r == s[|s| - |r|..]
    ensures AllSpace(s[..|s| - |r|])
    ensures |r| == 0 || !IsSpace(r[0])
  {
    if |s| > 0 && IsSpace(s[0]) then
      var r := TrimStart(s[1..]);
      TrimStartStep(s, r);
      r
    else
      s
  }

  /** One leading space more in front of a string whose leading spaces are
      dropped to `r`. */
  lemma TrimStartStep(s: string, r: string)
    requires |s| > 0 && IsSpace(s[0])
    requires |r| <= |s| - 1 && r == s[1..][|s| - 1 - |r|..]
    requires AllSpace(s[1..][..|s| - 1 - |r|])
    ensures |r| <= |s| && r == s[|s| - |r|..]
    ensures AllSpace(s[..|s| - |r|])
  {
    var k := |s| - |r|;
    assert s[1..][k - 1..] == s[k..];
    assert s[..k] == [s[0]] + s[1..][..k - 1];
    AllSpaceCons(s[0], s[1..][..k - 1]);
  }

  /** Drops the trailing spaces. */
  function TrimEnd(s: string): (r: string)
    ensures |r| <= |s| && r == s[..|r|]
    ensures AllSpace(s[|r|..])
    ensures |r| == 0 || !IsSpace(r[|r| - 1])
  {
    if |s| > 0 && IsSpace(s[|s| - 1]) then
      var r := TrimEnd(s[..|s| - 1]);
      TrimEndStep(s, r);
      r
    else
      s
  }

  /** One trailing space more after a string whose trailing spaces are
      dropped to `r`. */
  lemma TrimEndStep(s: string, r: string)
    requires |s| > 0 && IsSpace(s[|s| - 1])
    requires |r| <= |s| - 1 && r == s[..|s| - 1][..|r|]
    requires AllSpace(s[..|s| - 1][|r|..])
    ensures |r| <= |s| && r == s[..|r|]
    ensures AllSpace(s[|r|..])
  {
    var t := s[..|s| - 1];
    SliceOfSlice(s, 0, |s| - 1, 0, |r|);
    assert s[|r|..] == t[|r|..] + [s[|s| - 1]];
    AllSpaceSnoc(t[|r|..], s[|s| - 1]);
  }

  lemma AllSpaceCons(c: char, a: string)
    requires IsSpace(c) && AllSpace(a)
    ensures AllSpace([c] + a)
  {
    assert forall i :: 1 <= i < |a| + 1 ==> ([c] + a)[i] == a[i - 1];
  }

  lemma AllSpaceSnoc(a: string, c: char)
    requires AllSpace(a) && IsSpace(c)
    ensures AllSpace(a + [c])
  {
    assert forall i :: 0 <= i < |a| ==> (a + [c])[i] == a[i];
  }

  /** `String.prototype.trim`: the text of `s` between its leading and its
      trailing spaces. */
  function Trim(s: string): (r: string)
    ensures IsTrimmed(r)
    ensures exists i :: PaddedAt(s, r, i)
  {
    var t := TrimStart(s);
    var r := TrimEnd(t);
    TrimPadded(s, t, r);
    r
  }

  /** Dropping the leading spaces of `s` to `t` and then the trailing spaces
      of `t` to `r` leaves `r` trimmed and padded only by spaces in `s`. */
  lemma TrimPadded(s: string, t: string, r: string)
    requires |t| <= |s| && t == s[|s| - |t|..] && AllSpace(s[..|s| - |t|])
    requires |t| == 0 || !IsSpace(t[0])
    requires |r| <= |t| && r == t[..|r|] && AllSpace(t[|r|..])
    requires |r| == 0 || !IsSpace(r[|r| - 1])
    ensures IsTrimmed(r) && PaddedAt(s, r, |s| - |t|)
  {
    var i := |s| - |t|;
    SliceOfSlice(s, i, |s|, 0, |r|);
    SliceOfSlice(s, i, |s|, |r|, |t| - |r|);
    assert |r| == 0 || r[0] == t[0];
  }

  /** Everything outside a padded core is a space. */
  lemma PaddingIsSpace(s: string, core: string, i: int)
    requires PaddedAt(s, core, i)
    ensures forall k :: 0 <= k < i ==> IsSpace(s[k])
    ensures forall k :: i + |core| <= k < |s| ==> IsSpace(s[k])
    ensures forall k :: 0 <= k < |core| ==> s[i + k] == core[k]
  {
    forall k | 0 <= k < i
      ensures IsSpace(s[k])
    {
      assert s[..i][k] == s[k];
    }
    forall k | i + |core| <= k < |s|
      ensures IsSpace(s[k])
    {
      assert s[i + |core|..][k - i - |core|] == s[k];
    }
    forall k | 0 <= k < |core|
      ensures s[i + k] == core[k]
    {
      assert s[i..i + |core|][k] == s[i + k];
    }
  }

  /** The trimmed core of a string is unique: whatever trimmed text sits in
      `s` padded only by spaces is what `Trim` returns. */
  lemma TrimUnique(s: string, core: string, i: int)
    requires IsTrimmed(core) && PaddedAt(s, core, i)
    ensures Trim(s) == core
  {
    var t := Trim(s);
    var j :| PaddedAt(s, t, j);
    SameCore(s, core, i, t, j);
  }

  /** Two trimmed cores padded only by spaces in the same string are equal. */
  lemma SameCore(s: string, core: string, i: int, other: string, j: int)
    requires IsTrimmed(core) && PaddedAt(s, core, i)
    requires IsTrimmed(other) && PaddedAt(s, other, j)
    ensures core == other
  {
    EmptyCore(s, core, i);
    EmptyCore(s, other, j);
    if |core| > 0 {
      CoreBounds(s, core, i, other, j);
      CoreBounds(s, other, j, core, i);
      assert i == j && |core| == |other|;
      assert s[i..i + |core|] == core && s[j..j + |other|] == other;
    }
  }

  /** A trimmed core padded only by spaces is empty exactly when the whole
      string is spaces. */
  lemma EmptyCore(s: string, core: string, i: int)
    requires IsTrimmed(core) && PaddedAt(s, core, i)
    ensures |core| == 0 <==> AllSpace(s)
  {
    PaddingIsSpace(s, core, i);
    if |core| > 0 {
      assert s[i] == core[0] && !IsSpace(s[i]);
    }
  }

  /** Two non-empty trimmed cores padded only by spaces start and end at the
      same places: `other` starts no later and ends no earlier than `core`. */
  lemma CoreBounds(s: string, core: string, i: int, other: string, j: int)
    requires IsTrimmed(core) && PaddedAt(s, core, i) && |core| > 0
    requires IsTrimmed(other) && PaddedAt(s, other, j) && |other| > 0
    ensures j <= i && i + |core| <= j + |other|
  {
    PaddingIsSpace(s, other, j);
    PaddingIsSpace(s, core, i);
    assert s[i] == core[0];
    assert s[i + |core| - 1] == core[|core| - 1];
  }

  /** Trimming text that is already trimmed changes nothing. */
  lemma TrimTrimmed(s: string)
    requires IsTrimmed(s)
    ensures Trim(s) == s
  {
    assert PaddedAt(s, s, 0);
    TrimUnique(s, s, 0);
  }

  /** `sub` occurs in `s` starting at index `i`. */
  predicate OccursAt(s: string, sub: string, i: int) {
    0 <= i && i + |sub| <= |s| && s[i..i + |sub|] == sub
  }

  /** The StringIndexOf operation of ECMA-262: the least index at or after
      `from` where `sub` occurs, or None when there is none. */
  function IndexOfFrom(s: string, sub: string, from: nat): (r: Option<nat>)
    requires from <= |s|
    ensures r.Some? ==> from <= r.value && OccursAt(s, sub, r.value)
    ensures r.Some? ==> forall j :: from <= j < r.value ==> !OccursAt(s, sub, j)
    ensures r.None? ==> forall j :: from <= j ==> !OccursAt(s, sub, j)
    decreases |s| - from
  {
    if OccursAt(s, sub, from) then Some(from)
    else if from == |s| then None
    else IndexOfFrom(s, sub, from + 1)
  }

  function IndexOf(s: string, sub: string): (r: Option<nat>) {
    IndexOfFrom(s, sub, 0)
  }

  /** `String.prototype.includes`. */
  function Includes(s: string, sub: string): (b: bool)
    ensures b <==> exists j :: OccursAt(s, sub, j)
  {
    var r := IndexOf(s, sub);
    if r.Some? then
      assert OccursAt(s, sub, r.value);
      true
    else
      false
  }

  /** `parts.join(sep)`: the parts with `sep` between neighbours. */
  function Join(parts: seq<string>, sep: string): string {
    if |parts| == 0 then ""
    else if |parts| == 1 then parts[0]
    else parts[0] + sep + Join(parts[1..], sep)
  }

  /** `s.slice(from).split(sep)` for a non-empty string separator: the text
      between successive leftmost non-overlapping occurrences of `sep`. */
  function SplitFrom(s: string, sep: string, from: nat): (parts: seq<string>)
    requires |sep| > 0 && from <= |s|
    ensures |parts| >= 1
    decreases |s| - from
  {
    match IndexOfFrom(s, sep, from)
    case None => [s[from..]]
    case Some(j) => [s[from..j]] + SplitFrom(s, sep, j + |sep|)
  }

  /** `s.split(sep)` for a non-empty string separator. */
  function Split(s: string, sep: string): (parts: seq<string>)
    requires |sep| > 0
  {
    SplitFrom(s, sep, 0)
  }

  /** Splitting at a separator and joining with the same separator gives the
      text back. */
  lemma {:induction false} JoinSplitFrom(s: string, sep: string, from: nat)
    requires |sep| > 0 && from <= |s|
    ensures Join(SplitFrom(s, sep, from), sep) == s[from..]
    decreases |s| - from
  {
    match IndexOfFrom(s, sep, from)
    case None =>
    case Some(j) =>
      var rest := SplitFrom(s, sep, j + |sep|);
      JoinSplitFrom(s, sep, j + |sep|);
      SplitFromFound(s, sep, from, j);
      JoinCons(s[from..j], rest, sep);
      SliceAround(s, from, j, sep);
  }

  /** Where `sep` is found at `j`, the first part ends there and splitting
      carries on after the separator. */
  lemma SplitFromFound(s: string, sep: string, from: nat, j: nat)
    requires |sep| > 0 && from <= |s| && IndexOfFrom(s, sep, from) == Some(j)
    ensures j + |sep| <= |s|
    ensures SplitFrom(s, sep, from) == [s[from..j]] + SplitFrom(s, sep, j + |sep|)
  {
  }

  /** Joining a first part onto at least one more puts a separator between. */
  lemma JoinCons(first: string, rest: seq<string>, sep: string)
    requires |rest| >= 1
    ensures Join([first] + rest, sep) == first + sep + Join(rest, sep)
  {
    assert ([first] + rest)[1..] == rest;
  }

  /** The text from `from` on is the text up to an occurrence of `sep` at
      `j`, the separator, and the text after it. */
  lemma SliceAround(s: string, from: nat, j: nat, sep: string)
    requires from <= j && OccursAt(s, sep, j)
    ensures s[from..] == s[from..j] + sep + s[j + |sep|..]
  {
    assert s[from..] == s[from..j] + s[j..j + |sep|] + s[j + |sep|..];
  }

  lemma JoinSplit(s: string, sep: string)
    requires |sep| > 0
    ensures Join(Split(s, sep), sep) == s
  {
    JoinSplitFrom(s, sep, 0);
  }

  /** No part that `split` produces contains the separator. */
  lemma {:induction false} SplitFromPartsFree(s: string, sep: string, from: nat)
    requires |sep| > 0 && from <= |s|
    ensures forall k :: 0 <= k < |SplitFrom(s, sep, from)| ==> !Includes(SplitFrom(s, sep, from)[k], sep)
    decreases |s| - from
  {
    var parts := SplitFrom(s, sep, from);
    match IndexOfFrom(s, sep, from)
    case None =>
      NoOccurrenceInSuffix(s, sep, from, |s|);
      assert parts == [s[from..]];
      assert s[from..] == s[from..|s|];
    case Some(j) =>
      SplitFromPartsFree(s, sep, j + |sep|);
      NoOccurrenceInSuffix(s, sep, from, j);
      assert parts == [s[from..j]] + SplitFrom(s, sep, j + |sep|);
      forall k | 0 <= k < |parts|
        ensures !Includes(parts[k], sep)
      {
        if k > 0 {
          assert parts[k] == SplitFrom(s, sep, j + |sep|)[k - 1];
        }
      }
  }

  /** When a non-empty `sub` does not occur in `s` at any index from `from`
      up to before `to`, the slice `s[from..to]` does not contain it. */
  lemma NoOccurrenceInSuffix(s: string, sub: string, from: nat, to: nat)
    requires |sub| > 0 && from <= to <= |s|
    requires forall j :: from <= j < to ==> !OccursAt(s, sub, j)
    ensures !Includes(s[from..to], sub)
  {
    var t := s[from..to];
    forall k | 0 <= k && k + |sub| <= |t|
      ensures !OccursAt(t, sub, k)
    {
      SliceOfSlice(s, from, to, k, |sub|);
      assert from + k < to;
      assert !OccursAt(s, sub, from + k);
    }
  }

  /** A slice of a slice is a slice of the original. */
  lemma SliceOfSlice(s: string, from: nat, to: nat, k: nat, n: nat)
    requires from <= to <= |s| && k + n <= to - from
    ensures s[from..to][k..k + n] == s[from + k..from + k + n]
  {
    forall j | from + k <= j < from + k + n
      ensures s[j] == s[from..to][k..k + n][j - from - k]
    {
    }
  }
}
