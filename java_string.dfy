/** The few `java.lang.String` operations the log relies on: `contains`,
    `endsWith`, `indexOf`, `replace(char, char)` and `split` with a delimiter
    that has no regular-expression metacharacters (so it matches literally). */
module JavaString {

  /** `d` occurs in `s` starting at index `i`. */
  predicate OccursAt(s: string, d: string, i: nat) {
    i + |d| <= |s| && s[i..i + |d|] == d
  }

  /** `s.contains(d)` */
  predicate Contains(s: string, d: string) {
    exists i: nat | i <= |s| :: OccursAt(s, d, i)
  }

  /** `s.endsWith(suffix)` */
  predicate EndsWith(s: string, suffix: string) {
    |suffix| <= |s| && s[|s| - |suffix|..] == suffix
  }

  /** `s.indexOf(d, from)`: the first index at or after `from` where `d`
      occurs, or -1 when there is none. */
  function IndexOf(s: string, d: string, from: nat): (r: int)
    decreases |s| - from
    ensures r == -1 || (from <= r && OccursAt(s, d, r))
    ensures forall j: nat :: from <= j && (r == -1 || j < r) ==> !OccursAt(s, d, j)
  {
    if |s| < from + |d| then -1
    else if OccursAt(s, d, from) then from
    else IndexOf(s, d, from + 1)
  }

  /** The fields joined back together with `d` between them. */
  function Join(fields: seq<string>, d: string): string
    requires |fields| >= 1
  {
    if |fields| == 1 then fields[0] else fields[0] + d + Join(fields[1..], d)
  }

  /** The pieces of `s` between the leftmost non-overlapping occurrences of
      `d`, found scanning from the left as `java.util.regex.Pattern.split`
      does, before any empty field is removed. */
  function Fields(s: string, d: string): (r: seq<string>)
    requires |d| > 0
    decreases |s|
    ensures |r| >= 1
  {
    var i := IndexOf(s, d, 0);
    if i < 0 then
      [s]
    else
      MatchSplits(s, d, i);
      [s[..i]] + Fields(s[i + |d|..], d)
  }

  /** The fields joined with `d` give `s` back, none of them contains `d`,
      and there is more than one exactly when `d` occurs in `s`. */
  lemma {:induction false} FieldsSpec(s: string, d: string)
    requires |d| > 0
    decreases |s|
    ensures Join(Fields(s, d), d) == s
    ensures forall k :: 0 <= k < |Fields(s, d)| ==> !Contains(Fields(s, d)[k], d)
    ensures |Fields(s, d)| == 1 <==> !Contains(s, d)
  {
    var i := IndexOf(s, d, 0);
    if i >= 0 {
      var rest := Fields(s[i + |d|..], d);
      MatchSplits(s, d, i);
      FieldsSpec(s[i + |d|..], d);
      JoinCons(s[..i], rest, d);
      assert OccursAt(s, d, i);
    }
  }

  /** A slice that ends within a prefix `t` of `s` is the same slice of `t`. */
  lemma SliceOfPrefix(s: string, t: string, j: nat, k: nat)
    requires |t| <= |s| && s[..|t|] == t && j <= k <= |t|
    ensures s[j..k] == t[j..k]
  {
    forall x | 0 <= x < k - j ensures s[j..k][x] == t[j..k][x] {
      assert s[j + x] == s[..|t|][j + x];
    }
  }

  /** Without a match the only field is the whole text. */
  lemma NoMatchOneField(s: string, d: string)
    requires |d| > 0 && !Contains(s, d)
    ensures IndexOf(s, d, 0) == -1 && Fields(s, d) == [s]
  {
    IndexOfFinds(s, d);
  }

  /** What `indexOf` finds is an occurrence. */
  lemma IndexOfFinds(s: string, d: string)
    ensures IndexOf(s, d, 0) >= 0 ==> Contains(s, d)
  {
    var i := IndexOf(s, d, 0);
    if i >= 0 {
      assert OccursAt(s, d, i);
    }
  }

  /** Cutting `s` around a match of `d` at `i`; the part before the first
      match does not contain `d`. */
  lemma MatchSplits(s: string, d: string, i: int)
    requires |d| > 0 && i >= 0 && i == IndexOf(s, d, 0)
    ensures i + |d| <= |s| && s == s[..i] + d + s[i + |d|..]
    ensures !Contains(s[..i], d)
  {
    assert OccursAt(s, d, i);
    assert s == s[..i] + s[i..i + |d|] + s[i + |d|..];
    forall j: nat | j <= i ensures !OccursAt(s[..i], d, j) {
      if j + |d| <= i {
        assert !OccursAt(s, d, j);
        SliceOfPrefix(s, s[..i], j, j + |d|);
      }
    }
  }

  lemma JoinCons(x: string, rest: seq<string>, d: string)
    requires |rest| >= 1
    ensures Join([x] + rest, d) == x + d + Join(rest, d)
    ensures forall k :: 1 <= k < |rest| + 1 ==> ([x] + rest)[k] == rest[k - 1]
  {
    assert ([x] + rest)[1..] == rest;
  }

  /** Drops the empty strings at the end of `fields`, as `split` does with
      its default limit of zero. */
  function DropTrailingEmpty(fields: seq<string>): (r: seq<string>)
    ensures r <= fields
    ensures r == [] || r[|r| - 1] != ""
    ensures forall k :: |r| <= k < |fields| ==> fields[k] == ""
  {
    if |fields| > 0 && fields[|fields| - 1] == "" then
      DropTrailingEmpty(fields[..|fields| - 1])
    else
      fields
  }

  /** `s.split(d)` for a delimiter `d` that `Pattern` matches literally: the
      whole of `s` when `d` does not occur in it, and otherwise the fields
      between the matches with the trailing empty ones removed (a leading
      empty field is kept). */
  function Split(s: string, d: string): (r: seq<string>)
    requires |d| > 0
    ensures r == [s] || (r <= Fields(s, d) && (r == [] || r[|r| - 1] != ""))
  {
    if IndexOf(s, d, 0) < 0 then [s] else DropTrailingEmpty(Fields(s, d))
  }

  /** No piece of the split contains `d`; without a match the split is `s`
      alone; otherwise it is the fields up to the last non-empty one, and
      every field it drops is empty. */
  lemma SplitSpec(s: string, d: string)
    requires |d| > 0
    ensures forall k :: 0 <= k < |Split(s, d)| ==> !Contains(Split(s, d)[k], d)
    ensures !Contains(s, d) ==> Split(s, d) == [s]
    ensures Contains(s, d) ==> Split(s, d) <= Fields(s, d)
    ensures Contains(s, d) ==> Split(s, d) == [] || Split(s, d)[|Split(s, d)| - 1] != ""
    ensures Contains(s, d) ==> forall k :: |Split(s, d)| <= k < |Fields(s, d)| ==> Fields(s, d)[k] == ""
  {
    FieldsSpec(s, d);
    var i := IndexOf(s, d, 0);
    if i >= 0 {
      assert OccursAt(s, d, i);
    }
  }

  /** `s.replace(from, to)` for characters: every `from` becomes `to`. */
  function Replace(s: string, from: char, to: char): (r: string)
    ensures |r| == |s|
    ensures from != to ==> from !in r
    ensures from !in s ==> r == s
  {
    if s == [] then []
    else [if s[0] == from then to else s[0]] + Replace(s[1..], from, to)
  }

  /** `replace` keeps the length and changes each `from`, and only those. */
  lemma {:induction false} ReplaceSpec(s: string, from: char, to: char)
    ensures |Replace(s, from, to)| == |s|
    ensures forall k :: 0 <= k < |s| ==> Replace(s, from, to)[k] == (if s[k] == from then to else s[k])
  {
    if s != [] {
      ReplaceSpec(s[1..], from, to);
    }
  }

  /** A match that begins before the end of `a` lies within `a` followed by
      all but the last character of `d`; when there is none, the first field
      of `a + d + b` is `a` and the rest are the fields of `b`. */
  lemma {:induction false} FieldsCons(a: string, b: string, d: string)
    requires |d| > 0
    requires !Contains(a + d[..|d| - 1], d)
    ensures Fields(a + d + b, d) == [a] + Fields(b, d)
  {
    var s := a + d + b;
    var t := a + d[..|d| - 1];
    assert s[|a|..|a| + |d|] == d;
    assert OccursAt(s, d, |a|);
    forall j: nat | j < |a| ensures !OccursAt(s, d, j) {
      if j + |d| <= |s| {
        assert s[..|t|] == t;
        SliceOfPrefix(s, t, j, j + |d|);
        assert !OccursAt(t, d, j);
      }
    }
    var i := IndexOf(s, d, 0);
    assert i == |a|;
    assert s[..i] == a;
    assert s[i + |d|..] == b;
  }

  /** `indexOf` finds the first match. */
  lemma FirstMatch(s: string, d: string, i: nat)
    requires OccursAt(s, d, i)
    requires forall j: nat :: j < i ==> !OccursAt(s, d, j)
    ensures IndexOf(s, d, 0) == i
  {
  }

  /** When `d` occurs in `s`, the first field is everything before its
      first occurrence. */
  lemma FirstField(s: string, d: string)
    requires |d| > 0 && Contains(s, d)
    ensures IndexOf(s, d, 0) >= 0
    ensures Fields(s, d)[0] == s[..IndexOf(s, d, 0)]
  {
    var j: nat :| j <= |s| && OccursAt(s, d, j);
  }

  /** A string without the first character of `d` cannot contain `d`. */
  lemma MissingFirstCharNoMatch(s: string, d: string)
    requires |d| > 0 && d[0] !in s
    ensures !Contains(s, d)
  {
    forall i: nat | i <= |s| ensures !OccursAt(s, d, i) {
      if i + |d| <= |s| {
        assert s[i..i + |d|][0] == s[i] != d[0];
      }
    }
  }

  /** Removing trailing empty fields never reaches back past a non-empty one. */
  lemma {:induction false} DropTrailingEmptyAppend(p: seq<string>, q: seq<string>)
    requires |p| > 0 && p[|p| - 1] != ""
    ensures DropTrailingEmpty(p + q) == p + DropTrailingEmpty(q)
    decreases |q|
  {
    if |q| > 0 && q[|q| - 1] == "" {
      assert (p + q)[..|p + q| - 1] == p + q[..|q| - 1];
      DropTrailingEmptyAppend(p, q[..|q| - 1]);
    }
  }
}
