/** String helpers shared by the registry model: the key order used to sort
    command keys, and JavaScript's `split` on a single character and
    `join` with a separator. */
module Strings {

  /** Strict lexicographic order on strings, character by character: the order
      `Array.prototype.sort` uses for string keys when no comparator is given.
      (Dafny's `<` on sequences means "proper prefix", which is not this.) */
  predicate Below(a: string, b: string)
    decreases |a|
  {
    |b| > 0 && (|a| == 0 || a[0] < b[0] || (a[0] == b[0] && Below(a[1..], b[1..])))
  }

  lemma {:induction false} BelowIrreflexive(a: string)
    ensures !Below(a, a)
    decreases |a|
  {
    if |a| > 0 {
      BelowIrreflexive(a[1..]);
    }
  }

  lemma {:induction false} BelowTransitive(a: string, b: string, c: string)
    requires Below(a, b) && Below(b, c)
    ensures Below(a, c)
    decreases |a|
  {
    if |a| > 0 && a[0] == b[0] && b[0] == c[0] {
      BelowTransitive(a[1..], b[1..], c[1..]);
    }
  }

  /** Any two different strings are ordered one way or the other. */
  lemma {:induction false} BelowTotal(a: string, b: string)
    requires a != b
    ensures Below(a, b) || Below(b, a)
    decreases |a|
  {
    if |a| > 0 && |b| > 0 && a[0] == b[0] {
      assert a == [a[0]] + a[1..] && b == [b[0]] + b[1..];
      BelowTotal(a[1..], b[1..]);
    }
  }

  lemma BelowAsymmetric(a: string, b: string)
    requires Below(a, b)
    ensures !Below(b, a)
  {
    if Below(b, a) {
      BelowTransitive(a, b, a);
      BelowIrreflexive(a);
    }
  }

  /** Position of the first occurrence of `c` in `s`. */
  function IndexOf(s: string, c: char): (i: nat)
    requires c in s
    ensures i < |s| && s[i] == c && c !in s[..i]
  {
    if s[0] == c then 0 else 1 + IndexOf(s[1..], c)
  }

  /** The first occurrence is the only position with no earlier occurrence. */
  lemma IndexOfUnique(s: string, c: char, j: nat)
    requires j < |s| && s[j] == c && c !in s[..j]
    ensures IndexOf(s, c) == j
  {
    var i := IndexOf(s, c);
    assert i <= j by {
      assert forall k :: 0 <= k < j ==> s[..j][k] == s[k];
    }
    assert j <= i by {
      assert forall k :: 0 <= k < i ==> s[..i][k] == s[k];
    }
  }

  /** JavaScript `s.split(c)` for a one-character separator. */
  function SplitOn(s: string, c: char): (parts: seq<string>)
    ensures |parts| > 0
    ensures forall i :: 0 <= i < |parts| ==> c !in parts[i]
    decreases |s|
  {
    if c !in s then [s]
    else
      var i := IndexOf(s, c);
      [s[..i]] + SplitOn(s[i + 1..], c)
  }

  /** JavaScript `parts.join(sep)`. */
  function Join(parts: seq<string>, sep: string): string
  {
    if |parts| == 0 then ""
    else if |parts| == 1 then parts[0]
    else parts[0] + sep + Join(parts[1..], sep)
  }

  /** `Join` of at least two pieces is the first, the separator, and the
      `Join` of the rest. */
  lemma JoinCons(p: string, rest: seq<string>, sep: string)
    requires |rest| > 0
    ensures Join([p] + rest, sep) == p + sep + Join(rest, sep)
  {
    assert ([p] + rest)[1..] == rest;
  }

  /** A text is its part before `i`, the character at `i`, and its part after. */
  lemma CutAt(s: string, i: nat)
    requires i < |s|
    ensures s == s[..i] + [s[i]] + s[i + 1..]
  {
  }

  /** Joining the pieces of a split restores the text. */
  lemma {:induction false} JoinSplitOn(s: string, c: char)
    ensures Join(SplitOn(s, c), [c]) == s
    decreases |s|
  {
    if c in s {
      var i := IndexOf(s, c);
      var rest := SplitOn(s[i + 1..], c);
      SplitOnAt(s, c, i);
      JoinSplitOn(s[i + 1..], c);
      JoinCons(s[..i], rest, [c]);
      CutAt(s, i);
    }
  }

  /** Splitting a join restores the pieces, provided no piece holds the separator. */
  lemma {:induction false} SplitOnJoin(parts: seq<string>, c: char)
    requires |parts| > 0
    requires forall i :: 0 <= i < |parts| ==> c !in parts[i]
    ensures SplitOn(Join(parts, [c]), c) == parts
  {
    if |parts| > 1 {
      var p, rest := parts[0], parts[1..];
      assert parts == [p] + rest;
      JoinCons(p, rest, [c]);
      SplitOnJoin(rest, c);
      SplitOnAppendFree(p, Join(rest, [c]), c);
    }
  }

  /** `n` space characters. */
  function Spaces(n: nat): (s: string)
    ensures |s| == n && forall i :: 0 <= i < n ==> s[i] == ' '
  {
    seq(n, _ => ' ')
  }

  /** `SplitOn` cuts at the first separator, wherever that is. */
  lemma SplitOnAt(s: string, c: char, i: nat)
    requires i < |s| && s[i] == c && c !in s[..i]
    ensures SplitOn(s, c) == [s[..i]] + SplitOn(s[i + 1..], c)
  {
    IndexOfUnique(s, c, i);
  }

  /** A first piece without the separator is split off whole. */
  lemma SplitOnAppendFree(x: string, y: string, c: char)
    requires c !in x
    ensures SplitOn(x + [c] + y, c) == [x] + SplitOn(y, c)
  {
    var s := x + [c] + y;
    assert s[..|x|] == x && s[|x|] == c && s[|x| + 1..] == y;
    SplitOnAt(s, c, |x|);
  }

  /** Cutting at the first separator of `x` is cutting `x + [c] + y` there. */
  lemma SplitOnStep(x: string, y: string, c: char, i: nat)
    requires i < |x| && x[i] == c && c !in x[..i]
    ensures SplitOn(x + [c] + y, c) == [x[..i]] + SplitOn(x[i + 1..] + [c] + y, c)
  {
    var s := x + [c] + y;
    assert s[..i] == x[..i] && s[i] == c && s[i + 1..] == x[i + 1..] + [c] + y;
    SplitOnAt(s, c, i);
  }

  /** Splitting a text made of two texts around a separator splits each of them. */
  lemma {:induction false} SplitOnAppend(x: string, y: string, c: char)
    ensures SplitOn(x + [c] + y, c) == SplitOn(x, c) + SplitOn(y, c)
    decreases |x|
  {
    if c !in x {
      SplitOnAppendFree(x, y, c);
    } else {
      var i := IndexOf(x, c);
      var tail := x[i + 1..];
      calc {
        SplitOn(x + [c] + y, c);
        == { SplitOnStep(x, y, c, i); }
        [x[..i]] + SplitOn(tail + [c] + y, c);
        == { SplitOnAppend(tail, y, c); }
        [x[..i]] + (SplitOn(tail, c) + SplitOn(y, c));
        == [x[..i]] + SplitOn(tail, c) + SplitOn(y, c);
        == { SplitOnAt(x, c, i); }
        SplitOn(x, c) + SplitOn(y, c);
      }
    }
  }
}
