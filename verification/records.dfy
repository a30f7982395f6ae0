/** JavaScript plain objects with string keys, where the order of the keys is
    observable (`Object.keys`, `for ... in`, `JSON.stringify`): a sequence of
    key/value pairs in insertion order, no key twice. */
module Records {
  import opened Wrappers
  import opened Strings

  predicate UniqueKeys<V>(r: seq<(string, V)>) {
    forall i, j :: 0 <= i < j < |r| ==> r[i].0 != r[j].0
  }

  type Record<V> = r: seq<(string, V)> | UniqueKeys(r) witness []

  /** `Object.keys(r)`. */
  function Keys<V>(r: seq<(string, V)>): (ks: seq<string>)
    ensures |ks| == |r| && forall i :: 0 <= i < |r| ==> ks[i] == r[i].0
  {
    seq(|r|, i requires 0 <= i < |r| => r[i].0)
  }

  /** `r[k]`, with `None` for `undefined`. */
  function Find<V>(r: seq<(string, V)>, k: string): Option<V>
  {
    if |r| == 0 then None
    else if r[0].0 == k then Some(r[0].1)
    else Find(r[1..], k)
  }

  /** A key is found exactly when it is one of the keys; with unique keys the
      value found is the one paired with it. */
  lemma {:induction false} FindSpec<V>(r: Record<V>, k: string)
    ensures Find(r, k).Some? <==> k in Keys(r)
    ensures forall i :: 0 <= i < |r| && r[i].0 == k ==> Find(r, k) == Some(r[i].1)
  {
    if |r| > 0 {
      var tail: Record<V> := r[1..];
      FindSpec(tail, k);
      assert Keys(r) == [r[0].0] + Keys(tail);
    }
  }

  /** With unique keys, finding `v` under `k` is the same as holding the pair `(k, v)`. */
  lemma FindPair<V>(r: Record<V>, k: string, v: V)
    ensures Find(r, k) == Some(v) <==> (k, v) in r
  {
    FindSpec(r, k);
    if (k, v) in r {
      var i :| 0 <= i < |r| && r[i] == (k, v);
    }
    if Find(r, k) == Some(v) {
      var i :| 0 <= i < |Keys(r)| && Keys(r)[i] == k;
    }
  }

  /** Two records holding the same pairs answer every lookup alike. */
  lemma SamePairsSameFind<V>(r: Record<V>, s: Record<V>)
    requires forall x :: x in r <==> x in s
    ensures forall k :: Find(r, k) == Find(s, k)
  {
    forall k
      ensures Find(r, k) == Find(s, k)
    {
      FindSpec(r, k);
      FindSpec(s, k);
      if Find(r, k).Some? {
        FindPair(r, k, Find(r, k).value);
        FindPair(s, k, Find(r, k).value);
      } else if Find(s, k).Some? {
        FindPair(s, k, Find(s, k).value);
        FindPair(r, k, Find(s, k).value);
      }
    }
  }

  /** Putting a pair in front of a record keeps keys unique when its key is new. */
  lemma UniqueCons<V>(p: (string, V), r: seq<(string, V)>)
    requires UniqueKeys(r) && forall i :: 0 <= i < |r| ==> r[i].0 != p.0
    ensures UniqueKeys([p] + r) && Keys([p] + r) == [p.0] + Keys(r)
  {
    var s := [p] + r;
    forall i, j | 0 <= i < j < |s|
      ensures s[i].0 != s[j].0
    {
      if i == 0 {
        assert s[j].0 == Keys(r)[j - 1];
      }
    }
  }

  /** `r[k] = v`: an existing key keeps its place, a new key goes last. */
  function Put<V>(r: Record<V>, k: string, v: V): (r': Record<V>)
    ensures Find(r', k) == Some(v)
    ensures forall k' :: k' != k ==> Find(r', k') == Find(r, k')
    ensures k in Keys(r) ==> Keys(r') == Keys(r)
    ensures k !in Keys(r) ==> Keys(r') == Keys(r) + [k] && r' == r + [(k, v)]
  {
    if |r| == 0 then [(k, v)]
    else
      var tail: Record<V> := r[1..];
      assert Keys(r) == [r[0].0] + Keys(tail);
      if r[0].0 == k then
        UniqueCons((k, v), tail);
        [(k, v)] + tail
      else
        var t := Put(tail, k, v);
        UniqueCons(r[0], t);
        [r[0]] + t
  }

  /** Assigns every pair of `s` into `r`, in the order of `s`
      (the `for (k in s) r[k] = s[k]` loop). */
  function PutAll<V>(r: Record<V>, s: Record<V>): (r': Record<V>)
    ensures forall k :: Find(r', k) == if Find(s, k).Some? then Find(s, k) else Find(r, k)
    decreases |s|
  {
    if |s| == 0 then r
    else
      var tail: Record<V> := s[1..];
      FindSpec(tail, s[0].0);
      assert forall i :: 0 <= i < |tail| ==> tail[i].0 != s[0].0;
      PutAll(Put(r, s[0].0, s[0].1), tail)
  }

  /** The pairs whose key satisfies `keep`, in their original order
      (`FilterKeepsOrder`). */
  function Filter<V(!new)>(r: Record<V>, keep: string -> bool): (r': Record<V>)
    ensures forall k :: Find(r', k) == if keep(k) then Find(r, k) else None
    ensures forall x :: x in r' <==> x in r && keep(x.0)
    ensures Sorted(r) ==> Sorted(r')
  {
    if |r| == 0 then []
    else
      var t := Filter(r[1..], keep);
      FilterStep(r, keep, t);
      if keep(r[0].0) then [r[0]] + t else t
  }

  /** What `Filter` promises of `out`, as one fact. */
  ghost predicate Filtered<V(!new)>(r: seq<(string, V)>, keep: string -> bool, out: seq<(string, V)>) {
    && (forall k :: Find(out, k) == if keep(k) then Find(r, k) else None)
    && (forall x :: x in out <==> x in r && keep(x.0))
    && (Sorted(r) ==> Sorted(out))
  }

  /** `x` comes before `y` in `r`. */
  ghost predicate Precedes<V>(r: seq<(string, V)>, x: (string, V), y: (string, V)) {
    exists a, b :: 0 <= a < b < |r| && r[a] == x && r[b] == y
  }

  /** The step of `Filter`: a kept first pair goes in front of the filtered
      tail, a dropped one is left out. */
  lemma FilterStep<V(!new)>(r: Record<V>, keep: string -> bool, t: Record<V>)
    requires |r| > 0
    requires Filtered(r[1..], keep, t)
    ensures keep(r[0].0) ==> UniqueKeys([r[0]] + t) && Filtered(r, keep, [r[0]] + t)
    ensures !keep(r[0].0) ==> Filtered(r, keep, t)
  {
    var tail: Record<V> := r[1..];
    FilterStepFind(r, keep, t);
    FilterStepMembers(r, keep, t);
    if keep(r[0].0) {
      FilterKeep(r, tail, t);
    } else if Sorted(r) {
      SortedTail(r);
    }
  }

  /** The pairs of the step of `Filter`. */
  lemma FilterStepMembers<V(!new)>(r: seq<(string, V)>, keep: string -> bool, t: seq<(string, V)>)
    requires |r| > 0
    requires forall x :: x in t <==> x in r[1..] && keep(x.0)
    ensures keep(r[0].0) ==> forall x :: x in [r[0]] + t <==> x in r && keep(x.0)
    ensures !keep(r[0].0) ==> forall x :: x in t <==> x in r && keep(x.0)
  {
    assert r == [r[0]] + r[1..];
  }

  /** `Filter` keeps the pairs it keeps in their order in `r`. */
  lemma {:induction false} FilterKeepsOrder<V(!new)>(r: Record<V>, keep: string -> bool)
    ensures OrderedIn(r, Filter(r, keep))
  {
    if |r| > 0 {
      var tail: Record<V> := r[1..];
      var t := Filter(tail, keep);
      FilterKeepsOrder(tail, keep);
      assert forall x :: x in t ==> x in r[1..];
      FilterStepOrder(r, t);
      assert Filter(r, keep) == if keep(r[0].0) then [r[0]] + t else t;
    }
  }

  /** Every pair of `out` comes before the later ones in `r` too. */
  ghost predicate OrderedIn<V>(r: seq<(string, V)>, out: seq<(string, V)>) {
    forall i, j :: 0 <= i < j < |out| ==> Precedes(r, out[i], out[j])
  }

  /** The order of the step of `Filter`: what the filtered tail keeps in
      order stays in order, and a kept first pair precedes all of it. */
  lemma FilterStepOrder<V>(r: seq<(string, V)>, t: seq<(string, V)>)
    requires |r| > 0
    requires forall x :: x in t ==> x in r[1..]
    requires OrderedIn(r[1..], t)
    ensures OrderedIn(r, t) && OrderedIn(r, [r[0]] + t)
  {
    forall i, j | 0 <= i < j < |t|
      ensures Precedes(r, t[i], t[j])
    {
      var a, b :| 0 <= a < b < |r[1..]| && r[1..][a] == t[i] && r[1..][b] == t[j];
      assert r[a + 1] == t[i] && r[b + 1] == t[j];
    }
    var s := [r[0]] + t;
    forall i, j | 0 <= i < j < |s|
      ensures Precedes(r, s[i], s[j])
    {
      if i == 0 {
        assert s[j] == t[j - 1] && t[j - 1] in t;
        var b :| 0 <= b < |r[1..]| && r[1..][b] == t[j - 1];
        assert r[0] == s[0] && r[b + 1] == s[j];
      } else {
        assert s[i] == t[i - 1] && s[j] == t[j - 1];
      }
    }
  }

  /** The lookups of the step of `Filter`. */
  lemma FilterStepFind<V>(r: seq<(string, V)>, keep: string -> bool, t: seq<(string, V)>)
    requires |r| > 0
    requires forall k :: Find(t, k) == if keep(k) then Find(r[1..], k) else None
    ensures keep(r[0].0) ==> forall k :: Find([r[0]] + t, k) == if keep(k) then Find(r, k) else None
    ensures !keep(r[0].0) ==> forall k :: Find(t, k) == if keep(k) then Find(r, k) else None
  {
    forall k
      ensures Find([r[0]] + t, k) == if r[0].0 == k then Some(r[0].1) else Find(t, k)
    {
      FindCons(r[0], t, k);
    }
  }

  lemma SortedTail<V>(r: seq<(string, V)>)
    requires |r| > 0 && Sorted(r)
    ensures Sorted(r[1..])
  {
    forall i, j | 0 <= i < j < |r| - 1
      ensures Below(r[1..][i].0, r[1..][j].0)
    {
      assert r[1..][i] == r[i + 1] && r[1..][j] == r[j + 1];
    }
  }

  /** Looking up a record with a pair in front. */
  lemma FindCons<V>(p: (string, V), t: seq<(string, V)>, k: string)
    ensures Find([p] + t, k) == if p.0 == k then Some(p.1) else Find(t, k)
  {
    assert ([p] + t)[1..] == t;
  }

  lemma FilterKeep<V>(r: Record<V>, tail: Record<V>, t: Record<V>)
    requires |r| > 0 && tail == r[1..]
    requires forall x :: x in t ==> x in tail
    requires Sorted(tail) ==> Sorted(t)
    ensures UniqueKeys([r[0]] + t)
    ensures Sorted(r) ==> Sorted([r[0]] + t)
  {
    forall i | 0 <= i < |t|
      ensures t[i].0 != r[0].0
    {
      assert t[i] in tail;
      var j :| 0 <= j < |tail| && tail[j] == t[i];
      assert r[j + 1] == t[i];
    }
    UniqueCons(r[0], t);
    if Sorted(r) {
      forall x | x in t
        ensures Below(r[0].0, x.0)
      {
        var j :| 0 <= j < |tail| && tail[j] == x;
        assert r[j + 1] == x;
      }
      SortedCons(r[0], t);
    }
  }

  /** Keys strictly ascending in the order `Below`. */
  predicate Sorted<V>(r: seq<(string, V)>) {
    forall i, j :: 0 <= i < j < |r| ==> Below(r[i].0, r[j].0)
  }

  lemma SortedUnique<V>(r: seq<(string, V)>)
    requires Sorted(r)
    ensures UniqueKeys(r)
  {
    forall i, j | 0 <= i < j < |r|
      ensures r[i].0 != r[j].0
    {
      BelowIrreflexive(r[i].0);
    }
  }

  /** `[p] + r` is sorted when `r` is and `p` sorts before everything in it. */
  lemma SortedCons<V>(p: (string, V), r: seq<(string, V)>)
    requires Sorted(r)
    requires forall x :: x in r ==> Below(p.0, x.0)
    ensures Sorted([p] + r)
  {
    var s := [p] + r;
    forall i, j | 0 <= i < j < |s|
      ensures Below(s[i].0, s[j].0)
    {
      if i == 0 {
        assert s[j] == r[j - 1] && r[j - 1] in r;
      }
    }
  }

  /** One insertion-sort step: place `p` among the sorted pairs of `r`. */
  function Insert<V(!new)>(p: (string, V), r: seq<(string, V)>): (r': seq<(string, V)>)
    requires Sorted(r)
    requires forall x :: x in r ==> x.0 != p.0
    ensures Sorted(r')
    ensures |r'| == |r| + 1
    ensures forall x :: x in r' <==> x in r || x == p
  {
    if |r| == 0 then [p]
    else if Below(p.0, r[0].0) then
      forall x | x in r
        ensures Below(p.0, x.0)
      {
        var j :| 0 <= j < |r| && r[j] == x;
        if j > 0 {
          BelowTransitive(p.0, r[0].0, x.0);
        }
      }
      SortedCons(p, r);
      [p] + r
    else
      BelowTotal(p.0, r[0].0);
      var t := Insert(p, r[1..]);
      forall x | x in t
        ensures Below(r[0].0, x.0)
      {
        if x != p {
          assert x in r[1..];
          var j :| 0 <= j < |r[1..]| && r[1..][j] == x;
          assert r[j + 1] == x;
        }
      }
      SortedCons(r[0], t);
      assert forall x :: x in r <==> x == r[0] || x in r[1..];
      [r[0]] + t
  }

  /** Insertion sort of a record by key. */
  function Sort<V(!new)>(r: Record<V>): (r': Record<V>)
    ensures Sorted(r')
    ensures |r'| == |r|
    ensures forall x :: x in r' <==> x in r
  {
    if |r| == 0 then []
    else
      var tail: Record<V> := r[1..];
      var t := Sort(tail);
      forall x | x in t
        ensures x.0 != r[0].0
      {
        var j :| 0 <= j < |tail| && tail[j] == x;
        assert r[j + 1] == x;
      }
      var r' := Insert(r[0], t);
      SortedUnique(r');
      assert forall x :: x in r <==> x == r[0] || x in tail;
      r'
  }

  /** Sorting a record that is already sorted changes nothing. */
  lemma {:induction false} SortSorted<V(!new)>(r: Record<V>)
    requires Sorted(r)
    ensures Sort(r) == r
  {
    if |r| > 0 {
      var tail: Record<V> := r[1..];
      SortSorted(tail);
      assert Sort(r) == Insert(r[0], tail);
    }
  }
}
