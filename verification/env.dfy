/** constants/env.ts and commands/env.ts: the `KEY=VALUE` file `.env` in the
    home directory, how it is read into entries, and the `env` command that
    shows it, adds entries to it, or prints its usage. */
module Env {
  import opened Wrappers
  import opened Strings
  import opened Records
  import opened Registry
  import opened Help

  /** The environment entries, in key insertion order; a value is `None`
      where JavaScript holds `undefined` (a piece without `=`). */
  type EnvEntries = Record<Option<string>>

  /** `item.split('=')` read as a `[key, value]` pair: the key is the text
      before the first `=`, the value the text between the first and the
      second `=`, and there is no value when the text has no `=`. */
  function EnvPair(item: string): (p: (string, Option<string>))
    ensures '=' !in item ==> p == (item, None)
    ensures '=' in item ==>
      var i := IndexOf(item, '=');
      var rest := item[i + 1..];
      p == (item[..i], Some(if '=' in rest then rest[..IndexOf(rest, '=')] else rest))
  {
    var parts := SplitOn(item, '=');
    if '=' in item then
      var i := IndexOf(item, '=');
      var rest := item[i + 1..];
      assert parts == [item[..i]] + SplitOn(rest, '=');
      assert SplitOn(rest, '=')[0] == if '=' in rest then rest[..IndexOf(rest, '=')] else rest;
      (parts[0], Some(parts[1]))
    else
      (parts[0], None)
  }

  function Pairs(items: seq<string>): (ps: seq<(string, Option<string>)>)
    ensures |ps| == |items| && forall i :: 0 <= i < |items| ==> ps[i] == EnvPair(items[i])
  {
    seq(|items|, i requires 0 <= i < |items| => EnvPair(items[i]))
  }

  /** `.filter(Boolean)` on strings: the non-empty ones, in order. */
  function NonBlank(items: seq<string>): (r: seq<string>)
    ensures forall x :: x in r <==> x in items && x != ""
    ensures (forall i :: 0 <= i < |items| ==> items[i] != "") ==> r == items
  {
    if |items| == 0 then []
    else if items[0] == "" then NonBlank(items[1..])
    else [items[0]] + NonBlank(items[1..])
  }

  lemma {:induction false} NonBlankAppend(a: seq<string>, b: seq<string>)
    ensures NonBlank(a + b) == NonBlank(a) + NonBlank(b)
  {
    if |a| == 0 {
      assert a + b == b;
    } else {
      assert (a + b)[0] == a[0];
      assert (a + b)[1..] == a[1..] + b;
      NonBlankAppend(a[1..], b);
    }
  }

  /** The value the last pair with key `k` gives, if there is one. */
  function LastFor(pairs: seq<(string, Option<string>)>, k: string): Option<Option<string>>
  {
    if |pairs| == 0 then None
    else if pairs[|pairs| - 1].0 == k then Some(pairs[|pairs| - 1].1)
    else LastFor(pairs[..|pairs| - 1], k)
  }

  /** The pairs assigned into `r` one after another (`Object.fromEntries`,
      or the `envEntries[key] = value` loop): the last pair for a key wins,
      keys already present keep their place, new keys follow. */
  function AddEntries(r: EnvEntries, pairs: seq<(string, Option<string>)>): (r': EnvEntries)
    ensures forall k :: Find(r', k) == if LastFor(pairs, k).Some? then LastFor(pairs, k) else Find(r, k)
    ensures Keys(r) <= Keys(r')
    decreases |pairs|
  {
    if |pairs| == 0 then r
    else
      var last := pairs[|pairs| - 1];
      var before := AddEntries(r, pairs[..|pairs| - 1]);
      Put(before, last.0, last.1)
  }

  /** Assigning pairs with distinct keys into nothing gives those pairs. */
  lemma {:induction false} AddEntriesFresh(pairs: EnvEntries)
    ensures AddEntries([], pairs) == pairs
    decreases |pairs|
  {
    if |pairs| > 0 {
      var init: EnvEntries := pairs[..|pairs| - 1];
      var last := pairs[|pairs| - 1];
      AddEntriesFresh(init);
      LastKeyFresh(pairs, init);
      assert AddEntries([], pairs) == Put(AddEntries([], init), last.0, last.1);
      assert init + [last] == pairs;
    }
  }

  /** The last key of a record is not among the keys before it. */
  lemma LastKeyFresh(pairs: EnvEntries, init: EnvEntries)
    requires |pairs| > 0 && init == pairs[..|pairs| - 1]
    ensures pairs[|pairs| - 1].0 !in Keys(init)
  {
    forall i | 0 <= i < |init|
      ensures Keys(init)[i] != pairs[|pairs| - 1].0
    {
      assert init[i] == pairs[i];
    }
  }

  /** Lines 8-13 of constants/env.ts: the text split into lines, blank lines
      dropped, each line read as a pair. */
  function ParseEnv(text: string): EnvEntries {
    AddEntries([], Pairs(NonBlank(SplitOn(text, '\n'))))
  }

  /** `ENV_ENTRIES`: a missing `.env` reads as the empty text. */
  function ReadEnv(files: map<string, string>): (r: EnvEntries)
    ensures EnvPath !in files ==> r == []
  {
    ParseEnv(if EnvPath in files then files[EnvPath] else "")
  }

  /** A blank line anywhere in the file changes nothing. */
  lemma ParseEnvSkipsBlankLine(a: string, b: string)
    ensures ParseEnv(a + "\n\n" + b) == ParseEnv(a + "\n" + b)
  {
    assert a + "\n\n" + b == a + ['\n'] + ("" + ['\n'] + b);
    assert a + "\n" + b == a + ['\n'] + b;
    SplitOnAppend(a, "" + ['\n'] + b, '\n');
    SplitOnAppend("", b, '\n');
    SplitOnAppend(a, b, '\n');
    NonBlankAppend(SplitOn(a, '\n'), SplitOn("", '\n') + SplitOn(b, '\n'));
    NonBlankAppend(SplitOn("", '\n'), SplitOn(b, '\n'));
    NonBlankAppend(SplitOn(a, '\n'), SplitOn(b, '\n'));
  }

  /** A `k=v` line with no other `=` reads as the pair `(k, v)`. */
  lemma EnvPairOf(k: string, v: string)
    requires '=' !in k && '=' !in v
    ensures EnvPair(k + "=" + v) == (k, Some(v))
  {
    assert Join([k, v], "=") == k + "=" + v;
    SplitOnJoin([k, v], '=');
  }

  /** A `k=v` line holds only the characters of `k`, `v` and the `=`. */
  lemma LineAvoids(k: string, v: string, ch: char)
    requires ch !in k && ch !in v && ch != '='
    ensures ch !in k + "=" + v
  {
  }

  /** A non-blank line appended after a line break adds one line. */
  lemma AppendLine(a: string, line: string)
    requires '\n' !in line && line != ""
    ensures NonBlank(SplitOn(a + ['\n'] + line, '\n')) == NonBlank(SplitOn(a, '\n')) + [line]
  {
    SplitOnAppend(a, line, '\n');
    NonBlankAppend(SplitOn(a, '\n'), [line]);
  }

  /** A line appended to the file decides its key's value. */
  lemma ParseEnvLaterLineWins(a: string, k: string, v: string)
    requires '\n' !in k && '=' !in k && '\n' !in v && '=' !in v
    ensures Find(ParseEnv(a + "\n" + k + "=" + v), k) == Some(Some(v))
  {
    var line := k + "=" + v;
    assert a + "\n" + k + "=" + v == a + ['\n'] + line;
    LineAvoids(k, v, '\n');
    AppendLine(a, line);
    var pairs := Pairs(NonBlank(SplitOn(a, '\n')) + [line]);
    EnvPairOf(k, v);
    assert pairs[|pairs| - 1] == (k, Some(v));
  }

  /** `undefined` prints as the word. */
  function Show(v: Option<string>): string {
    if v.Some? then v.value else "undefined"
  }

  function EnvLines(r: seq<(string, Option<string>)>): (lines: seq<string>)
    ensures |lines| == |r| && forall i :: 0 <= i < |r| ==> lines[i] == r[i].0 + "=" + Show(r[i].1)
  {
    seq(|r|, i requires 0 <= i < |r| => r[i].0 + "=" + Show(r[i].1))
  }

  /** Lines 45-47 of commands/env.ts: one `k=v` line per entry, joined by
      line breaks, no final line break. */
  function WriteEnv(r: EnvEntries): (text: string)
    ensures |r| == 0 ==> text == ""
  {
    Join(EnvLines(r), "\n")
  }

  /** The written text splits at its line breaks into exactly one `k=v`
      line per entry, in order: no line is added, and no final line break. */
  lemma WriteEnvLines(r: EnvEntries)
    requires |r| > 0
    requires forall i :: 0 <= i < |r| ==> '\n' !in r[i].0 && '\n' !in Show(r[i].1)
    ensures SplitOn(WriteEnv(r), '\n') == EnvLines(r)
  {
    var lines := EnvLines(r);
    forall i | 0 <= i < |lines|
      ensures '\n' !in lines[i]
    {
      LineAvoids(r[i].0, Show(r[i].1), '\n');
    }
    SplitOnJoin(lines, '\n');
  }

  /** Entries that survive being written: keys and values free of `=` and
      line breaks, and every value defined. */
  predicate Writable(r: EnvEntries) {
    forall i :: 0 <= i < |r| ==>
      && '=' !in r[i].0 && '\n' !in r[i].0
      && r[i].1.Some? && '=' !in r[i].1.value && '\n' !in r[i].1.value
  }

  /** Reading back what was written gives the same entries, in the same order. */
  lemma EnvRoundTrip(r: EnvEntries)
    requires Writable(r)
    ensures ParseEnv(WriteEnv(r)) == r
  {
    var lines := EnvLines(r);
    if |r| > 0 {
      forall i | 0 <= i < |r|
        ensures '\n' !in lines[i] && lines[i] != "" && EnvPair(lines[i]) == r[i]
      {
        var k := r[i].0;
        var v := r[i].1.value;
        assert lines[i] == k + "=" + v;
        assert Join([k, v], "=") == lines[i];
        SplitOnJoin([k, v], '=');
      }
      SplitOnJoin(lines, '\n');
      assert Pairs(lines) == r;
    }
    AddEntriesFresh(r);
  }

  /** Whitespace as JavaScript's `\s` matches it. */
  predicate IsSpace(c: char) {
    || c == ' ' || c == '\t' || c == '\n' || c == '\r' || c == '\U{000B}' || c == '\U{000C}'
    || c == '\U{00A0}' || c == '\U{1680}' || ('\U{2000}' <= c <= '\U{200A}')
    || c == '\U{2028}' || c == '\U{2029}' || c == '\U{202F}' || c == '\U{205F}'
    || c == '\U{3000}' || c == '\U{FEFF}'
  }

  /** The text after its leading whitespace. */
  function DropSpaces(s: string): (r: string)
    ensures |r| <= |s| && r == s[|s| - |r|..]
    ensures |r| == 0 || !IsSpace(r[0])
    ensures forall i :: 0 <= i < |s| - |r| ==> IsSpace(s[i])
  {
    if |s| > 0 && IsSpace(s[0]) then
      var r := DropSpaces(s[1..]);
      DropSpacesStep(s, r);
      r
    else s
  }

  /** The step of `DropSpaces`: a whitespace character in front of a
      dropped run extends it. */
  lemma DropSpacesStep(s: string, r: string)
    requires |s| > 0 && IsSpace(s[0])
    requires |r| <= |s| - 1 && r == s[1..][|s| - 1 - |r|..]
    requires forall i :: 0 <= i < |s| - 1 - |r| ==> IsSpace(s[1..][i])
    ensures r == s[|s| - |r|..]
    ensures forall i :: 0 <= i < |s| - |r| ==> IsSpace(s[i])
  {
    forall i | 0 <= i < |s| - |r|
      ensures IsSpace(s[i])
    {
      if i > 0 {
        assert s[i] == s[1..][i - 1];
      }
    }
  }

  /** A match of `/,\s+/` starts at `i`. */
  predicate SeparatorAt(s: string, i: int) {
    0 <= i && i + 1 < |s| && s[i] == ',' && IsSpace(s[i + 1])
  }

  /** `s.split(/,\s+/)`: cut at every comma followed by whitespace, the
      whitespace run going with the separator. */
  function SplitInput(s: string): (parts: seq<string>)
    ensures |parts| > 0 && parts[0] <= s
    ensures forall j, i :: 0 <= j < |parts| ==> !SeparatorAt(parts[j], i)
    ensures forall j :: 0 < j < |parts| ==> |parts[j]| == 0 || !IsSpace(parts[j][0])
    decreases |s|
  {
    if |s| < 2 then [s]
    else if SeparatorAt(s, 0) then [""] + SplitInput(DropSpaces(s[1..]))
    else
      var t := SplitInput(s[1..]);
      var first := [s[0]] + t[0];
      assert forall i :: 0 < i ==> SeparatorAt(first, i) == SeparatorAt(t[0], i - 1);
      [first] + t[1..]
  }

  /** What one match of `/,\s+/` covers: a comma, then a non-empty run of
      whitespace. */
  predicate IsSeparator(w: string) {
    |w| >= 2 && w[0] == ',' && forall i :: 1 <= i < |w| ==> IsSpace(w[i])
  }

  /** The pieces with `seps[i]` between piece `i` and piece `i + 1`. */
  function Interleave(parts: seq<string>, seps: seq<string>): string
    requires |parts| == |seps| + 1
    decreases |seps|
  {
    if |seps| == 0 then parts[0] else parts[0] + seps[0] + Interleave(parts[1..], seps[1..])
  }

  /** A whitespace run in front of text that does not start with whitespace
      is dropped whole. */
  lemma {:induction false} DropSpacesRun(w: string, s: string)
    requires forall i :: 0 <= i < |w| ==> IsSpace(w[i])
    requires |s| == 0 || !IsSpace(s[0])
    ensures DropSpaces(w + s) == s
    decreases |w|
  {
    if |w| > 0 {
      assert (w + s)[1..] == w[1..] + s;
      DropSpacesRun(w[1..], s);
    } else {
      assert w + s == s;
    }
  }

  /** A piece with no separator in it is not split. */
  lemma {:induction false} SplitInputPiece(p: string)
    requires forall i :: !SeparatorAt(p, i)
    ensures SplitInput(p) == [p]
    decreases |p|
  {
    if |p| >= 2 {
      assert !SeparatorAt(p, 0);
      forall i
        ensures !SeparatorAt(p[1..], i)
      {
        assert SeparatorAt(p[1..], i) ==> SeparatorAt(p, i + 1);
      }
      SplitInputPiece(p[1..]);
      assert [p[0]] + p[1..] == p;
    }
  }

  /** A piece, a separator, then text not starting with whitespace: the
      piece is cut off as the first part. */
  lemma {:induction false} SplitInputCons(p: string, w: string, s: string)
    requires forall i :: !SeparatorAt(p, i)
    requires IsSeparator(w)
    requires |s| == 0 || !IsSpace(s[0])
    ensures SplitInput(p + w + s) == [p] + SplitInput(s)
    decreases |p|
  {
    var t := p + w + s;
    if |p| == 0 {
      assert t == w + s;
      assert SeparatorAt(t, 0);
      assert t[1..] == w[1..] + s;
      DropSpacesRun(w[1..], s);
    } else {
      assert !SeparatorAt(t, 0) by {
        if |p| >= 2 {
          assert !SeparatorAt(p, 0);
          assert t[1] == p[1];
        } else {
          assert t[1] == ',';
        }
      }
      forall i
        ensures !SeparatorAt(p[1..], i)
      {
        assert SeparatorAt(p[1..], i) ==> SeparatorAt(p, i + 1);
      }
      assert t[1..] == p[1..] + w + s;
      SplitInputCons(p[1..], w, s);
      assert [p[0]] + p[1..] == p;
    }
  }

  /** Splitting pieces put together with separators gives the pieces back,
      when no piece holds a separator and none after the first starts with
      whitespace (which the separator before it would have taken). */
  lemma {:induction false} SplitInputJoin(parts: seq<string>, seps: seq<string>)
    requires |parts| == |seps| + 1
    requires forall j, i :: 0 <= j < |parts| ==> !SeparatorAt(parts[j], i)
    requires forall j :: 0 < j < |parts| ==> |parts[j]| == 0 || !IsSpace(parts[j][0])
    requires forall j :: 0 <= j < |seps| ==> IsSeparator(seps[j])
    ensures SplitInput(Interleave(parts, seps)) == parts
    decreases |seps|
  {
    if |seps| == 0 {
      SplitInputPiece(parts[0]);
    } else {
      var rest := Interleave(parts[1..], seps[1..]);
      SplitInputJoin(parts[1..], seps[1..]);
      assert |rest| == 0 || !IsSpace(rest[0]) by {
        if |seps| > 1 {
          assert rest == parts[1] + seps[1] + Interleave(parts[2..], seps[2..]);
          if |parts[1]| == 0 {
            assert rest[0] == seps[1][0];
          } else {
            assert rest[0] == parts[1][0];
          }
        }
      }
      SplitInputCons(parts[0], seps[0], rest);
      assert parts == [parts[0]] + parts[1..];
    }
  }

  /** A separator at the front of `s` reaches to where `DropSpaces` stops. */
  lemma SeparatorPrefix(s: string, t: string, rest: string, w: string)
    requires SeparatorAt(s, 0) && t == s[1..] && rest == DropSpaces(t) && w == s[..|s| - |rest|]
    ensures IsSeparator(w) && s == w + rest
  {
    var k := |t| - |rest|;
    DropSpacesShorter(t);
    SeparatorRun(s, t, k);
    CutAfterFirst(s, t, rest, k);
  }

  /** `s` is its first `k + 1` characters followed by the rest of `t`. */
  lemma CutAfterFirst(s: string, t: string, rest: string, k: int)
    requires |s| > 0 && t == s[1..] && 0 <= k <= |t| && rest == t[k..]
    ensures s == s[..k + 1] + rest
  {
    assert s[k + 1..] == rest;
    assert s[..k + 1] + s[k + 1..] == s;
  }

  /** Whitespace in front is dropped. */
  lemma DropSpacesShorter(t: string)
    requires |t| > 0 && IsSpace(t[0])
    ensures |DropSpaces(t)| < |t|
  {
  }

  /** A comma and the whitespace run after it make a separator. */
  lemma SeparatorRun(s: string, t: string, k: int)
    requires |s| > 0 && s[0] == ',' && t == s[1..] && 1 <= k <= |t|
    requires forall i :: 0 <= i < k ==> IsSpace(t[i])
    ensures IsSeparator(s[..k + 1])
  {
    var w := s[..k + 1];
    forall i | 1 <= i < |w|
      ensures IsSpace(w[i])
    {
      assert w[i] == t[i - 1];
    }
  }

  /** A character in front of the first piece goes in front of the whole. */
  lemma InterleaveFront(c: char, parts: seq<string>, seps: seq<string>)
    requires |parts| == |seps| + 1
    ensures Interleave([[c] + parts[0]] + parts[1..], seps) == [c] + Interleave(parts, seps)
  {
    var front := [[c] + parts[0]] + parts[1..];
    if |seps| > 0 {
      assert front[1..] == parts[1..];
    }
  }

  /** The step of `SplitInputSeparators` at a separator. */
  lemma SeparatorsCut(s: string, w: string, rest: string, more: seq<string>)
    requires SeparatorAt(s, 0) && rest == DropSpaces(s[1..]) && w == s[..|s| - |rest|]
    requires |more| + 1 == |SplitInput(rest)| && Interleave(SplitInput(rest), more) == rest
    ensures IsSeparator(w) && |more| + 2 == |SplitInput(s)|
    ensures Interleave(SplitInput(s), [w] + more) == s
  {
    SeparatorPrefix(s, s[1..], rest, w);
    SplitInputAtSeparator(s);
    InterleaveCut(w, SplitInput(rest), more);
  }

  /** A separator at the front cuts off an empty first piece. */
  lemma SplitInputAtSeparator(s: string)
    requires SeparatorAt(s, 0)
    ensures SplitInput(s) == [""] + SplitInput(DropSpaces(s[1..]))
  {
  }

  /** An empty first piece and a separator in front of the rest. */
  lemma InterleaveCut(w: string, parts: seq<string>, seps: seq<string>)
    requires |parts| == |seps| + 1
    ensures Interleave([""] + parts, [w] + seps) == w + Interleave(parts, seps)
  {
    var front, cuts := [""] + parts, [w] + seps;
    assert front[1..] == parts && cuts[1..] == seps;
    assert front[0] + cuts[0] == w;
  }

  /** The step of `SplitInputSeparators` at a character that starts no
      separator. */
  lemma SeparatorsShift(s: string, seps: seq<string>)
    requires |s| >= 2 && !SeparatorAt(s, 0)
    requires |seps| + 1 == |SplitInput(s[1..])| && Interleave(SplitInput(s[1..]), seps) == s[1..]
    ensures |seps| + 1 == |SplitInput(s)| && Interleave(SplitInput(s), seps) == s
  {
    var t := SplitInput(s[1..]);
    assert SplitInput(s) == [[s[0]] + t[0]] + t[1..];
    InterleaveFront(s[0], t, seps);
    assert [s[0]] + s[1..] == s;
  }

  /** Every text is its pieces put back together with the separators the
      split removed. */
  lemma {:induction false} SplitInputSeparators(s: string) returns (seps: seq<string>)
    ensures |seps| + 1 == |SplitInput(s)|
    ensures forall j :: 0 <= j < |seps| ==> IsSeparator(seps[j])
    ensures Interleave(SplitInput(s), seps) == s
    decreases |s|
  {
    if |s| < 2 {
      seps := [];
    } else if SeparatorAt(s, 0) {
      var rest := DropSpaces(s[1..]);
      var more := SplitInputSeparators(rest);
      var w := s[..|s| - |rest|];
      SeparatorsCut(s, w, rest, more);
      seps := [w] + more;
    } else {
      var more := SplitInputSeparators(s[1..]);
      seps := more;
      SeparatorsShift(s, more);
    }
  }

  /** Lines 35-38 of commands/env.ts: the entered text read as pairs. */
  function InputEntries(answer: string): seq<(string, Option<string>)> {
    Pairs(NonBlank(SplitInput(answer)))
  }

  /** Lines 33-52 of commands/env.ts: the entered pairs assigned over the
      current entries and the result written to `.env`. */
  function EnvAdd(files: map<string, string>, answer: string): (r: map<string, string>)
    ensures EnvPath in r
    ensures forall p :: p != EnvPath ==> SameAt(r, files, p)
  {
    files[EnvPath := WriteEnv(AddEntries(ReadEnv(files), InputEntries(answer)))]
  }

  /** After `env add`, an entered key has the value last entered for it and
      every other key keeps its value, as far as the file can hold them. */
  lemma EnvAddEntries(files: map<string, string>, answer: string)
    requires Writable(AddEntries(ReadEnv(files), InputEntries(answer)))
    ensures var after := ReadEnv(EnvAdd(files, answer));
            forall k :: Find(after, k) ==
              if LastFor(InputEntries(answer), k).Some? then LastFor(InputEntries(answer), k) else Find(ReadEnv(files), k)
  {
    EnvRoundTrip(AddEntries(ReadEnv(files), InputEntries(answer)));
  }

  /** What the `env` command does. */
  datatype EnvOutcome =
    | Printed(text: string)       // `view` with a `.env`
    | NotSetYet                   // `view` without one
    | Updated(files: map<string, string>)
    | Usage(commands: string)     // the rendered command rows of the usage text

  const EnvSubcommands: seq<(string, string)> := [
    ("view", "View existing environment variables (for cliff)"),
    ("add", "Add environment variables (for cliff)")]

  /** `envCommand`: `view` prints the file, `add` takes the entered text,
      anything else (a missing subcommand included) prints the usage. */
  function EnvCommand(subcommand: Option<string>, files: map<string, string>, answer: string): (r: EnvOutcome)
    ensures subcommand == Some("view") ==> (r.Printed? <==> EnvPath in files)
    ensures subcommand == Some("view") && EnvPath in files ==> r == Printed(files[EnvPath])
    ensures subcommand == Some("view") && EnvPath !in files ==> r == NotSetYet
    ensures subcommand == Some("add") ==> r == Updated(EnvAdd(files, answer))
    ensures subcommand != Some("view") && subcommand != Some("add") ==>
      r == Usage(RenderCommandHelpText(EnvSubcommands))
  {
    if subcommand == Some("view") then
      if EnvPath in files then Printed(files[EnvPath]) else NotSetYet
    else if subcommand == Some("add") then Updated(EnvAdd(files, answer))
    else Usage(RenderCommandHelpText(EnvSubcommands))
  }
}
