/** utils/help.ts: the aligned two-column table of command keys and help
    texts shown in usage messages. */
module Help {
  import opened Wrappers
  import opened Strings
  import opened Records
  import opened CommandUtil

  /** `s.padEnd(n, ' ')`. */
  function PadEnd(s: string, n: int): (r: string)
    ensures |s| >= n ==> r == s
    ensures |s| < n ==> |r| == n && r[..|s|] == s && forall i :: |s| <= i < n ==> r[i] == ' '
  {
    if |s| >= n then s else s + Spaces(n - |s|)
  }

  /** One row: the key padded to `width`, one space, the help text. */
  function FormatRow(row: (string, string), width: int): string {
    PadEnd(row.0, width) + " " + row.1
  }

  /** The rows of the table, before joining. */
  function FormattedRows(rows: seq<(string, string)>): (lines: seq<string>)
    ensures |lines| == |rows|
  {
    match LongestCommandLength(Keys(rows))
    case None => []
    case Some(w) => seq(|rows|, i requires 0 <= i < |rows| => FormatRow(rows[i], w))
  }

  /** `renderCommandHelpText`: one row per pair, in input order, joined with
      a line break and the four-space indentation of the usage text. */
  function RenderCommandHelpText(rows: seq<(string, string)>): (r: string)
    ensures |rows| == 0 ==> r == ""
  {
    Join(FormattedRows(rows), "\n    ")
  }

  /** Every row puts its help text in the same column, one past the widest
      key: the key, then spaces only, then the help text. A key already as
      wide as the widest gets no padding. */
  lemma RowsAligned(rows: seq<(string, string)>, i: nat)
    requires i < |rows|
    ensures var w := LongestCommandLength(Keys(rows)).value;
            var line := FormattedRows(rows)[i];
            && |rows[i].0| <= w
            && |line| == w + 1 + |rows[i].1|
            && line[..|rows[i].0|] == rows[i].0
            && (forall j :: |rows[i].0| <= j <= w ==> line[j] == ' ')
            && line[w + 1..] == rows[i].1
            && (|rows[i].0| == w ==> line == rows[i].0 + " " + rows[i].1)
  {
    var w := LongestCommandLength(Keys(rows)).value;
    assert Keys(rows)[i] == rows[i].0;
    assert FormattedRows(rows)[i] == FormatRow(rows[i], w);
    FormatRowShape(rows[i].0, rows[i].1, w);
  }

  /** One row of a table of width `w`: the key, spaces up to column `w`, then
      the help text from column `w + 1`. */
  lemma FormatRowShape(key: string, text: string, w: nat)
    requires |key| <= w
    ensures var line := FormatRow((key, text), w);
            && |line| == w + 1 + |text|
            && line[..|key|] == key
            && (forall j :: |key| <= j <= w ==> line[j] == ' ')
            && line[w + 1..] == text
            && (|key| == w ==> line == key + " " + text)
  {
    var padded := PadEnd(key, w);
    var line := FormatRow((key, text), w);
    assert |padded| == w;
    assert line[..|key|] == padded[..|key|];
  }

  /** `Join` with a separator that starts with `c` is `Join` on `c` of the
      pieces, every piece after the first prefixed with the rest of the
      separator. */
  function Indented(pieces: seq<string>, indent: string): (r: seq<string>)
    ensures |r| == |pieces|
    ensures |pieces| > 0 ==> r[0] == pieces[0]
    ensures forall i :: 0 < i < |pieces| ==> r[i] == indent + pieces[i]
  {
    if |pieces| == 0 then [] else [pieces[0]] + seq(|pieces| - 1, i requires 0 <= i < |pieces| - 1 => indent + pieces[i + 1])
  }

  /** Past the first piece, indenting a list is indenting its tail. */
  lemma IndentedTail(pieces: seq<string>, indent: string)
    requires |pieces| > 1
    ensures var a, b := Indented(pieces, indent), Indented(pieces[1..], indent);
            && a == [pieces[0]] + a[1..]
            && a[1..] == [indent + pieces[1]] + b[1..]
            && b == [pieces[1]] + b[1..]
  {
    var a, b := Indented(pieces, indent), Indented(pieces[1..], indent);
    assert forall i :: 0 <= i < |a| - 1 ==> a[1..][i] == ([indent + pieces[1]] + b[1..])[i];
  }

  /** Prefixing the first piece prefixes the join. */
  lemma JoinPrefixFirst(indent: string, x: string, ys: seq<string>, sep: string)
    ensures Join([indent + x] + ys, sep) == indent + Join([x] + ys, sep)
  {
    if |ys| > 0 {
      JoinCons(indent + x, ys, sep);
      JoinCons(x, ys, sep);
    }
  }

  lemma {:induction false} JoinIndented(pieces: seq<string>, c: char, indent: string)
    ensures Join(pieces, [c] + indent) == Join(Indented(pieces, indent), [c])
    decreases |pieces|
  {
    if |pieces| > 1 {
      var first, rest := pieces[0], pieces[1..];
      var a, b := Indented(pieces, indent), Indented(rest, indent);
      JoinIndented(rest, c, indent);
      assert pieces == [first] + rest;
      JoinCons(first, rest, [c] + indent);
      IndentedTail(pieces, indent);
      JoinCons(first, a[1..], [c]);
      JoinPrefixFirst(indent, rest[0], b[1..], [c]);
    }
  }

  /** With no line break in any key or help text, the rendered table has one
      line per row: the first row as is, each later row indented by four
      spaces. */
  lemma RenderedLines(rows: seq<(string, string)>)
    requires |rows| > 0
    requires forall i :: 0 <= i < |rows| ==> '\n' !in rows[i].0 && '\n' !in rows[i].1
    ensures var lines := SplitOn(RenderCommandHelpText(rows), '\n');
            && |lines| == |rows|
            && lines[0] == FormattedRows(rows)[0]
            && forall i :: 0 < i < |rows| ==> lines[i] == "    " + FormattedRows(rows)[i]
  {
    var formatted := FormattedRows(rows);
    var w := LongestCommandLength(Keys(rows)).value;
    forall i | 0 <= i < |rows|
      ensures '\n' !in formatted[i]
    {
      var padded := PadEnd(rows[i].0, w);
      assert formatted[i] == padded + " " + rows[i].1;
      assert forall j :: 0 <= j < |padded| ==> padded[j] == ' ' || padded[j] in rows[i].0;
    }
    assert "\n    " == ['\n'] + "    ";
    JoinIndented(formatted, '\n', "    ");
    var shifted := Indented(formatted, "    ");
    forall i | 0 <= i < |shifted|
      ensures '\n' !in shifted[i]
    {
      if i > 0 {
        assert shifted[i] == "    " + formatted[i];
      }
    }
    SplitOnJoin(shifted, '\n');
  }
}
