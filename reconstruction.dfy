/** Reconstruction of a minified file when its source map embeds no source
    text (main.js:69-90): every column of every line is looked up in the
    source map, and the column contributes nothing, the original name, or a
    character of the minified file. */
module Reconstruction {
  import opened Wrappers
  import opened Strings

  /** What `originalPositionFor` reports for one generated position: the
      original source (null when the position is not mapped) and the original
      name token (null when the mapping carries none). */
  datatype Original = Original(source: Option<string>, name: Option<string>)

  /** The source map's position query: 1-based generated line, 0-based
      generated column. Its decoding is outside this model. */
  type Lookup = (nat, nat) -> Original

  /** `s.charAt(i)`: the one-character string at `i`, or "" past the end. */
  function CharAt(s: string, i: nat): (r: string)
  {
    if i < |s| then [s[i]] else []
  }

  /** A name is used only when it is truthy: present and non-empty. */
  predicate HasName(o: Original)
  {
    o.name.Some? && o.name.value != []
  }

  /** The text one column adds (main.js:80-86). The fallback character is
      taken from the whole minified file `code`, not from the current line. */
  function Contribution(code: string, o: Original, column: nat): (r: string)
  {
    if o.source.None? then []
    else if HasName(o) then o.name.value
    else CharAt(code, column)
  }

  /** The text added for columns 0 .. n-1 of generated line `lineNum`. */
  function Columns(code: string, lookup: Lookup, lineNum: nat, n: nat): (r: string)
  {
    if n == 0 then []
    else Columns(code, lookup, lineNum, n - 1) + Contribution(code, lookup(lineNum, n - 1), n - 1)
  }

  /** The text produced for the given lines, numbered from 1: each line's
      columns followed by one newline. */
  function Body(code: string, lookup: Lookup, lines: seq<string>): (r: string)
  {
    if lines == [] then []
    else
      var n := |lines|;
      Body(code, lookup, lines[..n - 1]) + Columns(code, lookup, n, |lines[n - 1]|) + "\n"
  }

  /** The unformatted reconstruction of `code`. It is never empty and always
      ends in a newline, because `split` yields at least one line. */
  function Reconstructed(code: string, lookup: Lookup): (r: string)
    ensures |r| > 0 && r[|r| - 1] == '\n'
  {
    Body(code, lookup, Split(code, '\n'))
  }

  /** The reconstruction loop of main.js:69-90: lines are numbered from 1
      and each one ends with a newline. */
  method ReconstructBody(code: string, lookup: Lookup) returns (body: string)
    ensures body == Reconstructed(code, lookup)
  {
    var lines := Split(code, '\n');
    body := "";
    var lineIndex := 0;
    while lineIndex < |lines|
      invariant 0 <= lineIndex <= |lines|
      invariant body == Body(code, lookup, lines[..lineIndex])
    {
      var lineText := LineColumns(code, lookup, lineIndex + 1, |lines[lineIndex]|);
      body := body + lineText + "\n";
      assert lines[..lineIndex + 1][..lineIndex] == lines[..lineIndex];
      lineIndex := lineIndex + 1;
    }
    assert lines[..|lines|] == lines;
  }

  /** The column loop of main.js:76-87 for one line: every column from 0
      to `columnCount` - 1 is looked up once, in order. */
  method LineColumns(code: string, lookup: Lookup, lineNum: nat, columnCount: nat) returns (text: string)
    ensures text == Columns(code, lookup, lineNum, columnCount)
  {
    text := "";
    for column := 0 to columnCount
      invariant text == Columns(code, lookup, lineNum, column)
    {
      var originalPosition := lookup(lineNum, column);
      if originalPosition.source.None? {
        continue;
      }
      if HasName(originalPosition) {
        text := text + originalPosition.name.value;
      } else {
        text := text + CharAt(code, column);
      }
    }
  }

  /** A name whose mapping covers k consecutive columns is written k times in
      a row, once per covered column. */
  lemma {:induction false} NameRepeatedPerColumn(code: string, lookup: Lookup, lineNum: nat,
                                                 start: nat, k: nat, o: Original)
    requires o.source.Some? && HasName(o)
    requires forall c :: start <= c < start + k ==> lookup(lineNum, c) == o
    ensures Columns(code, lookup, lineNum, start + k)
         == Columns(code, lookup, lineNum, start) + Repeat(o.name.value, k)
  {
    if k > 0 {
      NameRepeatedPerColumn(code, lookup, lineNum, start, k - 1, o);
      assert lookup(lineNum, start + k - 1) == o;
    }
  }

  /** Columns that are mapped without a name copy the whole file's text from
      its start, whatever line they are on. */
  lemma {:induction false} NamelessColumnsCopyFilePrefix(code: string, lookup: Lookup, lineNum: nat, n: nat)
    requires forall c :: 0 <= c < n ==> lookup(lineNum, c).source.Some? && !HasName(lookup(lineNum, c))
    ensures Columns(code, lookup, lineNum, n) == code[..if n <= |code| then n else |code|]
  {
    if n > 0 {
      NamelessColumnsCopyFilePrefix(code, lookup, lineNum, n - 1);
      var o := lookup(lineNum, n - 1);
      assert o.source.Some? && !HasName(o);
      if n <= |code| {
        assert code[..n] == code[..n - 1] + [code[n - 1]];
      }
    }
  }

  /** Columns that are not mapped at all contribute nothing. */
  lemma {:induction false} UnmappedColumnsEmpty(code: string, lookup: Lookup, lineNum: nat, n: nat)
    requires forall c :: 0 <= c < n ==> lookup(lineNum, c).source.None?
    ensures Columns(code, lookup, lineNum, n) == []
  {
    if n > 0 {
      UnmappedColumnsEmpty(code, lookup, lineNum, n - 1);
      assert lookup(lineNum, n - 1).source.None?;
    }
  }

  /** With nothing mapped, the reconstruction is one newline per line. */
  lemma {:induction false} UnmappedFileIsBlankLines(code: string, lookup: Lookup)
    requires forall l, c :: lookup(l, c).source.None?
    ensures Reconstructed(code, lookup) == Repeat("\n", |Split(code, '\n')|)
  {
    BlankBody(code, lookup, Split(code, '\n'));
  }

  lemma {:induction false} BlankBody(code: string, lookup: Lookup, lines: seq<string>)
    requires forall l, c :: lookup(l, c).source.None?
    ensures Body(code, lookup, lines) == Repeat("\n", |lines|)
  {
    if lines != [] {
      var n := |lines|;
      BlankBody(code, lookup, lines[..n - 1]);
      UnmappedColumnsEmpty(code, lookup, n, |lines[n - 1]|);
    }
  }

  /** A one-line file whose every column is mapped without a name is
      reconstructed as itself plus a newline. */
  lemma SingleLineRoundTrip(code: string, lookup: Lookup)
    requires '\n' !in code
    requires forall l, c :: lookup(l, c).source.Some? && !HasName(lookup(l, c))
    ensures Reconstructed(code, lookup) == code + "\n"
  {
    SplitNoSeparator(code, '\n');
    var lines := Split(code, '\n');
    assert lines == [code];
    assert lines[..0] == [];
    NamelessColumnsCopyFilePrefix(code, lookup, 1, |code|);
    assert code[..|code|] == code;
    assert Reconstructed(code, lookup) == Body(code, lookup, []) + Columns(code, lookup, 1, |code|) + "\n";
  }

  /** Columns of a line no longer than the first line never produce a
      newline, provided names hold none. */
  lemma {:induction false} ColumnsHaveNoNewline(code: string, lookup: Lookup, lineNum: nat, n: nat)
    requires forall l, c :: HasName(lookup(l, c)) ==> '\n' !in lookup(l, c).name.value
    requires n <= |Split(code, '\n')[0]|
    ensures Count(Columns(code, lookup, lineNum, n), '\n') == 0
  {
    if n > 0 {
      ColumnsHaveNoNewline(code, lookup, lineNum, n - 1);
      var o := lookup(lineNum, n - 1);
      var piece := Contribution(code, o, n - 1);
      assert '\n' !in piece by {
        if o.source.Some? && !HasName(o) {
          var first := Split(code, '\n')[0];
          SplitFirstIsPrefix(code, '\n');
          assert code[n - 1] == first[n - 1];
        }
      }
      CountAppend(Columns(code, lookup, lineNum, n - 1), piece, '\n');
      NoOccurrenceCountsZero(piece, '\n');
    }
  }

  lemma {:induction false} NoOccurrenceCountsZero(s: string, c: char)
    requires c !in s
    ensures Count(s, c) == 0
  {
    if s != [] {
      assert s[..|s| - 1] <= s;
      NoOccurrenceCountsZero(s[..|s| - 1], c);
    }
  }

  lemma {:induction false} BodyLineCount(code: string, lookup: Lookup, lines: seq<string>)
    requires forall l, c :: HasName(lookup(l, c)) ==> '\n' !in lookup(l, c).name.value
    requires forall i :: 0 <= i < |lines| ==> |lines[i]| <= |Split(code, '\n')[0]|
    ensures Count(Body(code, lookup, lines), '\n') == |lines|
  {
    if lines != [] {
      var n := |lines|;
      BodyLineCount(code, lookup, lines[..n - 1]);
      var cols := Columns(code, lookup, n, |lines[n - 1]|);
      ColumnsHaveNoNewline(code, lookup, n, |lines[n - 1]|);
      CountAppend(Body(code, lookup, lines[..n - 1]), cols, '\n');
      CountAppend(Body(code, lookup, lines[..n - 1]) + cols, "\n", '\n');
      assert Count("\n", '\n') == 1 by { assert "\n"[..0] == []; }
    }
  }

  /** The reconstruction has exactly one line per line of the minified file
      whenever no line is longer than the first one (in particular for a
      one-line file) and no name holds a newline. */
  lemma LineCountKept(code: string, lookup: Lookup)
    requires forall l, c :: HasName(lookup(l, c)) ==> '\n' !in lookup(l, c).name.value
    requires forall i :: 0 <= i < |Split(code, '\n')| ==> |Split(code, '\n')[i]| <= |Split(code, '\n')[0]|
    ensures Count(Reconstructed(code, lookup), '\n') == |Split(code, '\n')|
  {
    BodyLineCount(code, lookup, Split(code, '\n'));
  }

  /** Without that condition the line count is not kept: in "a\nbc" fully
      mapped without names, column 1 of line 2 takes the file's newline. */
  lemma LongerLaterLineAddsNewline()
    ensures var lookup := (l: nat, c: nat) => Original(Some("s"), None);
            |Split("a\nbc", '\n')| == 2
            && Reconstructed("a\nbc", lookup) == "a\na\n\n"
            && Count(Reconstructed("a\nbc", lookup), '\n') == 3
  {
    var lookup := (l: nat, c: nat) => Original(Some("s"), None);
    var code := "a\nbc";
    assert Split(code, '\n') == ["a", "bc"] by {
      SplitAfterPiece("a", '\n', "bc");
      SplitNoSeparator("bc", '\n');
      assert "a" + ['\n'] + "bc" == code;
    }
    var lines := ["a", "bc"];
    assert lines[..1] == ["a"] && ["a"][..0] == [];
    assert Columns(code, lookup, 1, 1) == "a";
    assert Columns(code, lookup, 2, 2) == "a\n";
    assert Reconstructed(code, lookup) == "a\na\n\n";
    ThreeNewlines();
  }

  lemma ThreeNewlines()
    ensures Count("a\na\n\n", '\n') == 3
  {
    assert Count("a", '\n') == 0 by { assert "a"[..0] == []; }
    assert Count("a\n", '\n') == 1 by { assert "a\n"[..1] == "a"; }
    assert Count("a\na", '\n') == 1 by { assert "a\na"[..2] == "a\n"; }
    assert Count("a\na\n", '\n') == 2 by { assert "a\na\n"[..3] == "a\na"; }
    assert "a\na\n\n"[..4] == "a\na\n";
  }
}
