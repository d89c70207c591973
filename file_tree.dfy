/** The report of recovered files (main.js:140-171): the paths are grouped
    into a trie with one level per path segment, and the trie is rendered as
    indented lines down to a maximum depth. */
module FileTree {
  import opened Strings
  import opened Objects

  /** A trie value: `null` for a file, a nested object for a directory. */
  datatype Child = Leaf | Dir(node: Node)

  /** A trie level: an object whose keys are path segments. */
  datatype Node = Node(entries: seq<Prop<Child>>)

  const Empty := Node([])

  /** Keys are distinct on every level, as in a JavaScript object. */
  predicate WellFormed(t: Node)
    decreases t
  {
    && DistinctKeys(t.entries)
    && forall i :: 0 <= i < |t.entries| && t.entries[i].value.Dir? ==> WellFormed(t.entries[i].value.node)
  }

  /** The `parts.forEach` walk of main.js:145-150 for one path: a missing
      or null segment is (re)assigned, a leaf for the last segment and an
      empty directory otherwise; an existing directory is entered. */
  function Insert(t: Node, parts: seq<string>): (r: Node)
    decreases |parts|
  {
    if parts == [] then t
    else
      var key := parts[0];
      var rest := parts[1..];
      var i := IndexOfKey(t.entries, key);
      if i >= 0 && t.entries[i].value.Dir? then
        if rest == [] then t
        else Node(t.entries[i := Prop(key, Dir(Insert(t.entries[i].value.node, rest)))])
      else
        var child := if rest == [] then Leaf else Dir(Insert(Empty, rest));
        Node(Assign(t.entries, key, child))
  }

  /** The segments of `parts` lead through directories to an existing key. */
  predicate Has(t: Node, parts: seq<string>)
    decreases |parts|
  {
    && parts != []
    && var i := IndexOfKey(t.entries, parts[0]);
       && i >= 0
       && (|parts| == 1 || (t.entries[i].value.Dir? && Has(t.entries[i].value.node, parts[1..])))
  }

  /** The trie built by the `reduce` of main.js:141-153. */
  function Grouped(files: seq<string>): (r: Node)
  {
    if files == [] then Empty
    else Insert(Grouped(files[..|files| - 1]), Split(files[|files| - 1], '/'))
  }

  /** After inserting a path, the trie has it. */
  lemma {:induction false} InsertHas(t: Node, parts: seq<string>)
    requires parts != []
    ensures Has(Insert(t, parts), parts)
    decreases |parts|
  {
    var key := parts[0];
    var rest := parts[1..];
    var i := IndexOfKey(t.entries, key);
    var r := Insert(t, parts);
    if i >= 0 && t.entries[i].value.Dir? {
      if rest != [] {
        var sub := t.entries[i].value.node;
        InsertHas(sub, rest);
        assert r.entries == t.entries[i := Prop(key, Dir(Insert(sub, rest)))];
        IndexOfKeyIs(r.entries, key, i);
      }
    } else {
      var child := if rest == [] then Leaf else Dir(Insert(Empty, rest));
      assert r.entries == Assign(t.entries, key, child);
      AssignAt(t.entries, key, child);
      if rest != [] {
        InsertHas(Empty, rest);
      }
    }
  }

  /** Like `Has`, and the last segment is a file (`null`), not a directory. */
  predicate IsFile(t: Node, parts: seq<string>)
    decreases |parts|
  {
    && parts != []
    && var i := IndexOfKey(t.entries, parts[0]);
       && i >= 0
       && if |parts| == 1 then t.entries[i].value.Leaf?
          else t.entries[i].value.Dir? && IsFile(t.entries[i].value.node, parts[1..])
  }

  /** Inserting a path that is absent, or already a file, leaves it a file:
      the last segment is stored as `null`, and segments on the way that
      were files become directories. */
  lemma {:induction false} InsertMakesFile(t: Node, parts: seq<string>)
    requires parts != []
    requires !Has(t, parts) || IsFile(t, parts)
    ensures IsFile(Insert(t, parts), parts)
    decreases |parts|
  {
    var key := parts[0];
    var rest := parts[1..];
    var i := IndexOfKey(t.entries, key);
    var r := Insert(t, parts);
    if i >= 0 && t.entries[i].value.Dir? {
      if rest != [] {
        var sub := t.entries[i].value.node;
        InsertMakesFile(sub, rest);
        assert r.entries == t.entries[i := Prop(key, Dir(Insert(sub, rest)))];
        IndexOfKeyIs(r.entries, key, i);
      }
    } else {
      var child := if rest == [] then Leaf else Dir(Insert(Empty, rest));
      assert r.entries == Assign(t.entries, key, child);
      AssignAt(t.entries, key, child);
      if rest != [] {
        InsertMakesFile(Empty, rest);
      }
    }
  }

  /** Inserting a path never loses a path the trie already had: a file
      entry may become a directory, but its key stays. */
  lemma {:induction false} InsertKeepsHas(t: Node, parts: seq<string>, q: seq<string>)
    requires Has(t, q)
    ensures Has(Insert(t, parts), q)
    decreases |parts|
  {
    if parts != [] {
      var key := parts[0];
      var rest := parts[1..];
      var i := IndexOfKey(t.entries, key);
      var k := IndexOfKey(t.entries, q[0]);
      var r := Insert(t, parts);
      assert |r.entries| >= |t.entries| && r.entries[k].key == q[0];
      assert IndexOfKey(r.entries, q[0]) == k;
      if |q| > 1 && q[0] == key && rest != [] {
        assert i == k;
        InsertKeepsHas(t.entries[i].value.node, rest, q[1..]);
      } else if |q| > 1 {
        assert r.entries[k] == t.entries[k];
      }
    }
  }

  /** Inserting a path the trie already has changes nothing. */
  lemma {:induction false} InsertPresentIsNoop(t: Node, parts: seq<string>)
    requires Has(t, parts)
    ensures Insert(t, parts) == t
    decreases |parts|
  {
    var key := parts[0];
    var i := IndexOfKey(t.entries, key);
    if |parts| > 1 {
      var sub := t.entries[i].value.node;
      InsertPresentIsNoop(sub, parts[1..]);
      assert t.entries[i := Prop(key, Dir(sub))] == t.entries;
    } else if t.entries[i].value.Leaf? {
      assert t.entries[i := Prop(key, Leaf)] == t.entries;
    }
  }

  /** Insertion is idempotent. */
  lemma InsertIdempotent(t: Node, parts: seq<string>)
    ensures Insert(Insert(t, parts), parts) == Insert(t, parts)
  {
    if parts != [] {
      InsertHas(t, parts);
      InsertPresentIsNoop(Insert(t, parts), parts);
    }
  }

  /** On the top level, existing keys keep their places and a new first
      segment is appended as the last key. */
  lemma InsertTopLevelOrder(t: Node, parts: seq<string>)
    requires parts != []
    ensures var r := Insert(t, parts).entries;
            && (forall j :: 0 <= j < |t.entries| ==> r[j].key == t.entries[j].key)
            && (IndexOfKey(t.entries, parts[0]) >= 0 ==> |r| == |t.entries|)
            && (IndexOfKey(t.entries, parts[0]) < 0 ==> |r| == |t.entries| + 1 && r[|t.entries|].key == parts[0])
  {
  }

  /** Insertion keeps keys distinct on every level. */
  lemma {:induction false} InsertWellFormed(t: Node, parts: seq<string>)
    requires WellFormed(t)
    ensures WellFormed(Insert(t, parts))
    decreases |parts|
  {
    if parts != [] {
      var key := parts[0];
      var rest := parts[1..];
      var i := IndexOfKey(t.entries, key);
      var r := Insert(t, parts);
      if i >= 0 && t.entries[i].value.Dir? {
        if rest != [] {
          InsertWellFormed(t.entries[i].value.node, rest);
          assert DistinctKeys(r.entries) by {
            forall a, b | 0 <= a < b < |r.entries| ensures r.entries[a].key != r.entries[b].key {
              assert r.entries[a].key == t.entries[a].key && r.entries[b].key == t.entries[b].key;
            }
          }
        }
      } else {
        if rest != [] {
          assert WellFormed(Empty);
          InsertWellFormed(Empty, rest);
        }
        AssignKeepsDistinct(t.entries, key, if rest == [] then Leaf else Dir(Insert(Empty, rest)));
      }
    }
  }

  /** Every recorded file is in the grouped trie. */
  lemma {:induction false} GroupedHasAll(files: seq<string>)
    ensures forall i :: 0 <= i < |files| ==> Has(Grouped(files), Split(files[i], '/'))
  {
    if files != [] {
      var n := |files|;
      var prefix := files[..n - 1];
      GroupedHasAll(prefix);
      forall i | 0 <= i < n
        ensures Has(Grouped(files), Split(files[i], '/'))
      {
        if i < n - 1 {
          assert files[i] == prefix[i];
          InsertKeepsHas(Grouped(prefix), Split(files[n - 1], '/'), Split(files[i], '/'));
        } else {
          InsertHas(Grouped(prefix), Split(files[n - 1], '/'));
        }
      }
    }
  }

  /** Recording a file a second time leaves the report unchanged. */
  lemma RecordingAgainChangesNothing(files: seq<string>, f: string)
    requires f in files
    ensures Grouped(files + [f]) == Grouped(files)
  {
    GroupedHasAll(files);
    var i :| 0 <= i < |files| && files[i] == f;
    assert (files + [f])[..|files|] == files;
    InsertPresentIsNoop(Grouped(files), Split(f, '/'));
  }

  /** The grouped trie has distinct keys on every level. */
  lemma {:induction false} GroupedWellFormed(files: seq<string>)
    ensures WellFormed(Grouped(files))
  {
    if files != [] {
      GroupedWellFormed(files[..|files| - 1]);
      InsertWellFormed(Grouped(files[..|files| - 1]), Split(files[|files| - 1], '/'));
    }
  }

  /** The `files.reduce` loop of main.js:141-153. */
  method GroupFiles(files: seq<string>) returns (grouped: Node)
    ensures grouped == Grouped(files)
    ensures WellFormed(grouped)
    ensures forall i :: 0 <= i < |files| ==> Has(grouped, Split(files[i], '/'))
  {
    grouped := Empty;
    for n := 0 to |files|
      invariant grouped == Grouped(files[..n])
    {
      assert files[..n + 1][..n] == files[..n];
      grouped := Insert(grouped, Split(files[n], '/'));
    }
    assert files[..|files|] == files;
    GroupedWellFormed(files);
    GroupedHasAll(files);
  }

  /** `printTree(node, indent, depth)` of main.js:155-168, returning the
      printed lines. */
  function Render(t: Node, indent: string, depth: int, maxDepth: int): (r: seq<string>)
    decreases t, 1
  {
    if depth > maxDepth then [] else RenderFrom(t, 0, indent, depth, maxDepth)
  }

  /** The line printed for key `k` of `t` (main.js:161-164). A file gets
      "|-- " even when it is the last key; a directory gets "`-- " when it
      is last and "|-- " otherwise, followed by its key and "/". */
  function KeyLine(t: Node, k: nat, indent: string): (r: string)
    requires k < |t.entries|
  {
    var e := t.entries[k];
    match e.value
    case Leaf => indent + "|-- " + e.key
    case Dir(_) => indent + (if k == |t.entries| - 1 then "`-- " else "|-- ") + e.key + "/"
  }

  /** The indentation of the children of key `k` (main.js:165): four spaces
      after the last key, "|   " otherwise. */
  function ChildIndent(t: Node, k: nat, indent: string): (r: string)
    requires k < |t.entries|
  {
    indent + (if k == |t.entries| - 1 then "    " else "|   ")
  }

  /** The lines for the keys of `t` from position `i` on: each key's line,
      then, for a directory, its subtree one level deeper. */
  function RenderFrom(t: Node, i: nat, indent: string, depth: int, maxDepth: int): (r: seq<string>)
    decreases t, 0, |t.entries| - i
  {
    if i >= |t.entries| then []
    else
      var here := match t.entries[i].value
        case Leaf => [KeyLine(t, i, indent)]
        case Dir(sub) => [KeyLine(t, i, indent)] + Render(sub, ChildIndent(t, i, indent), depth + 1, maxDepth);
      here + RenderFrom(t, i + 1, indent, depth, maxDepth)
  }

  /** `printRecoveredFilesTree(files)` of main.js:140-171. */
  method PrintRecoveredFilesTree(files: seq<string>, maxDepth: int) returns (lines: seq<string>)
    ensures lines == Render(Grouped(files), "", 0, maxDepth)
  {
    var grouped := GroupFiles(files);
    lines := Render(grouped, "", 0, maxDepth);
  }

  /** Number of keys in the trie, on all levels. */
  function Size(t: Node): (r: nat)
    decreases t, 1
  {
    SizeFrom(t, 0)
  }

  function SizeFrom(t: Node, i: nat): (r: nat)
    decreases t, 0, |t.entries| - i
  {
    if i >= |t.entries| then 0
    else
      var e := t.entries[i];
      1 + (match e.value case Leaf => 0 case Dir(sub) => Size(sub)) + SizeFrom(t, i + 1)
  }

  /** Number of levels of the trie (0 for an empty object). */
  function Height(t: Node): (r: nat)
    decreases t, 1
  {
    HeightFrom(t, 0)
  }

  function HeightFrom(t: Node, i: nat): (r: nat)
    decreases t, 0, |t.entries| - i
  {
    if i >= |t.entries| then 0
    else
      var e := t.entries[i];
      var h := 1 + match e.value case Leaf => 0 case Dir(sub) => Height(sub);
      var rest := HeightFrom(t, i + 1);
      if h < rest then rest else h
  }

  /** Every printed line starts with the indentation it was printed at. */
  lemma {:induction false} RenderIndented(t: Node, indent: string, depth: int, maxDepth: int)
    ensures forall line :: line in Render(t, indent, depth, maxDepth) ==> indent <= line
    decreases t, 1
  {
    if depth <= maxDepth {
      RenderFromIndented(t, 0, indent, depth, maxDepth);
    }
  }

  lemma {:induction false} RenderFromIndented(t: Node, i: nat, indent: string, depth: int, maxDepth: int)
    ensures forall line :: line in RenderFrom(t, i, indent, depth, maxDepth) ==> indent <= line
    decreases t, 0, |t.entries| - i
  {
    if i < |t.entries| {
      var e := t.entries[i];
      RenderFromIndented(t, i + 1, indent, depth, maxDepth);
      if e.value.Dir? {
        var isLast := i == |t.entries| - 1;
        var inner := indent + (if isLast then "    " else "|   ");
        RenderIndented(e.value.node, inner, depth + 1, maxDepth);
        var sub := Render(e.value.node, inner, depth + 1, maxDepth);
        forall m | 0 <= m < |sub| ensures indent <= sub[m] {
          assert sub[m] in sub;
          assert inner <= sub[m];
          assert indent <= inner;
        }
      }
    }
  }

  /** At most one line per key is printed, and exactly one per key when
      the whole trie fits within the maximum depth. */
  lemma {:induction false} RenderLineCount(t: Node, indent: string, depth: int, maxDepth: int)
    ensures |Render(t, indent, depth, maxDepth)| <= Size(t)
    ensures depth + Height(t) <= maxDepth + 1 ==> |Render(t, indent, depth, maxDepth)| == Size(t)
    decreases t, 1
  {
    if depth <= maxDepth {
      RenderFromLineCount(t, 0, indent, depth, maxDepth);
    } else {
      assert Height(t) == 0 ==> Size(t) == 0 by {
        if Height(t) == 0 { HeightZeroIsEmpty(t, 0); }
      }
    }
  }

  lemma {:induction false} RenderFromLineCount(t: Node, i: nat, indent: string, depth: int, maxDepth: int)
    requires depth <= maxDepth
    ensures |RenderFrom(t, i, indent, depth, maxDepth)| <= SizeFrom(t, i)
    ensures depth + HeightFrom(t, i) <= maxDepth + 1 ==> |RenderFrom(t, i, indent, depth, maxDepth)| == SizeFrom(t, i)
    decreases t, 0, |t.entries| - i
  {
    if i < |t.entries| {
      var e := t.entries[i];
      RenderFromLineCount(t, i + 1, indent, depth, maxDepth);
      if e.value.Dir? {
        var isLast := i == |t.entries| - 1;
        var inner := indent + (if isLast then "    " else "|   ");
        RenderLineCount(e.value.node, inner, depth + 1, maxDepth);
      }
    }
  }

  lemma {:induction false} HeightZeroIsEmpty(t: Node, i: nat)
    requires HeightFrom(t, i) == 0
    ensures SizeFrom(t, i) == 0
  {
  }

  /** The lines for the keys from `k` on end the lines for the keys from
      `i` on. */
  lemma {:induction false} RenderFromSuffix(t: Node, i: nat, k: nat, indent: string, depth: int, maxDepth: int)
    requires i <= k <= |t.entries|
    ensures var lines := RenderFrom(t, i, indent, depth, maxDepth);
            var tail := RenderFrom(t, k, indent, depth, maxDepth);
            |tail| <= |lines| && lines[|lines| - |tail|..] == tail
    decreases k - i
  {
    if i < k {
      RenderFromSuffix(t, i + 1, k, indent, depth, maxDepth);
      var lines := RenderFrom(t, i, indent, depth, maxDepth);
      var next := RenderFrom(t, i + 1, indent, depth, maxDepth);
      var tail := RenderFrom(t, k, indent, depth, maxDepth);
      var here := lines[..|lines| - |next|];
      assert lines == here + next;
      assert lines[|lines| - |tail|..] == next[|next| - |tail|..];
    }
  }

  /** The lines for the keys from `k` on start with key `k`'s line and,
      for a directory, its subtree. */
  lemma RenderFromHead(t: Node, k: nat, indent: string, depth: int, maxDepth: int)
    requires k < |t.entries|
    ensures var tail := RenderFrom(t, k, indent, depth, maxDepth);
            && 1 <= |tail|
            && tail[0] == KeyLine(t, k, indent)
            && (t.entries[k].value.Dir? ==>
                  var sub := Render(t.entries[k].value.node, ChildIndent(t, k, indent), depth + 1, maxDepth);
                  1 + |sub| <= |tail| && tail[1..1 + |sub|] == sub)
  {
    var tail := RenderFrom(t, k, indent, depth, maxDepth);
    var next := RenderFrom(t, k + 1, indent, depth, maxDepth);
    if t.entries[k].value.Dir? {
      var sub := Render(t.entries[k].value.node, ChildIndent(t, k, indent), depth + 1, maxDepth);
      assert tail == [KeyLine(t, k, indent)] + sub + next;
      assert tail[1..1 + |sub|] == sub;
    }
  }

  /** Where key `k` is printed: its line sits at position `p` of the lines
      for the keys from `i` on, and a directory's subtree follows right
      after it, every line of it indented by the child indentation. */
  lemma KeyLinePlacement(t: Node, i: nat, k: nat, indent: string, depth: int, maxDepth: int)
    requires i <= k < |t.entries|
    ensures var lines := RenderFrom(t, i, indent, depth, maxDepth);
            var p := |lines| - |RenderFrom(t, k, indent, depth, maxDepth)|;
            && 0 <= p < |lines|
            && lines[p] == KeyLine(t, k, indent)
            && (t.entries[k].value.Dir? ==>
                  var sub := Render(t.entries[k].value.node, ChildIndent(t, k, indent), depth + 1, maxDepth);
                  && p + 1 + |sub| <= |lines|
                  && lines[p + 1..p + 1 + |sub|] == sub
                  && forall m :: p < m <= p + |sub| ==> ChildIndent(t, k, indent) <= lines[m])
  {
    RenderFromSuffix(t, i, k, indent, depth, maxDepth);
    RenderFromHead(t, k, indent, depth, maxDepth);
    var lines := RenderFrom(t, i, indent, depth, maxDepth);
    var tail := RenderFrom(t, k, indent, depth, maxDepth);
    SuffixSlice(lines, tail, 0, 1);
    if t.entries[k].value.Dir? {
      var ci := ChildIndent(t, k, indent);
      var sub := Render(t.entries[k].value.node, ci, depth + 1, maxDepth);
      SuffixSlice(lines, tail, 1, 1 + |sub|);
      SubtreeLinesIndented(lines, |lines| - |tail| + 1, t.entries[k].value.node, ci, depth + 1, maxDepth);
    }
  }

  /** A slice of a suffix is the matching slice of the whole. */
  lemma SuffixSlice(lines: seq<string>, tail: seq<string>, a: nat, b: nat)
    requires |tail| <= |lines| && lines[|lines| - |tail|..] == tail
    requires a <= b <= |tail|
    ensures lines[|lines| - |tail| + a..|lines| - |tail| + b] == tail[a..b]
    ensures a < |tail| ==> lines[|lines| - |tail| + a] == tail[a]
  {
    var p := |lines| - |tail|;
    assert forall m :: a <= m < b ==> lines[p + m] == lines[p..][m];
  }

  lemma SubtreeLinesIndented(lines: seq<string>, start: nat, sub: Node, ci: string, depth: int, maxDepth: int)
    requires var s := Render(sub, ci, depth, maxDepth); start + |s| <= |lines| && lines[start..start + |s|] == s
    ensures forall m :: start <= m < start + |Render(sub, ci, depth, maxDepth)| ==> ci <= lines[m]
  {
    var s := Render(sub, ci, depth, maxDepth);
    RenderIndented(sub, ci, depth, maxDepth);
    forall m | start <= m < start + |s| ensures ci <= lines[m] {
      assert lines[m] == s[m - start];
      assert s[m - start] in s;
    }
  }

  /** Keys are printed in their insertion order. */
  lemma KeyLinesInOrder(t: Node, k1: nat, k2: nat, indent: string, depth: int, maxDepth: int)
    requires k1 < k2 < |t.entries|
    ensures var lines := RenderFrom(t, 0, indent, depth, maxDepth);
            var p1 := |lines| - |RenderFrom(t, k1, indent, depth, maxDepth)|;
            var p2 := |lines| - |RenderFrom(t, k2, indent, depth, maxDepth)|;
            0 <= p1 < p2 < |lines| && lines[p1] == KeyLine(t, k1, indent) && lines[p2] == KeyLine(t, k2, indent)
  {
    KeyLinePlacement(t, 0, k1, indent, depth, maxDepth);
    KeyLinePlacement(t, 0, k2, indent, depth, maxDepth);
    RenderFromSuffix(t, k1 + 1, k2, indent, depth, maxDepth);
    var r1 := RenderFrom(t, k1, indent, depth, maxDepth);
    var next := RenderFrom(t, k1 + 1, indent, depth, maxDepth);
    assert |r1| > |next|;
  }

  /** Within the maximum depth, every key of `t` gets its line. */
  lemma EveryKeyPrinted(t: Node, indent: string, depth: int, maxDepth: int)
    requires depth <= maxDepth
    ensures forall k :: 0 <= k < |t.entries| ==> KeyLine(t, k, indent) in Render(t, indent, depth, maxDepth)
  {
    forall k | 0 <= k < |t.entries| ensures KeyLine(t, k, indent) in Render(t, indent, depth, maxDepth) {
      KeyLinePlacement(t, 0, k, indent, depth, maxDepth);
    }
  }

  /** A worked report: the directory "a" is not the last key, so it gets
      "|-- " and its children "|   "; the file "c.js" is the last key of
      "a" and still gets "|-- ". */
  lemma ReportExample(files: seq<string>)
    requires files == ["a/b.js", "a/c.js", "d.js"]
    ensures Render(Grouped(files), "", 0, 3)
         == ["|-- a/", "|   |-- b.js", "|   |-- c.js", "|-- d.js"]
  {
    GroupExample(files);
    RenderExample();
  }

  lemma RenderExample()
    ensures Render(Node([Prop("a", Dir(Node([Prop("b.js", Leaf), Prop("c.js", Leaf)]))), Prop("d.js", Leaf)]), "", 0, 3)
         == ["|-- a/", "|   |-- b.js", "|   |-- c.js", "|-- d.js"]
  {
    var a := Node([Prop("b.js", Leaf), Prop("c.js", Leaf)]);
    var t := Node([Prop("a", Dir(a)), Prop("d.js", Leaf)]);
    assert RenderFrom(a, 2, "|   ", 1, 3) == [];
    assert "|   " + "|-- " + "c.js" == "|   |-- c.js";
    assert RenderFrom(a, 1, "|   ", 1, 3) == ["|   " + "|-- " + "c.js"] + RenderFrom(a, 2, "|   ", 1, 3);
    assert "|   " + "|-- " + "b.js" == "|   |-- b.js";
    assert RenderFrom(a, 0, "|   ", 1, 3) == ["|   " + "|-- " + "b.js"] + RenderFrom(a, 1, "|   ", 1, 3);
    assert "" + "|   " == "|   ";
    assert "" + "|-- " + "a" + "/" == "|-- a/";
    assert RenderFrom(t, 2, "", 0, 3) == [];
    assert "" + "|-- " + "d.js" == "|-- d.js";
    assert RenderFrom(t, 1, "", 0, 3) == ["" + "|-- " + "d.js"] + RenderFrom(t, 2, "", 0, 3);
    assert RenderFrom(t, 0, "", 0, 3)
        == ["" + "|-- " + "a" + "/"] + Render(a, "" + "|   ", 1, 3) + RenderFrom(t, 1, "", 0, 3);
  }

  lemma GroupExample(files: seq<string>)
    requires files == ["a/b.js", "a/c.js", "d.js"]
    ensures Grouped(files)
         == Node([Prop("a", Dir(Node([Prop("b.js", Leaf), Prop("c.js", Leaf)]))), Prop("d.js", Leaf)])
  {
    var f2 := [files[0], files[1]];
    GroupSecondStage(files);
    SplitExample();
    InsertThirdExample();
    GroupedAppend(f2, files[2]);
    assert f2 + [files[2]] == files;
  }

  lemma GroupFirstStage(files: seq<string>)
    requires files == ["a/b.js", "a/c.js", "d.js"]
    ensures Grouped([files[0]]) == Node([Prop("a", Dir(Node([Prop("b.js", Leaf)])))])
  {
    SplitExample();
    InsertFirstExample();
    GroupedAppend([], files[0]);
    assert [] + [files[0]] == [files[0]];
  }

  lemma GroupSecondStage(files: seq<string>)
    requires files == ["a/b.js", "a/c.js", "d.js"]
    ensures Grouped([files[0], files[1]]) == Node([Prop("a", Dir(Node([Prop("b.js", Leaf), Prop("c.js", Leaf)])))])
  {
    GroupFirstStage(files);
    SplitExample();
    InsertSecondExample();
    GroupedAppend([files[0]], files[1]);
    assert [files[0]] + [files[1]] == [files[0], files[1]];
  }

  /** Recording one more file inserts its segments into the trie. */
  lemma GroupedAppend(files: seq<string>, f: string)
    ensures Grouped(files + [f]) == Insert(Grouped(files), Split(f, '/'))
  {
    assert (files + [f])[..|files|] == files;
  }

  lemma SplitExample()
    ensures Split("a/b.js", '/') == ["a", "b.js"]
    ensures Split("a/c.js", '/') == ["a", "c.js"]
    ensures Split("d.js", '/') == ["d.js"]
  {
    SplitTwoSegments("a", "b.js");
    SplitTwoSegments("a", "c.js");
    SplitNoSeparator("d.js", '/');
  }

  lemma SplitTwoSegments(dir: string, file: string)
    requires '/' !in dir && '/' !in file
    ensures Split(dir + "/" + file, '/') == [dir, file]
  {
    SplitAfterPiece(dir, '/', file);
    SplitNoSeparator(file, '/');
    assert dir + ['/'] + file == dir + "/" + file;
  }

  lemma InsertFirstExample()
    ensures Insert(Empty, ["a", "b.js"]) == Node([Prop("a", Dir(Node([Prop("b.js", Leaf)])))])
  {
    var p := ["a", "b.js"];
    assert p[0] == "a" && p[1..] == ["b.js"];
    assert IndexOfKey(Empty.entries, "a") == -1;
    assert ["b.js"][1..] == [];
    assert IndexOfKey(Empty.entries, "b.js") == -1;
    assert Insert(Empty, ["b.js"]) == Node(Assign([], "b.js", Leaf));
    assert Assign([], "b.js", Leaf) == [Prop("b.js", Leaf)];
  }

  lemma InsertSecondExample()
    ensures Insert(Node([Prop("a", Dir(Node([Prop("b.js", Leaf)])))]), ["a", "c.js"])
         == Node([Prop("a", Dir(Node([Prop("b.js", Leaf), Prop("c.js", Leaf)])))])
  {
    var b := [Prop("b.js", Leaf)];
    var t := [Prop("a", Dir(Node(b)))];
    var p := ["a", "c.js"];
    assert p[0] == "a" && p[1..] == ["c.js"] && ["c.js"][1..] == [];
    IndexOfKeyIs(t, "a", 0);
    IndexOfKeyIs(b, "c.js", -1);
    assert Insert(Node(b), ["c.js"]) == Node(Assign(b, "c.js", Leaf));
    assert Assign(b, "c.js", Leaf) == b + [Prop("c.js", Leaf)];
    assert t[0].value.Dir? && t[0].value.node == Node(b);
    assert Insert(Node(t), p) == Node(t[0 := Prop("a", Dir(Insert(Node(b), ["c.js"])))]);
    assert b + [Prop("c.js", Leaf)] == [Prop("b.js", Leaf), Prop("c.js", Leaf)];
  }

  lemma InsertThirdExample()
    ensures Insert(Node([Prop("a", Dir(Node([Prop("b.js", Leaf), Prop("c.js", Leaf)])))]), ["d.js"])
         == Node([Prop("a", Dir(Node([Prop("b.js", Leaf), Prop("c.js", Leaf)]))), Prop("d.js", Leaf)])
  {
    var t := [Prop("a", Dir(Node([Prop("b.js", Leaf), Prop("c.js", Leaf)])))];
    assert ["d.js"][1..] == [];
    IndexOfKeyIs(t, "d.js", -1);
    assert Insert(Node(t), ["d.js"]) == Node(Assign(t, "d.js", Leaf));
  }

  /** A worked report whose last key is a directory: "e" gets "`-- " and its
      child the four-space indent. With maximum depth 0 only the top level
      is printed. */
  lemma ReportLastDirExample(files: seq<string>)
    requires files == ["a/b.js", "a/c.js", "d.js", "e/f.js"]
    ensures Render(Grouped(files), "", 0, 3)
         == ["|-- a/", "|   |-- b.js", "|   |-- c.js", "|-- d.js", "`-- e/", "    |-- f.js"]
    ensures Render(Grouped(files), "", 0, 0) == ["|-- a/", "|-- d.js", "`-- e/"]
  {
    var f3 := files[..3];
    assert f3 == ["a/b.js", "a/c.js", "d.js"];
    GroupExample(f3);
    GroupFourthStage(f3, files[3]);
    assert f3 + [files[3]] == files;
    RenderLastDirExample();
    RenderShallowExample();
  }

  lemma GroupFourthStage(f3: seq<string>, f: string)
    requires Grouped(f3) == Node([Prop("a", Dir(Node([Prop("b.js", Leaf), Prop("c.js", Leaf)]))), Prop("d.js", Leaf)])
    requires f == "e/f.js"
    ensures Grouped(f3 + [f])
         == Node([Prop("a", Dir(Node([Prop("b.js", Leaf), Prop("c.js", Leaf)]))), Prop("d.js", Leaf),
                  Prop("e", Dir(Node([Prop("f.js", Leaf)])))])
  {
    SplitTwoSegments("e", "f.js");
    assert "e" + "/" + "f.js" == f;
    InsertFourthExample();
    GroupedAppend(f3, f);
  }

  lemma InsertFourthExample()
    ensures Insert(Node([Prop("a", Dir(Node([Prop("b.js", Leaf), Prop("c.js", Leaf)]))), Prop("d.js", Leaf)]), ["e", "f.js"])
         == Node([Prop("a", Dir(Node([Prop("b.js", Leaf), Prop("c.js", Leaf)]))), Prop("d.js", Leaf),
                  Prop("e", Dir(Node([Prop("f.js", Leaf)])))])
  {
    var t := [Prop("a", Dir(Node([Prop("b.js", Leaf), Prop("c.js", Leaf)]))), Prop("d.js", Leaf)];
    var p := ["e", "f.js"];
    assert p[0] == "e" && p[1..] == ["f.js"] && ["f.js"][1..] == [];
    IndexOfKeyIs(t, "e", -1);
    IndexOfKeyIs(Empty.entries, "f.js", -1);
    assert Insert(Empty, ["f.js"]) == Node([Prop("f.js", Leaf)]);
    assert Insert(Node(t), p) == Node(Assign(t, "e", Dir(Node([Prop("f.js", Leaf)]))));
  }

  lemma RenderLastDirExample()
    ensures Render(Node([Prop("a", Dir(Node([Prop("b.js", Leaf), Prop("c.js", Leaf)]))), Prop("d.js", Leaf),
                         Prop("e", Dir(Node([Prop("f.js", Leaf)])))]), "", 0, 3)
         == ["|-- a/", "|   |-- b.js", "|   |-- c.js", "|-- d.js", "`-- e/", "    |-- f.js"]
  {
    var a := Node([Prop("b.js", Leaf), Prop("c.js", Leaf)]);
    var e := Node([Prop("f.js", Leaf)]);
    var t := Node([Prop("a", Dir(a)), Prop("d.js", Leaf), Prop("e", Dir(e))]);
    assert KeyLine(a, 0, "|   ") == "|   |-- b.js";
    assert KeyLine(a, 1, "|   ") == "|   |-- c.js";
    assert KeyLine(e, 0, "    ") == "    |-- f.js";
    assert RenderFrom(a, 2, "|   ", 1, 3) == [];
    assert RenderFrom(a, 1, "|   ", 1, 3) == ["|   |-- c.js"];
    assert RenderFrom(a, 0, "|   ", 1, 3) == ["|   |-- b.js", "|   |-- c.js"];
    assert RenderFrom(e, 1, "    ", 1, 3) == [];
    assert RenderFrom(e, 0, "    ", 1, 3) == ["    |-- f.js"];
    assert ChildIndent(t, 2, "") == "    ";
    assert ChildIndent(t, 0, "") == "|   ";
    assert KeyLine(t, 2, "") == "`-- e/";
    assert KeyLine(t, 1, "") == "|-- d.js";
    assert KeyLine(t, 0, "") == "|-- a/";
    assert RenderFrom(t, 3, "", 0, 3) == [];
    assert RenderFrom(t, 2, "", 0, 3) == ["`-- e/", "    |-- f.js"];
    assert RenderFrom(t, 1, "", 0, 3) == ["|-- d.js", "`-- e/", "    |-- f.js"];
    assert RenderFrom(t, 0, "", 0, 3) == ["|-- a/"] + ["|   |-- b.js", "|   |-- c.js"] + ["|-- d.js", "`-- e/", "    |-- f.js"];
  }

  lemma RenderShallowExample()
    ensures Render(Node([Prop("a", Dir(Node([Prop("b.js", Leaf), Prop("c.js", Leaf)]))), Prop("d.js", Leaf),
                         Prop("e", Dir(Node([Prop("f.js", Leaf)])))]), "", 0, 0)
         == ["|-- a/", "|-- d.js", "`-- e/"]
  {
    var a := Node([Prop("b.js", Leaf), Prop("c.js", Leaf)]);
    var e := Node([Prop("f.js", Leaf)]);
    var t := Node([Prop("a", Dir(a)), Prop("d.js", Leaf), Prop("e", Dir(e))]);
    assert Render(a, "|   ", 1, 0) == [];
    assert Render(e, "    ", 1, 0) == [];
    assert ChildIndent(t, 2, "") == "    ";
    assert ChildIndent(t, 0, "") == "|   ";
    assert KeyLine(t, 2, "") == "`-- e/";
    assert KeyLine(t, 1, "") == "|-- d.js";
    assert KeyLine(t, 0, "") == "|-- a/";
    assert RenderFrom(t, 3, "", 0, 0) == [];
    assert RenderFrom(t, 2, "", 0, 0) == ["`-- e/"];
    assert RenderFrom(t, 1, "", 0, 0) == ["|-- d.js", "`-- e/"];
    assert RenderFrom(t, 0, "", 0, 0) == ["|-- a/"] + ["|-- d.js", "`-- e/"];
  }
}
