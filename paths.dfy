/** The output-path expressions of main.js:60 and main.js:99, over
    '/'-separated strings. `path.dirname`, `path.basename` and `path.join`
    are modelled as plain string operations (no `..`/`.` segment
    normalisation, no collapsing of repeated separators). */
module Paths {

  /** Index of the last `c` in `s`, or -1. */
  function LastIndexOf(s: string, c: char): (k: int)
    ensures -1 <= k < |s|
    ensures 0 <= k ==> s[k] == c
    ensures forall j :: k < j < |s| ==> s[j] != c
  {
    if s == [] then -1
    else if s[|s| - 1] == c then |s| - 1
    else LastIndexOf(s[..|s| - 1], c)
  }

  /** The position of a `c` with no `c` after it is the last index of `c`. */
  lemma LastIndexOfIs(s: string, c: char, k: int)
    requires -1 <= k < |s|
    requires 0 <= k ==> s[k] == c
    requires forall j :: k < j < |s| ==> s[j] != c
    ensures LastIndexOf(s, c) == k
  {
  }

  /** In `dir + "/" + file` with a separator-free `file`, the directory part
      is `dir` and the base name is `file`. */
  lemma {:induction false} SplitAtLastSeparator(dir: string, file: string)
    requires dir != []
    requires '/' !in file
    ensures Dirname(dir + "/" + file) == dir
    ensures Basename(dir + "/" + file) == file
  {
    var p := dir + "/" + file;
    forall j | |dir| < j < |p| ensures p[j] != '/' {
      assert p[j] == file[j - |dir| - 1];
    }
    LastIndexOfIs(p, '/', |dir|);
    assert p[..|dir|] == dir;
    assert p[|dir| + 1..] == file;
  }

  /** Appending ".js" to a separator-free name keeps it separator-free. */
  lemma NoSeparatorWithJs(name: string)
    requires '/' !in name
    ensures '/' !in name + ".js"
  {
    var file := name + ".js";
    forall i | 0 <= i < |file| ensures file[i] != '/' {
      if i < |name| { assert file[i] == name[i]; }
    }
  }

  /** `path.dirname(p)`: "." without a separator, "/" for a top-level name. */
  function Dirname(p: string): (r: string)
  {
    var k := LastIndexOf(p, '/');
    if k < 0 then "." else if k == 0 then "/" else p[..k]
  }

  /** `path.basename(p)`: the text after the last separator. */
  function Basename(p: string): (r: string)
  {
    p[LastIndexOf(p, '/') + 1..]
  }

  /** `path.basename(p, ext)`: the base name with a trailing `ext` removed,
      unless the base name is `ext` itself; a path equal to `ext` gives "". */
  function BasenameWithout(p: string, ext: string): (r: string)
  {
    var b := Basename(p);
    if p == ext then []
    else if |b| > |ext| && b[|b| - |ext|..] == ext then b[..|b| - |ext|]
    else b
  }

  /** `path.join(dir, name)`: "." contributes nothing, and no separator is
      doubled after a directory that already ends in one. */
  function Join(dir: string, name: string): (r: string)
  {
    if dir == "." then name
    else if dir != [] && dir[|dir| - 1] == '/' then dir + name
    else dir + "/" + name
  }

  /** Where an embedded source is written (main.js:60). */
  function EmbeddedPath(minifiedPath: string, source: string): (r: string)
  {
    Join(Dirname(minifiedPath), source)
  }

  /** Where a reconstructed file is written (main.js:99). */
  function RecoveredPath(minifiedPath: string): (r: string)
  {
    Join(Dirname(minifiedPath), BasenameWithout(minifiedPath, ".js") + "-recovered.js")
  }

  /** Distinct sources never share an embedded output path. */
  lemma EmbeddedPathInjective(minifiedPath: string, s1: string, s2: string)
    ensures EmbeddedPath(minifiedPath, s1) == EmbeddedPath(minifiedPath, s2) <==> s1 == s2
  {
    var d := Dirname(minifiedPath);
    var pre := if d == "." then [] else if d != [] && d[|d| - 1] == '/' then d else d + "/";
    assert EmbeddedPath(minifiedPath, s1) == pre + s1;
    assert EmbeddedPath(minifiedPath, s2) == pre + s2;
    assert (pre + s1)[|pre|..] == s1;
    assert (pre + s2)[|pre|..] == s2;
  }

  /** The ".js" of a base name `name.js` is removed. */
  lemma StripJs(p: string, name: string)
    requires Basename(p) == name + ".js" && name != []
    ensures BasenameWithout(p, ".js") == name
  {
    var file := name + ".js";
    assert |p| >= |file| > 3;
    assert file[|file| - 3..] == ".js";
    assert file[..|file| - 3] == name;
  }

  /** A file `dir/name.js` is reconstructed into `dir/name-recovered.js`. */
  lemma RecoveredPathInDirectory(dir: string, name: string)
    requires dir != [] && dir != "." && dir[|dir| - 1] != '/'
    requires name != [] && '/' !in name
    ensures RecoveredPath(dir + "/" + name + ".js") == dir + "/" + name + "-recovered.js"
  {
    var file := name + ".js";
    var p := dir + "/" + file;
    assert dir + "/" + name + ".js" == p;
    NoSeparatorWithJs(name);
    SplitAtLastSeparator(dir, file);
    StripJs(p, name);
    assert dir + "/" + (name + "-recovered.js") == dir + "/" + name + "-recovered.js";
  }

  /** A file `name.js` given without a directory is reconstructed into
      `name-recovered.js`. */
  lemma RecoveredPathBare(name: string)
    requires name != [] && '/' !in name
    ensures RecoveredPath(name + ".js") == name + "-recovered.js"
  {
    var file := name + ".js";
    NoSeparatorWithJs(name);
    LastIndexOfIs(file, '/', -1);
    assert Basename(file) == file;
    assert file[|file| - 3..] == ".js";
    assert file[..|file| - 3] == name;
  }

  /** A base name not ending in ".js" is kept whole before the suffix:
      `dir/app.mjs` becomes `dir/app.mjs-recovered.js`. */
  lemma RecoveredPathOtherExtension(dir: string, file: string)
    requires dir != [] && dir != "." && dir[|dir| - 1] != '/'
    requires file != [] && '/' !in file
    requires |file| < 3 || file[|file| - 3..] != ".js"
    ensures RecoveredPath(dir + "/" + file) == dir + "/" + file + "-recovered.js"
  {
    var p := dir + "/" + file;
    SplitAtLastSeparator(dir, file);
    assert p != ".js" by { assert |p| > |file|; if |p| == 3 { assert |file| < 3; } }
    assert BasenameWithout(p, ".js") == file;
    assert dir + "/" + (file + "-recovered.js") == dir + "/" + file + "-recovered.js";
  }
}
