/** The per-file recovery of main.js:34-109: choose a strategy from the
    source map's embedded contents, then either write every embedded source
    verbatim or write one reconstructed file, recording each output path. */
module Recovery {
  import opened Wrappers
  import opened Paths
  import opened Reconstruction
  import opened Objects

  /** What the tool reads from a parsed source map: the source identifiers,
      `sourceContentFor(source, true)` (null when a source has no embedded
      text) and the position query. */
  datatype SourceMap = SourceMap(sources: seq<string>,
                                 contentFor: string -> Option<string>,
                                 lookup: Lookup)

  /** The sidecar `<file>.map` as the tool finds it: absent, present but
      rejected by `JSON.parse` or the source-map consumer, or parsed. */
  datatype MapFile = Missing | Unparsable | Parsed(sourceMap: SourceMap)

  /** The formatter: formatted text, or `None` when it throws. */
  type Formatter = string -> Option<string>

  /** One `writeFileSync` call. */
  datatype Write = Write(path: string, body: string)

  /** The `sourceContents` object: one property per source, holding its
      embedded text or null. */
  type Table = seq<Prop<Option<string>>>

  predicate Distinct(s: seq<string>)
  {
    forall i, j :: 0 <= i < j < |s| ==> s[i] != s[j]
  }

  /** The `sourceContents` object built by the `reduce` of main.js:51-54:
      every property holds its source's embedded text. */
  function SourceContents(sources: seq<string>, contentFor: string -> Option<string>): (t: Table)
    ensures forall i :: 0 <= i < |t| ==> t[i].value == contentFor(t[i].key)
  {
    if sources == [] then []
    else
      var n := |sources|;
      Assign(SourceContents(sources[..n - 1], contentFor), sources[n - 1], contentFor(sources[n - 1]))
  }

  /** `Object.values(sourceContents).some(content => content !== null)`. */
  predicate HasEmbedded(t: Table)
  {
    exists i :: 0 <= i < |t| && t[i].value.Some?
  }

  /** The writes of the embedded branch (main.js:58-65), in property order:
      one per property whose content is not null, with that content verbatim. */
  function EmbeddedWrites(minifiedPath: string, t: Table): (r: seq<Write>)
  {
    if t == [] then []
    else
      var n := |t|;
      var prop := t[n - 1];
      EmbeddedWrites(minifiedPath, t[..n - 1])
        + (if prop.value.Some? then [Write(EmbeddedPath(minifiedPath, prop.key), prop.value.value)] else [])
  }

  /** The reconstructed text after the formatting attempt of main.js:93-97:
      the formatted text, or the raw text when the formatter fails. */
  function Formatted(format: Formatter, raw: string): (r: string)
  {
    match format(raw)
    case Some(pretty) => pretty
    case None => raw
  }

  /** The writes `handleFile` performs for a parsed source map. */
  function Recover(minifiedPath: string, code: string, sm: SourceMap, format: Formatter): (r: seq<Write>)
  {
    var table := SourceContents(sm.sources, sm.contentFor);
    if HasEmbedded(table) then EmbeddedWrites(minifiedPath, table)
    else [Write(RecoveredPath(minifiedPath), Formatted(format, Reconstructed(code, sm.lookup)))]
  }

  /** The writes `handleFile` performs: none when the map is missing or
      cannot be parsed (the error is only logged). */
  function FileWrites(minifiedPath: string, code: string, file: MapFile, format: Formatter): (r: seq<Write>)
  {
    match file
    case Parsed(sm) => Recover(minifiedPath, code, sm, format)
    case _ => []
  }

  function PathsOf(ws: seq<Write>): (r: seq<string>)
  {
    if ws == [] then [] else PathsOf(ws[..|ws| - 1]) + [ws[|ws| - 1].path]
  }

  /** The files on disk after performing `ws` in order. */
  function Applied(disk: map<string, string>, ws: seq<Write>): (r: map<string, string>)
  {
    if ws == [] then disk
    else
      var w := ws[|ws| - 1];
      Applied(disk, ws[..|ws| - 1])[w.path := w.body]
  }

  /** One more property adds at most one write, at the end. */
  lemma EmbeddedWritesStep(minifiedPath: string, t: Table, i: nat)
    requires i < |t|
    ensures EmbeddedWrites(minifiedPath, t[..i + 1])
         == EmbeddedWrites(minifiedPath, t[..i])
            + (if t[i].value.Some? then [Write(EmbeddedPath(minifiedPath, t[i].key), t[i].value.value)] else [])
  {
    assert t[..i + 1][..i] == t[..i];
  }

  /** One more write adds its path last and updates that one file. */
  lemma AppendWrite(disk: map<string, string>, ws: seq<Write>, w: Write)
    ensures PathsOf(ws + [w]) == PathsOf(ws) + [w.path]
    ensures Applied(disk, ws + [w]) == Applied(disk, ws)[w.path := w.body]
  {
    assert (ws + [w])[..|ws|] == ws;
  }

  /** The tool's state across `handleFile` calls. */
  class Recoverer {
    /** The global `recoveredFiles` array of main.js:32. */
    var recoveredFiles: seq<string>
    /** The files written so far, by path. */
    var disk: map<string, string>

    constructor ()
      ensures recoveredFiles == [] && disk == map[]
    {
      recoveredFiles := [];
      disk := map[];
    }

    /** `writeFileSync(path, body)` followed by `recoveredFiles.push(path)`. */
    method WriteFile(path: string, body: string)
      modifies this
      ensures disk == old(disk)[path := body]
      ensures recoveredFiles == old(recoveredFiles) + [path]
    {
      disk := disk[path := body];
      recoveredFiles := recoveredFiles + [path];
    }

    /** The embedded branch of main.js:58-65. */
    method WriteEmbedded(minifiedPath: string, sourceContents: Table)
      modifies this
      ensures recoveredFiles == old(recoveredFiles) + PathsOf(EmbeddedWrites(minifiedPath, sourceContents))
      ensures disk == Applied(old(disk), EmbeddedWrites(minifiedPath, sourceContents))
    {
      var i := 0;
      while i < |sourceContents|
        invariant 0 <= i <= |sourceContents|
        invariant recoveredFiles == old(recoveredFiles) + PathsOf(EmbeddedWrites(minifiedPath, sourceContents[..i]))
        invariant disk == Applied(old(disk), EmbeddedWrites(minifiedPath, sourceContents[..i]))
      {
        var source := sourceContents[i].key;
        var content := sourceContents[i].value;
        ghost var done := EmbeddedWrites(minifiedPath, sourceContents[..i]);
        EmbeddedWritesStep(minifiedPath, sourceContents, i);
        if content.Some? {
          var originalFilePath := EmbeddedPath(minifiedPath, source);
          WriteFile(originalFilePath, content.value);
          AppendWrite(old(disk), done, Write(originalFilePath, content.value));
          assert recoveredFiles == old(recoveredFiles) + (PathsOf(done) + [originalFilePath]);
        } else {
          assert done + [] == done;
        }
        i := i + 1;
      }
      assert sourceContents[..|sourceContents|] == sourceContents;
    }

    /** `handleFile(minifiedFilePath)` of main.js:34-109, given the minified
        text and the sidecar map as read from disk. */
    method HandleFile(minifiedPath: string, code: string, file: MapFile, format: Formatter)
      modifies this
      ensures recoveredFiles == old(recoveredFiles) + PathsOf(FileWrites(minifiedPath, code, file, format))
      ensures disk == Applied(old(disk), FileWrites(minifiedPath, code, file, format))
    {
      if !file.Parsed? {
        return;
      }
      var sm := file.sourceMap;
      var sourceContents := SourceContents(sm.sources, sm.contentFor);
      if HasEmbedded(sourceContents) {
        WriteEmbedded(minifiedPath, sourceContents);
      } else {
        var reconstructedSource := ReconstructBody(code, sm.lookup);
        match format(reconstructedSource) {
          case Some(pretty) => reconstructedSource := pretty;
          case None =>
        }
        var originalFilePath := RecoveredPath(minifiedPath);
        WriteFile(originalFilePath, reconstructedSource);
        assert [Write(originalFilePath, reconstructedSource)][..0] == [];
      }
    }
  }

  /** Every source is a property of `sourceContents`. */
  lemma {:induction false} SourceIsKey(sources: seq<string>, contentFor: string -> Option<string>, j: nat)
    requires j < |sources|
    ensures IndexOfKey(SourceContents(sources, contentFor), sources[j]) >= 0
  {
    var n := |sources|;
    var t0 := SourceContents(sources[..n - 1], contentFor);
    var t := SourceContents(sources, contentFor);
    var last := sources[n - 1];
    assert t == Assign(t0, last, contentFor(last));
    if j < n - 1 {
      SourceIsKey(sources[..n - 1], contentFor, j);
      var i := IndexOfKey(t0, sources[..n - 1][j]);
      assert t[i].key == t0[i].key == sources[j];
    } else {
      AssignAt(t0, last, contentFor(last));
    }
  }

  /** Every property of `sourceContents` is one of the sources. */
  lemma {:induction false} KeyIsSource(sources: seq<string>, contentFor: string -> Option<string>, i: nat)
    requires i < |SourceContents(sources, contentFor)|
    ensures exists j :: 0 <= j < |sources| && sources[j] == SourceContents(sources, contentFor)[i].key
  {
    var n := |sources|;
    var t0 := SourceContents(sources[..n - 1], contentFor);
    var t := SourceContents(sources, contentFor);
    if t[i].key != sources[n - 1] {
      assert i < |t0| && t[i] == t0[i];
      KeyIsSource(sources[..n - 1], contentFor, i);
      var j :| 0 <= j < n - 1 && sources[..n - 1][j] == t0[i].key;
      assert sources[j] == t[i].key;
    }
  }

  /** `sourceContents` never holds a key twice. */
  lemma {:induction false} SourceContentsDistinct(sources: seq<string>, contentFor: string -> Option<string>)
    ensures DistinctKeys(SourceContents(sources, contentFor))
  {
    if sources != [] {
      var n := |sources|;
      SourceContentsDistinct(sources[..n - 1], contentFor);
    }
  }

  /** The embedded strategy is chosen exactly when some source has embedded
      text; otherwise the file is reconstructed. */
  lemma StrategySelection(sources: seq<string>, contentFor: string -> Option<string>)
    ensures HasEmbedded(SourceContents(sources, contentFor))
            <==> exists j :: 0 <= j < |sources| && contentFor(sources[j]).Some?
  {
    var t := SourceContents(sources, contentFor);
    if HasEmbedded(t) {
      var i :| 0 <= i < |t| && t[i].value.Some?;
      KeyIsSource(sources, contentFor, i);
    }
    if exists j :: 0 <= j < |sources| && contentFor(sources[j]).Some? {
      var j :| 0 <= j < |sources| && contentFor(sources[j]).Some?;
      SourceIsKey(sources, contentFor, j);
      assert t[IndexOfKey(t, sources[j])].value.Some?;
    }
  }

  /** With distinct sources, the properties are the sources in order. */
  lemma {:induction false} DistinctSourcesKeepOrder(sources: seq<string>, contentFor: string -> Option<string>)
    requires Distinct(sources)
    ensures var t := SourceContents(sources, contentFor);
            |t| == |sources| && forall i :: 0 <= i < |t| ==> t[i].key == sources[i]
  {
    if sources != [] {
      var n := |sources|;
      var prefix := sources[..n - 1];
      var last := sources[n - 1];
      var t0 := SourceContents(prefix, contentFor);
      var t := SourceContents(sources, contentFor);
      assert t == Assign(t0, last, contentFor(last));
      DistinctSourcesKeepOrder(prefix, contentFor);
      forall i | 0 <= i < |t0| ensures t0[i].key != last {
        assert t0[i].key == prefix[i] == sources[i];
      }
      IndexOfKeyIs(t0, last, -1);
      assert |t| == |t0| + 1 && t[|t0|].key == last;
      forall i | 0 <= i < |t| ensures t[i].key == sources[i] {
        if i < |t0| {
          assert t[i].key == t0[i].key == prefix[i];
        }
      }
    }
  }

  /** Every embedded write is the verbatim content of one property. */
  lemma {:induction false} EmbeddedWritesSound(minifiedPath: string, t: Table, w: Write)
    requires w in EmbeddedWrites(minifiedPath, t)
    ensures exists i :: 0 <= i < |t| && t[i].value == Some(w.body)
                        && w.path == EmbeddedPath(minifiedPath, t[i].key)
  {
    var n := |t|;
    if w in EmbeddedWrites(minifiedPath, t[..n - 1]) {
      EmbeddedWritesSound(minifiedPath, t[..n - 1], w);
      var i :| 0 <= i < n - 1 && t[..n - 1][i].value == Some(w.body)
               && w.path == EmbeddedPath(minifiedPath, t[..n - 1][i].key);
      assert t[i] == t[..n - 1][i];
    } else {
      assert t[n - 1].value.Some? && w == Write(EmbeddedPath(minifiedPath, t[n - 1].key), t[n - 1].value.value);
    }
  }

  /** Every property with content is written, with that content. */
  lemma {:induction false} EmbeddedWritesComplete(minifiedPath: string, t: Table, i: nat)
    requires i < |t| && t[i].value.Some?
    ensures Write(EmbeddedPath(minifiedPath, t[i].key), t[i].value.value) in EmbeddedWrites(minifiedPath, t)
  {
    var n := |t|;
    if i < n - 1 {
      EmbeddedWritesComplete(minifiedPath, t[..n - 1], i);
    }
  }

  /** Writes from entries whose keys all differ from `key` never target
      the path `key` would be written to. */
  lemma EarlierPathsDiffer(minifiedPath: string, prefix: Table, key: string)
    requires forall j :: 0 <= j < |prefix| ==> prefix[j].key != key
    ensures forall i :: 0 <= i < |EmbeddedWrites(minifiedPath, prefix)| ==>
              EmbeddedWrites(minifiedPath, prefix)[i].path != EmbeddedPath(minifiedPath, key)
  {
    var ws0 := EmbeddedWrites(minifiedPath, prefix);
    forall i | 0 <= i < |ws0| ensures ws0[i].path != EmbeddedPath(minifiedPath, key) {
      EmbeddedWritesSound(minifiedPath, prefix, ws0[i]);
      var j :| 0 <= j < |prefix| && ws0[i].path == EmbeddedPath(minifiedPath, prefix[j].key);
      EmbeddedPathInjective(minifiedPath, prefix[j].key, key);
    }
  }

  /** No two writes target the same path. */
  predicate DistinctPaths(ws: seq<Write>)
  {
    forall i, j :: 0 <= i < j < |ws| ==> ws[i].path != ws[j].path
  }

  /** Distinct keys give distinct output paths. */
  lemma {:induction false} EmbeddedPathsDistinct(minifiedPath: string, t: Table)
    requires DistinctKeys(t)
    ensures DistinctPaths(EmbeddedWrites(minifiedPath, t))
  {
    if t != [] {
      var n := |t|;
      var prefix := t[..n - 1];
      EmbeddedPathsDistinct(minifiedPath, prefix);
      var ws0 := EmbeddedWrites(minifiedPath, prefix);
      var ws := EmbeddedWrites(minifiedPath, t);
      if t[n - 1].value.Some? {
        var w := Write(EmbeddedPath(minifiedPath, t[n - 1].key), t[n - 1].value.value);
        assert ws == ws0 + [w];
        forall j | 0 <= j < |prefix| ensures prefix[j].key != t[n - 1].key {
          assert prefix[j] == t[j];
        }
        EarlierPathsDiffer(minifiedPath, prefix, t[n - 1].key);
        forall i, j | 0 <= i < j < |ws| ensures ws[i].path != ws[j].path {
          if j < |ws0| {
            assert ws[i] == ws0[i] && ws[j] == ws0[j];
          } else {
            assert ws[i] == ws0[i] && ws[j] == w;
            assert ws0[i].path != w.path;
          }
        }
      } else {
        assert ws == ws0 + [];
      }
    }
  }

  /** A write that no later write overrides is what the disk holds. */
  lemma {:induction false} AppliedHoldsLastWrite(disk: map<string, string>, ws: seq<Write>, i: nat)
    requires i < |ws|
    requires forall j :: i < j < |ws| ==> ws[j].path != ws[i].path
    ensures ws[i].path in Applied(disk, ws) && Applied(disk, ws)[ws[i].path] == ws[i].body
  {
    if i < |ws| - 1 {
      AppliedHoldsLastWrite(disk, ws[..|ws| - 1], i);
    }
  }

  /** A path no write touches keeps its old state. */
  lemma {:induction false} AppliedUntouched(disk: map<string, string>, ws: seq<Write>, q: string)
    requires forall j :: 0 <= j < |ws| ==> ws[j].path != q
    ensures (q in Applied(disk, ws) <==> q in disk)
    ensures q in disk ==> Applied(disk, ws)[q] == disk[q]
  {
    if ws != [] {
      AppliedUntouched(disk, ws[..|ws| - 1], q);
    }
  }

  /** Embedded round trip: after `handleFile`, the file at the resolved path
      of every source with embedded text holds exactly that text. */
  lemma EmbeddedRoundTrip(minifiedPath: string, code: string, sm: SourceMap, format: Formatter,
                          disk: map<string, string>, j: nat)
    requires j < |sm.sources| && sm.contentFor(sm.sources[j]).Some?
    ensures var after := Applied(disk, Recover(minifiedPath, code, sm, format));
            var p := EmbeddedPath(minifiedPath, sm.sources[j]);
            p in after && after[p] == sm.contentFor(sm.sources[j]).value
  {
    var t := SourceContents(sm.sources, sm.contentFor);
    var s := sm.sources[j];
    StrategySelection(sm.sources, sm.contentFor);
    var ws := EmbeddedWrites(minifiedPath, t);
    SourceIsKey(sm.sources, sm.contentFor, j);
    var k := IndexOfKey(t, s);
    EmbeddedWritesComplete(minifiedPath, t, k);
    var w := Write(EmbeddedPath(minifiedPath, s), sm.contentFor(s).value);
    var m :| 0 <= m < |ws| && ws[m] == w;
    SourceContentsDistinct(sm.sources, sm.contentFor);
    EmbeddedPathsDistinct(minifiedPath, t);
    AppliedHoldsLastWrite(disk, ws, m);
  }

  /** Skip on null: under the embedded strategy a source without embedded
      text gets no file; whatever was at its path stays as it was. */
  lemma NullSourceSkipped(minifiedPath: string, code: string, sm: SourceMap, format: Formatter,
                          disk: map<string, string>, j: nat)
    requires HasEmbedded(SourceContents(sm.sources, sm.contentFor))
    requires j < |sm.sources| && sm.contentFor(sm.sources[j]).None?
    ensures var ws := Recover(minifiedPath, code, sm, format);
            var p := EmbeddedPath(minifiedPath, sm.sources[j]);
            (forall m :: 0 <= m < |ws| ==> ws[m].path != p)
            && (p in Applied(disk, ws) <==> p in disk)
            && (p in disk ==> Applied(disk, ws)[p] == disk[p])
  {
    var t := SourceContents(sm.sources, sm.contentFor);
    var ws := EmbeddedWrites(minifiedPath, t);
    var p := EmbeddedPath(minifiedPath, sm.sources[j]);
    forall m | 0 <= m < |ws| ensures ws[m].path != p {
      EmbeddedWritesSound(minifiedPath, t, ws[m]);
      var i :| 0 <= i < |t| && t[i].value == Some(ws[m].body)
               && ws[m].path == EmbeddedPath(minifiedPath, t[i].key);
      EmbeddedPathInjective(minifiedPath, t[i].key, sm.sources[j]);
    }
    AppliedUntouched(disk, ws, p);
  }

  /** With distinct sources that all embed text, one file is written per
      source, in the order of `sources`. */
  lemma AllEmbeddedInOrder(minifiedPath: string, code: string, sm: SourceMap, format: Formatter)
    requires Distinct(sm.sources) && |sm.sources| > 0
    requires forall j :: 0 <= j < |sm.sources| ==> sm.contentFor(sm.sources[j]).Some?
    ensures var ws := Recover(minifiedPath, code, sm, format);
            |ws| == |sm.sources|
            && forall i :: 0 <= i < |ws| ==>
                 ws[i] == Write(EmbeddedPath(minifiedPath, sm.sources[i]), sm.contentFor(sm.sources[i]).value)
  {
    var t := SourceContents(sm.sources, sm.contentFor);
    DistinctSourcesKeepOrder(sm.sources, sm.contentFor);
    forall i | 0 <= i < |t| ensures t[i].value.Some? && t[i].value == sm.contentFor(sm.sources[i]) {
      assert t[i].key == sm.sources[i];
    }
    assert t[0].value.Some?;
    assert HasEmbedded(t);
    assert Recover(minifiedPath, code, sm, format) == EmbeddedWrites(minifiedPath, t);
    EmbeddedAllPresent(minifiedPath, t);
  }

  lemma {:induction false} EmbeddedAllPresent(minifiedPath: string, t: Table)
    requires forall i :: 0 <= i < |t| ==> t[i].value.Some?
    ensures var ws := EmbeddedWrites(minifiedPath, t);
            |ws| == |t|
            && forall i :: 0 <= i < |ws| ==> ws[i] == Write(EmbeddedPath(minifiedPath, t[i].key), t[i].value.value)
  {
    if t != [] {
      EmbeddedAllPresent(minifiedPath, t[..|t| - 1]);
    }
  }

  /** Without embedded text, exactly one file is written, at the recovered
      path, holding the formatted reconstruction. */
  lemma ReconstructionWritesOneFile(minifiedPath: string, code: string, sm: SourceMap, format: Formatter)
    requires forall i :: 0 <= i < |sm.sources| ==> sm.contentFor(sm.sources[i]).None?
    ensures Recover(minifiedPath, code, sm, format)
         == [Write(RecoveredPath(minifiedPath), Formatted(format, Reconstructed(code, sm.lookup)))]
  {
    StrategySelection(sm.sources, sm.contentFor);
  }

  /** A formatter failure is not fatal: the raw reconstruction, ending in a
      newline, is written and its path recorded. */
  lemma FormatFailureKeepsRawText(minifiedPath: string, code: string, sm: SourceMap, format: Formatter)
    requires forall i :: 0 <= i < |sm.sources| ==> sm.contentFor(sm.sources[i]).None?
    requires format(Reconstructed(code, sm.lookup)).None?
    ensures var ws := Recover(minifiedPath, code, sm, format);
            |ws| == 1 && ws[0].path == RecoveredPath(minifiedPath)
            && ws[0].body == Reconstructed(code, sm.lookup)
            && ws[0].body[|ws[0].body| - 1] == '\n'
  {
    ReconstructionWritesOneFile(minifiedPath, code, sm, format);
  }
}
