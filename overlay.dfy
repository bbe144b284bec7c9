/**
 * SimpleOverlay (simpleoverlay.rb): a session that drives a RubyScape
 * document through a script of layer changes and numbered snapshots, and
 * writes LaTeX fragments with one slide per snapshot index counted so far. The
 * files written, the Inkscape command run and the files deleted are
 * recorded, in order, as effects.
 */
module Overlay {
  import opened Scape

  /** What a session does to the outside world, in the order it does it. */
  datatype Effect =
    | Save(path: string, document: seq<Node>)     // save(name): the document serialised to a file
    | Shell(command: string)                      // system(...): exit status ignored
    | Delete(path: string)                        // File.delete
    | WriteTex(path: string, blocks: seq<string>) // a .tex file holding these blocks one after another

  const INKSCAPE := "/usr/bin/inkscape"

  /** The digit for d. */
  function Digit(d: nat): char
    requires d < 10
  {
    (48 + d) as char
  }

  /** Ruby's Integer#to_s for a non-negative integer: decimal, no leading zeros. */
  function DecimalString(n: nat): (r: string)
    decreases n
    ensures |r| > 0
    ensures forall k :: 0 <= k < |r| ==> '0' <= r[k] <= '9'
    ensures r[0] == '0' ==> n == 0
  {
    if n < 10 then [Digit(n)] else DecimalString(n / 10) + [Digit(n % 10)]
  }

  /** The number a string of decimal digits denotes. */
  function DecimalValue(s: string): nat
    requires forall k :: 0 <= k < |s| ==> '0' <= s[k] <= '9'
  {
    if s == [] then 0 else DecimalValue(s[..|s| - 1]) * 10 + (s[|s| - 1] as int - '0' as int)
  }

  /** Reading back a decimal string gives the number written. */
  lemma {:induction false} DecimalRoundTrip(n: nat)
    decreases n
    ensures DecimalValue(DecimalString(n)) == n
  {
    var s := DecimalString(n);
    if n < 10 {
      assert s[..|s| - 1] == [];
    } else {
      DecimalRoundTrip(n / 10);
      assert s[..|s| - 1] == DecimalString(n / 10);
    }
  }

  /** An artifact's base name: the document's base name followed by the snapshot index. */
  function ArtifactName(baseName: string, index: nat): string
  {
    baseName + DecimalString(index)
  }

  /** Different indices name different artifacts. */
  lemma ArtifactNamesDiffer(baseName: string, i: nat, j: nat)
    requires i != j
    ensures ArtifactName(baseName, i) != ArtifactName(baseName, j)
  {
    DecimalRoundTrip(i);
    DecimalRoundTrip(j);
    assert ArtifactName(baseName, i)[|baseName|..] == DecimalString(i);
    assert ArtifactName(baseName, j)[|baseName|..] == DecimalString(j);
  }

  predicate StrictlyIncreasing(s: seq<nat>)
  {
    forall j, k :: 0 <= j < k < |s| ==> s[j] < s[k]
  }

  /** Appending an index above every earlier one keeps the sequence increasing. */
  lemma ExtendIncreasing(s: seq<nat>, index: nat)
    requires StrictlyIncreasing(s)
    requires forall k :: 0 <= k < |s| ==> s[k] < index
    ensures StrictlyIncreasing(s + [index])
  {
    var t := s + [index];
    forall j, k | 0 <= j < k < |t| ensures t[j] < t[k] {
      assert t[j] == s[j];
      assert k < |s| ==> t[k] == s[k];
    }
  }

  /** Snapshots taken in one session never share a file name. */
  lemma EmittedNamesUnique(baseName: string, emitted: seq<nat>)
    requires StrictlyIncreasing(emitted)
    ensures forall j, k :: 0 <= j < k < |emitted| ==>
      ArtifactName(baseName, emitted[j]) != ArtifactName(baseName, emitted[k])
  {
    forall j, k | 0 <= j < k < |emitted|
      ensures ArtifactName(baseName, emitted[j]) != ArtifactName(baseName, emitted[k])
    {
      ArtifactNamesDiffer(baseName, emitted[j], emitted[k]);
    }
  }

  /** The Inkscape command that converts `name.svg` to `name.eps`. */
  function ConvertCommand(inkscape: string, name: string): string
  {
    inkscape + " -E=" + name + ".eps " + name + ".svg -z -d=90 -C --export-ignore-filters 2>/dev/null"
  }

  /** The deferred-start rule: a snapshot at this count is skipped. */
  predicate Skips(wait: int, count: int)
  {
    wait != -1 && count < wait
  }

  /** What an emitted snapshot does: save, then convert if eps, then delete the svg if cleanup. */
  function SnapshotEffects(name: string, document: seq<Node>, eps: bool, cleanup: bool, inkscape: string): seq<Effect>
  {
    [Save(name + ".svg", document)]
    + (if eps then [Shell(ConvertCommand(inkscape, name))] else [])
    + (if cleanup then [Delete(name + ".svg")] else [])
  }

  /** The body of an emitted snapshot, step by step, as the effects it records. */
  method SnapshotSteps(name: string, document: seq<Node>, eps: bool, cleanup: bool, inkscape: string)
    returns (out: seq<Effect>)
    ensures out == SnapshotEffects(name, document, eps, cleanup, inkscape)
  {
    var svg := name + ".svg";
    out := [Save(svg, document)];
    if eps {
      out := out + [Shell(ConvertCommand(inkscape, name))];
    }
    if cleanup {
      out := out + [Delete(svg)];
    }
  }

  /** The paths of the `Save` effects of a trace, in order. */
  function SavedPaths(es: seq<Effect>): seq<string>
  {
    if es == [] then []
    else SavedPaths(es[..|es| - 1]) + (if es[|es| - 1].Save? then [es[|es| - 1].path] else [])
  }

  /** The svg files of the snapshots with these indices, in order. */
  function ArtifactPaths(baseName: string, indices: seq<nat>): seq<string>
  {
    seq(|indices|, k requires 0 <= k < |indices| => ArtifactName(baseName, indices[k]) + ".svg")
  }

  lemma {:induction false} SavedPathsAppend(a: seq<Effect>, b: seq<Effect>)
    decreases |b|
    ensures SavedPaths(a + b) == SavedPaths(a) + SavedPaths(b)
  {
    if b != [] {
      var n := |b| - 1;
      assert (a + b)[..|a + b| - 1] == a + b[..n];
      SavedPathsAppend(a, b[..n]);
    } else {
      assert a + b == a;
    }
  }

  /** An emitted snapshot saves exactly one file, `name.svg`. */
  lemma SavedPathsOfSnapshot(name: string, document: seq<Node>, eps: bool, cleanup: bool, inkscape: string)
    ensures SavedPaths(SnapshotEffects(name, document, eps, cleanup, inkscape)) == [name + ".svg"]
  {
    var save := [Save(name + ".svg", document)];
    var shell: seq<Effect> := if eps then [Shell(ConvertCommand(inkscape, name))] else [];
    var delete: seq<Effect> := if cleanup then [Delete(name + ".svg")] else [];
    assert SavedPaths(save) == [name + ".svg"] by { assert save[..0] == []; }
    assert SavedPaths(shell) == [] by { assert eps ==> shell[..0] == []; }
    assert SavedPaths(delete) == [] by { assert cleanup ==> delete[..0] == []; }
    SavedPathsAppend(save, shell);
    SavedPathsAppend(save + shell, delete);
  }

  lemma ArtifactPathsAppend(baseName: string, indices: seq<nat>, index: nat)
    ensures ArtifactPaths(baseName, indices + [index]) == ArtifactPaths(baseName, indices) + [ArtifactName(baseName, index) + ".svg"]
  {
  }

  /** An emitted snapshot extends the saved files by its own svg. */
  lemma TraceAfterSnapshot(baseName: string, effects: seq<Effect>, emitted: seq<nat>, index: nat,
                           out: seq<Effect>, document: seq<Node>, eps: bool, cleanup: bool, inkscape: string)
    requires SavedPaths(effects) == ArtifactPaths(baseName, emitted)
    requires out == SnapshotEffects(ArtifactName(baseName, index), document, eps, cleanup, inkscape)
    ensures SavedPaths(effects + out) == ArtifactPaths(baseName, emitted + [index])
  {
    SavedPathsAppend(effects, out);
    SavedPathsOfSnapshot(ArtifactName(baseName, index), document, eps, cleanup, inkscape);
    ArtifactPathsAppend(baseName, emitted, index);
  }

  /** Writing a fragment file saves no svg. */
  lemma TraceAfterTex(effects: seq<Effect>, tex: seq<Effect>)
    requires |tex| == 1 && tex[0].WriteTex?
    ensures SavedPaths(effects + tex) == SavedPaths(effects)
  {
    SavedPathsAppend(effects, tex);
    assert tex[..0] == [];
  }

  /** Distinct names give distinct svg paths. */
  lemma SvgPathsDiffer(a: string, b: string)
    requires a != b
    ensures a + ".svg" != b + ".svg"
  {
    if |a| == |b| {
      assert (a + ".svg")[..|a|] == a && (b + ".svg")[..|b|] == b;
    } else {
      assert |a + ".svg"| != |b + ".svg"|;
    }
  }

  /** The name of the n-th LaTeX fragment file. */
  function TexName(baseName: string, n: nat): string
  {
    baseName + DecimalString(n) + ".tex"
  }

  /** One slide including artifact i. */
  function Block(title: string, basedir: string, baseName: string, i: nat): string
  {
    "\\begin{slide}{" + title + "}\n"
    + "  \\centering\n"
    + "  \\includegraphics[]{" + basedir + ArtifactName(baseName, i) + "}\n"
    + "\\end{slide}\n\n"
  }

  /** The slides for the indices lo .. hi - 1, in ascending order. */
  function Blocks(title: string, basedir: string, baseName: string, lo: nat, hi: int): (r: seq<string>)
    decreases hi - lo
    ensures |r| == if lo <= hi then hi - lo else 0
    ensures forall k :: 0 <= k < |r| ==> r[k] == Block(title, basedir, baseName, lo + k)
  {
    if hi <= lo then [] else Blocks(title, basedir, baseName, lo, hi - 1) + [Block(title, basedir, baseName, hi - 1)]
  }

  /** The loop of latex: one slide per index from lo up to hi - 1, in ascending order. */
  method FragmentBlocks(title: string, basedir: string, baseName: string, lo: nat, hi: int)
    returns (blocks: seq<string>)
    requires lo <= hi
    ensures blocks == Blocks(title, basedir, baseName, lo, hi)
  {
    blocks := [];
    var i := lo;
    while i <= hi - 1
      invariant lo <= i <= hi
      invariant blocks == Blocks(title, basedir, baseName, lo, i)
    {
      blocks := blocks + [Block(title, basedir, baseName, i)];
      i := i + 1;
    }
  }

  /** The index range lo .. hi - 1 one fragment file covers. */
  datatype Range = Range(lo: int, hi: int)

  /** The ranges follow one another without gap or overlap, from `from` up to `to`. */
  ghost predicate Chain(rs: seq<Range>, from: int, to: int)
  {
    (|rs| == 0 ==> from == to) &&
    (|rs| > 0 ==> rs[0].lo == from && rs[|rs| - 1].hi == to) &&
    (forall k :: 0 <= k < |rs| ==> rs[k].lo <= rs[k].hi) &&
    (forall k :: 0 <= k < |rs| - 1 ==> rs[k].hi == rs[k + 1].lo)
  }

  /** A range starting where a chain ends extends it. */
  lemma ChainExtend(rs: seq<Range>, from: int, to: int, hi: int)
    requires Chain(rs, from, to) && to <= hi
    ensures Chain(rs + [Range(to, hi)], from, hi)
  {
  }

  /** A later range of a chain starts where or after an earlier one ends: the ranges are disjoint. */
  lemma {:induction false} ChainDisjoint(rs: seq<Range>, from: int, to: int, j: nat, k: nat)
    requires Chain(rs, from, to)
    requires j < k < |rs|
    decreases k - j
    ensures rs[j].hi <= rs[k].lo
  {
    if j + 1 < k {
      ChainDisjoint(rs, from, to, j + 1, k);
      assert rs[j].hi == rs[j + 1].lo <= rs[j + 1].hi;
    }
  }

  /** Every index from `from` up to `to` lies in some range of the chain. */
  lemma {:induction false} ChainCovers(rs: seq<Range>, from: int, to: int, i: int) returns (k: nat)
    requires Chain(rs, from, to)
    requires from <= i < to
    decreases |rs|
    ensures k < |rs| && rs[k].lo <= i < rs[k].hi
  {
    var n := |rs| - 1;
    if rs[n].lo <= i {
      k := n;
    } else {
      var front := rs[..n];
      assert Chain(front, from, rs[n].lo) by {
        if n > 0 {
          assert front[n - 1].hi == rs[n - 1].hi == rs[n].lo;
        }
      }
      k := ChainCovers(front, from, rs[n].lo, i);
    }
  }

  /** A session: the document, the counters, the last-layer register and the options. */
  class SimpleOverlay {
    const scape: RubyScape
    const baseName: string  // File.basename(file.path, ".svg")

    var count: int           // index of the next snapshot
    var last: Element?       // the "last layer shown" register
    var latexCount: int      // first index the next fragment includes
    var latexFileCount: int  // number of the next fragment file
    var cleanup: bool
    var eps: bool
    var wait: int            // -1, or the first index at which snapshots are emitted
    var inkscape: string

    var effects: seq<Effect>
    ghost var emitted: seq<nat>       // indices of the snapshots emitted so far
    ghost var fragments: seq<Range>   // ranges of the fragments written so far

    ghost predicate Valid()
      reads this
    {
      scape.Valid() &&
      1 <= latexCount <= count &&
      FragmentsValid() &&
      EmittedValid() &&
      TraceValid() &&
      (last != null ==> last in scape.doc)
    }

    /** The fragments written so far tile the indices from 1 up to latexCount. */
    ghost predicate FragmentsValid()
      reads this`fragments, this`latexCount, this`latexFileCount
    {
      latexFileCount == |fragments| + 1 && Chain(fragments, 1, latexCount)
    }

    /** The snapshots emitted so far have increasing indices below count. */
    ghost predicate EmittedValid()
      reads this`emitted, this`count
    {
      StrictlyIncreasing(emitted) && forall k :: 0 <= k < |emitted| ==> 1 <= emitted[k] < count
    }

    /** The files saved in the trace are those of the emitted snapshots, in order. */
    ghost predicate TraceValid()
      reads this`effects, this`emitted
    {
      SavedPaths(effects) == ArtifactPaths(baseName, emitted)
    }

    /** initialize, without running the script hook. */
    constructor (scape: RubyScape, baseName: string)
      requires scape.Valid()
      ensures Valid()
      ensures this.scape == scape && this.baseName == baseName
      ensures count == 1 && latexCount == 1 && latexFileCount == 1 && wait == -1
      ensures last == null && cleanup && eps && inkscape == INKSCAPE
      ensures effects == [] && emitted == [] && fragments == []
    {
      this.scape := scape;
      this.baseName := baseName;
      count := 1;
      latexCount := 1;
      latexFileCount := 1;
      cleanup := true;
      eps := true;
      wait := -1;
      inkscape := INKSCAPE;
      last := null;
      effects := [];
      emitted := [];
      fragments := [];
    }

    /** wait_until: snapshots before this index are counted but not emitted. */
    method WaitUntil(index: int)
      requires Valid()
      modifies this`wait
      ensures Valid() && wait == index
    {
      wait := index;
    }

    /** showL: looks the layer up, stores it in the register and shows it. */
    method ShowL(layerLabel: string)
      requires Valid()
      requires scape.Lookup(LayerByLabel(layerLabel)).Some?  // showLayer(nil) raises
      modifies this`last, scape.doc
      ensures Valid()
      ensures var layer := old(scape.Lookup(LayerByLabel(layerLabel))).value;
        last == layer &&
        layer.attrs == old(layer.attrs)["style" := "display:inline;"] &&
        forall e :: e in scape.doc && e != layer ==> e.attrs == old(e.attrs)
      ensures RestyledOnly(old(scape.View()), scape.View())
    {
      var found := scape.GetLayer(layerLabel);
      last := found.value;
      scape.ShowLayer(last);
    }

    /** hideL: looks the layer up and hides it; the register is left alone. */
    method HideL(layerLabel: string)
      requires Valid()
      requires scape.Lookup(LayerByLabel(layerLabel)).Some?  // hideLayer(nil) raises
      modifies scape.doc
      ensures Valid()
      ensures var layer := old(scape.Lookup(LayerByLabel(layerLabel))).value;
        layer.attrs == old(layer.attrs)["style" := "display:none;"] &&
        forall e :: e in scape.doc && e != layer ==> e.attrs == old(e.attrs)
      ensures RestyledOnly(old(scape.View()), scape.View())
    {
      var found := scape.GetLayer(layerLabel);
      scape.HideLayer(found.value);
    }

    /** swapL: hides the layer in the register, then shows this one and stores it. */
    method SwapL(layerLabel: string)
      requires Valid()
      requires last != null  // hideLayer(nil) raises
      requires scape.Lookup(LayerByLabel(layerLabel)).Some?
      modifies this`last, scape.doc
      ensures Valid()
      ensures var previous, layer := old(last), old(scape.Lookup(LayerByLabel(layerLabel))).value;
        last == layer &&
        layer.attrs == old(layer.attrs)["style" := "display:inline;"] &&
        (previous != layer ==> previous.attrs == old(previous.attrs)["style" := "display:none;"]) &&
        forall e :: e in scape.doc && e != layer && e != previous ==> e.attrs == old(e.attrs)
      ensures RestyledOnly(old(scape.View()), scape.View())
    {
      var q := LayerByLabel(layerLabel);
      ghost var before := scape.View();
      ghost var layer := scape.Lookup(q).value;
      ghost var m := layer.attrs;
      scape.HideLayer(last);
      RestyleKeepsLookups(before, scape.View(), q);
      ghost var hidden := scape.View();
      ghost var n := layer.attrs;
      assert scape.Lookup(q).value == layer;
      ShowL(layerLabel);
      assert layer.attrs == n["style" := "display:inline;"];
      if layer == old(last) {
        assert n == m["style" := "display:none;"];
        assert n["style" := "display:inline;"] == m["style" := "display:inline;"];
      }
      RestyledOnlyTransitive(before, hidden, scape.View());
    }

    /**
     * snapshot: counts every call; unless the deferred-start rule skips it,
     * saves the document under the pre-increment index, converts it if eps
     * and deletes the svg if cleanup.
     */
    method Snapshot()
      requires Valid()
      modifies this`count, this`effects, this`emitted
      ensures Valid()
      ensures count == old(count) + 1
      ensures Skips(wait, old(count)) ==> effects == old(effects) && emitted == old(emitted)
      ensures !Skips(wait, old(count)) ==>
        effects == old(effects) + SnapshotEffects(ArtifactName(baseName, old(count)), scape.View(), eps, cleanup, inkscape) &&
        emitted == old(emitted) + [old(count)]
    {
      if wait != -1 && count < wait {
        count := count + 1;
        return;
      }
      Emit();
    }

    /** The emitting part of snapshot: name, count, save, convert, delete. */
    method Emit()
      requires 1 <= count && EmittedValid() && TraceValid()
      modifies this`count, this`effects, this`emitted
      ensures EmittedValid() && TraceValid()
      ensures count == old(count) + 1
      ensures effects == old(effects) + SnapshotEffects(ArtifactName(baseName, old(count)), scape.View(), eps, cleanup, inkscape)
      ensures emitted == old(emitted) + [old(count)]
    {
      var newName := ArtifactName(baseName, count);
      var out := SnapshotSteps(newName, scape.View(), eps, cleanup, inkscape);
      ghost var index: nat := count;
      ExtendIncreasing(emitted, index);
      TraceAfterSnapshot(baseName, effects, emitted, index, out, scape.View(), eps, cleanup, inkscape);
      emitted, count, effects := emitted + [index], count + 1, effects + out;
    }

    /**
     * latex: writes fragment file number latexFileCount with one slide per
     * index from latexCount to count - 1, then moves latexCount up to count.
     */
    method Latex(title: string, basedir: string := "")
      requires Valid()
      modifies this`latexCount, this`latexFileCount, this`effects, this`fragments
      ensures Valid()
      ensures latexCount == count && latexFileCount == old(latexFileCount) + 1
      ensures effects == old(effects) + [WriteTex(TexName(baseName, old(latexFileCount)),
                                                 Blocks(title, basedir, baseName, old(latexCount), count))]
      ensures fragments == old(fragments) + [Range(old(latexCount), count)]
    {
      var texName := TexName(baseName, latexFileCount);
      var blocks := FragmentBlocks(title, basedir, baseName, latexCount, count);
      AppendTex(WriteTex(texName, blocks));
      CloseFragment();
    }

    /** Ends the current fragment at count and moves on to the next fragment file. */
    method CloseFragment()
      requires FragmentsValid() && latexCount <= count
      modifies this`latexCount, this`latexFileCount, this`fragments
      ensures FragmentsValid()
      ensures latexCount == count && latexFileCount == old(latexFileCount) + 1
      ensures fragments == old(fragments) + [Range(old(latexCount), count)]
    {
      ChainExtend(fragments, 1, latexCount, count);
      fragments := fragments + [Range(latexCount, count)];
      latexCount := count;
      latexFileCount := latexFileCount + 1;
    }

    /** Records a written fragment file; it saves no svg, so the trace keeps matching. */
    method AppendTex(tex: Effect)
      requires tex.WriteTex? && TraceValid()
      modifies this`effects
      ensures TraceValid() && effects == old(effects) + [tex]
    {
      TraceAfterTex(effects, [tex]);
      effects := effects + [tex];
    }
  }

  /** wait_until(3) and three snapshots: two are skipped, the third emits index 3. */
  method DeferredStartScenario(scape: RubyScape, baseName: string) returns (o: SimpleOverlay)
    requires scape.Valid()
    ensures o.Valid() && o.count == 4 && o.emitted == [3]
    ensures o.effects == SnapshotEffects(ArtifactName(baseName, 3), scape.View(), true, true, INKSCAPE)
  {
    o := new SimpleOverlay(scape, baseName);
    o.WaitUntil(3);
    o.Snapshot();
    o.Snapshot();
    assert o.count == 3 && o.effects == [];
    o.Snapshot();
  }

  /** A fresh session after three snapshots: indices 1, 2, 3 emitted, no fragment written yet. */
  method ThreeSnapshots(scape: RubyScape, baseName: string) returns (o: SimpleOverlay)
    requires scape.Valid()
    ensures fresh(o) && o.Valid() && o.baseName == baseName
    ensures o.count == 4 && o.latexCount == 1 && o.latexFileCount == 1
    ensures o.emitted == [1, 2, 3] && |o.effects| == 9
  {
    o := new SimpleOverlay(scape, baseName);
    o.Snapshot();
    assert o.emitted == [1] && |o.effects| == 3;
    o.Snapshot();
    assert o.emitted == [1, 2] && |o.effects| == 6;
    o.Snapshot();
  }

  /** Three snapshots and two fragments: the first lists indices 1, 2, 3, the second nothing. */
  method FragmentScenario(scape: RubyScape, baseName: string, title: string) returns (o: SimpleOverlay)
    requires scape.Valid()
    ensures o.Valid() && o.emitted == [1, 2, 3] && |o.effects| == 11
    ensures o.effects[9] == WriteTex(TexName(baseName, 1),
      [Block(title, "", baseName, 1), Block(title, "", baseName, 2), Block(title, "", baseName, 3)])
    ensures o.effects[10] == WriteTex(TexName(baseName, 2), [])
  {
    o := ThreeSnapshots(scape, baseName);
    o.Latex(title);
    o.Latex(title);
  }

  /** No two files a session saves share a path. */
  lemma SavedFilesUnique(o: SimpleOverlay)
    requires o.Valid()
    ensures forall j, k :: 0 <= j < k < |SavedPaths(o.effects)| ==> SavedPaths(o.effects)[j] != SavedPaths(o.effects)[k]
  {
    EmittedNamesUnique(o.baseName, o.emitted);
    forall j, k | 0 <= j < k < |o.emitted|
      ensures ArtifactPaths(o.baseName, o.emitted)[j] != ArtifactPaths(o.baseName, o.emitted)[k]
    {
      SvgPathsDiffer(ArtifactName(o.baseName, o.emitted[j]), ArtifactName(o.baseName, o.emitted[k]));
    }
  }
}
