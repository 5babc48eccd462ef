/** The build step that names the critical chunks and their static imports for preloading. */
module PreloadChunks {
  import opened Texts

  datatype Output = Chunk(fileName: Text, isEntry: bool, modules: seq<Text>, imports: seq<Text>) | Asset

  /** An object: its keys in the order `Object.values` goes through them, and what each names. */
  datatype Listing = Listing(order: seq<Text>, outputs: map<Text, Output>)

  type Bundle = b: Listing | NoDuplicates(b.order) && (forall k :: k in b.order <==> k in b.outputs)
    witness Listing([], map[])

  const CRITICAL_MODULES: seq<Text> := [
    Ascii("src/providers/Web3Providers.tsx"),
    Ascii("src/components/layout/AppShell.tsx"),
    Ascii("src/services/chain/chainService.ts")
  ]

  predicate EndsWith(t: Text, suffix: Text) {
    |suffix| <= |t| && t[|t| - |suffix|..] == suffix
  }

  predicate IsCritical(chunk: Output)
    requires chunk.Chunk?
  {
    exists i | 0 <= i < |chunk.modules| ::
      exists k | 0 <= k < |CRITICAL_MODULES| :: EndsWith(chunk.modules[i], CRITICAL_MODULES[k])
  }

  /** The file names of the chunks that hold a critical module, in bundle order. */
  function Roots(order: seq<Text>, outputs: map<Text, Output>): (r: seq<Text>) {
    if order == [] then []
    else
      var rest := Roots(order[1..], outputs);
      if order[0] in outputs && outputs[order[0]].Chunk? && IsCritical(outputs[order[0]])
      then [outputs[order[0]].fileName] + rest
      else rest
  }

  /** The path ends in the suffix. */
  ghost predicate HasSuffix(t: Text, suffix: Text) {
    exists before :: t == before + suffix
  }

  /** One of the chunk's modules is the wallet providers, the page shell or the chain service. */
  ghost predicate HoldsCritical(modules: seq<Text>) {
    exists i | 0 <= i < |modules| ::
      || HasSuffix(modules[i], Ascii("src/providers/Web3Providers.tsx"))
      || HasSuffix(modules[i], Ascii("src/components/layout/AppShell.tsx"))
      || HasSuffix(modules[i], Ascii("src/services/chain/chainService.ts"))
  }

  lemma EndsWithIff(t: Text, suffix: Text)
    ensures EndsWith(t, suffix) <==> HasSuffix(t, suffix)
  {
    if EndsWith(t, suffix) {
      assert t == t[..|t| - |suffix|] + suffix;
    }
    if HasSuffix(t, suffix) {
      var before :| t == before + suffix;
      Rest(before, suffix);
    }
  }

  lemma IsCriticalIff(chunk: Output)
    requires chunk.Chunk?
    ensures IsCritical(chunk) <==> HoldsCritical(chunk.modules)
  {
    hide EndsWith, HasSuffix;
    forall i | 0 <= i < |chunk.modules|
      ensures (exists k | 0 <= k < |CRITICAL_MODULES| :: EndsWith(chunk.modules[i], CRITICAL_MODULES[k])) <==>
        || HasSuffix(chunk.modules[i], Ascii("src/providers/Web3Providers.tsx"))
        || HasSuffix(chunk.modules[i], Ascii("src/components/layout/AppShell.tsx"))
        || HasSuffix(chunk.modules[i], Ascii("src/services/chain/chainService.ts"))
    {
      CriticalModule(chunk.modules[i]);
    }
  }

  lemma CriticalModule(id: Text)
    ensures (exists k | 0 <= k < |CRITICAL_MODULES| :: EndsWith(id, CRITICAL_MODULES[k])) <==>
      || HasSuffix(id, Ascii("src/providers/Web3Providers.tsx"))
      || HasSuffix(id, Ascii("src/components/layout/AppShell.tsx"))
      || HasSuffix(id, Ascii("src/services/chain/chainService.ts"))
  {
    hide EndsWith, HasSuffix;
    EndsWithIff(id, CRITICAL_MODULES[0]);
    EndsWithIff(id, CRITICAL_MODULES[1]);
    EndsWithIff(id, CRITICAL_MODULES[2]);
    assert |CRITICAL_MODULES| == 3;
  }

  /** The file of a chunk, anywhere in the bundle, that holds a critical module. */
  ghost predicate IsRoot(outputs: map<Text, Output>, file: Text) {
    exists key | key in outputs ::
      outputs[key].Chunk? && HoldsCritical(outputs[key].modules) && outputs[key].fileName == file
  }

  lemma {:induction false} RootsHas(order: seq<Text>, outputs: map<Text, Output>, file: Text)
    ensures file in Roots(order, outputs) <==>
      exists key | key in order && key in outputs ::
        outputs[key].Chunk? && IsCritical(outputs[key]) && outputs[key].fileName == file
  {
    if order != [] {
      RootsHas(order[1..], outputs, file);
      Uncons(order);
    }
  }

  /** The roots are the files of the critical chunks, whatever the order of the bundle. */
  lemma RootsAre(bundle: Bundle, file: Text)
    ensures file in Roots(bundle.order, bundle.outputs) <==> IsRoot(bundle.outputs, file)
  {
    hide HoldsCritical, IsCritical;
    RootsHas(bundle.order, bundle.outputs, file);
    forall key | key in bundle.outputs && bundle.outputs[key].Chunk?
      ensures IsCritical(bundle.outputs[key]) <==> HoldsCritical(bundle.outputs[key].modules)
    {
      IsCriticalIff(bundle.outputs[key]);
    }
  }

  /** The files `visit` may add: chunks that are not entries. */
  predicate Visitable(outputs: map<Text, Output>, file: Text) {
    file in outputs && outputs[file].Chunk? && !outputs[file].isEntry
  }

  /** A walk along static imports that never leaves the visitable files. */
  ghost predicate IsWalk(outputs: map<Text, Output>, walk: seq<Text>) {
    && walk != []
    && (forall i | 0 <= i < |walk| ::
          walk[i] in outputs && outputs[walk[i]].Chunk? && !outputs[walk[i]].isEntry)
    && forall i | 0 < i < |walk| :: walk[i] in outputs[walk[i - 1]].imports
  }

  ghost predicate WalkTo(outputs: map<Text, Output>, walk: seq<Text>, source: Text, file: Text) {
    IsWalk(outputs, walk) && walk[0] == source && walk[|walk| - 1] == file
  }

  ghost predicate Reaches(outputs: map<Text, Output>, source: Text, file: Text) {
    exists walk :: WalkTo(outputs, walk, source, file)
  }

  lemma ReachesItself(outputs: map<Text, Output>, file: Text)
    requires Visitable(outputs, file)
    ensures Reaches(outputs, file, file)
  {
    assert WalkTo(outputs, [file], file, file);
  }

  lemma ReachesThroughImport(outputs: map<Text, Output>, source: Text, next: Text, file: Text)
    requires Visitable(outputs, source) && next in outputs[source].imports && Reaches(outputs, next, file)
    ensures Reaches(outputs, source, file)
  {
    var walk :| WalkTo(outputs, walk, next, file);
    assert WalkTo(outputs, [source] + walk, source, file);
  }

  /** Every visitable import of `file` is among `files`. */
  ghost predicate Closed(outputs: map<Text, Output>, files: seq<Text>, file: Text)
    requires Visitable(outputs, file)
  {
    forall next | next in outputs[file].imports && Visitable(outputs, next) :: next in files
  }

  /** A walk that starts in a closed set of files ends in it. */
  lemma {:induction false} ClosedHoldsWalks(outputs: map<Text, Output>, files: seq<Text>, walk: seq<Text>)
    requires forall f | f in files :: Visitable(outputs, f) && Closed(outputs, files, f)
    requires IsWalk(outputs, walk) && walk[0] in files
    ensures walk[|walk| - 1] in files
  {
    if |walk| > 1 {
      var tail := walk[1..];
      assert forall i | 0 <= i < |tail| :: tail[i] == walk[i + 1];
      ClosedHoldsWalks(outputs, files, tail);
    }
  }

  /** The visited set, in insertion order, shared by every call of `visit`. */
  class Preloader {
    const outputs: map<Text, Output>
    var files: seq<Text>

    constructor (outputs: map<Text, Output>)
      ensures this.outputs == outputs && files == []
    {
      this.outputs := outputs;
      files := [];
    }

    ghost predicate Valid()
      reads this
    {
      NoDuplicates(files) && forall f | f in files :: Visitable(outputs, f)
    }

    /** The bundle keys still to visit, which every added file shrinks. */
    ghost function Unvisited(): set<Text>
      reads this
    {
      set f | f in outputs.Keys && f !in files
    }

    /**
     * Adds `file` and what it reaches. Files being visited further up the call stack are the only
     * ones that may still lack imports, so closure is promised for the files this call added.
     */
    method Visit(file: Text)
      requires Valid()
      modifies this
      ensures Valid()
      ensures old(files) <= files
      ensures Visitable(outputs, file) ==> file in files
      ensures forall f | f in files && f !in old(files) :: Reaches(outputs, file, f)
      ensures forall f | f in files && f !in old(files) :: Closed(outputs, files, f)
      decreases Unvisited()
    {
      if file in files || !Visitable(outputs, file) {
        return;
      }
      ghost var before, unvisited := files, Unvisited();
      files := files + [file];
      ReachesItself(outputs, file);
      var imports := outputs[file].imports;
      for k := 0 to |imports|
        invariant Valid() && before <= files && file in files
        invariant forall i | 0 <= i < k :: Visitable(outputs, imports[i]) ==> imports[i] in files
        invariant forall f | f in files && f !in before :: Reaches(outputs, file, f)
        invariant forall f | f in files && f !in before && f != file :: Closed(outputs, files, f)
      {
        ghost var sofar := files;
        assert Unvisited() <= unvisited && file in unvisited && file !in Unvisited();
        Visit(imports[k]);
        forall f | f in files && f !in sofar
          ensures Reaches(outputs, file, f)
        {
          ReachesThroughImport(outputs, file, imports[k], f);
        }
      }
    }
  }

  /** The preloaded files: exactly those that a critical chunk reaches, each listed once. */
  ghost predicate IsPreloadList(outputs: map<Text, Output>, files: seq<Text>) {
    && NoDuplicates(files)
    && forall f :: f in files <==> exists r | IsRoot(outputs, r) :: Reaches(outputs, r, f)
  }

  method PreloadFiles(bundle: Option<Bundle>) returns (files: seq<Text>)
    ensures bundle.None? ==> files == []
    ensures bundle.Some? ==> IsPreloadList(bundle.value.outputs, files)
  {
    if bundle.None? {
      return [];
    }
    var outputs := bundle.value.outputs;
    var roots := Roots(bundle.value.order, outputs);
    var preloader := new Preloader(outputs);
    for k := 0 to |roots|
      invariant preloader.outputs == outputs && preloader.Valid() && fresh(preloader)
      invariant forall i | 0 <= i < k :: Visitable(outputs, roots[i]) ==> roots[i] in preloader.files
      invariant forall f | f in preloader.files :: Closed(outputs, preloader.files, f)
      invariant forall f | f in preloader.files :: exists r | r in roots :: Reaches(outputs, r, f)
    {
      preloader.Visit(roots[k]);
    }
    files := preloader.files;
    forall r
      ensures r in roots <==> IsRoot(outputs, r)
    {
      RootsAre(bundle.value, r);
    }
    forall r, f | r in roots && Reaches(outputs, r, f)
      ensures f in files
    {
      var walk :| WalkTo(outputs, walk, r, f);
      ClosedHoldsWalks(outputs, files, walk);
    }
  }
}
