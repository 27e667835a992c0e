/** Adding entries to the tree, finding them again and reading them back (kernel/src/fs/tmpfs.c,
    kernel/src/fs/vfs.c). */
module FileEntries {
  import opened Common
  import opened FileTree

  /* ---------- where an entry goes ---------- */

  /** The place of the last slash, or -1. */
  function LastSlash(path: string): (r: int)
    ensures -1 <= r < |path| && (r >= 0 ==> path[r] == '/')
    ensures forall i :: r < i < |path| ==> path[i] != '/'
  {
    if path == "" then -1
    else if path[|path| - 1] == '/' then |path| - 1
    else LastSlash(path[..|path| - 1])
  }

  function DirPart(path: string): string {
    if LastSlash(path) < 0 then "" else path[..LastSlash(path)]
  }

  function FilePart(path: string): string {
    path[LastSlash(path) + 1..]
  }

  /** `tmpfs_add_entry` looks its parent up by path and falls back to the root. */
  function ParentOf(fs: Fs, path: string): (p: nat)
    requires |fs| > 0
    ensures p < |fs|
  {
    match FindPath(fs, DirPart(path))
    case Some(p) => if p < |fs| && fs[p].dir then p else ROOT
    case None => ROOT
  }

  /** The tree once `tmpfs_add_entry` has added its entry. */
  function AddEntry(fs: Fs, path: string, dir: bool, data: string): Fs
    requires |fs| > 0
  {
    Insert(fs, ParentOf(fs, path), FilePart(path), dir, data)
  }

  lemma {:induction false} ParentIsDirectory(fs: Fs, path: string)
    requires Tree(fs)
    ensures fs[ParentOf(fs, path)].dir
  {
  }

  lemma {:induction false} AddEntryKeepsTree(fs: Fs, path: string, dir: bool, data: string)
    requires Tree(fs)
    ensures Tree(AddEntry(fs, path, dir, data))
  {
    ParentIsDirectory(fs, path);
    InsertKeepsTree(fs, ParentOf(fs, path), FilePart(path), dir, data);
  }

  /** Old nodes keep their names, kinds and bytes. */
  lemma {:induction false} AddEntryKeepsContents(fs: Fs, path: string, dir: bool, data: string)
    requires |fs| > 0
    ensures var fs1 := AddEntry(fs, path, dir, data);
      && |fs1| == |fs| + 1
      && (forall n :: 0 <= n < |fs| ==> fs1[n].(children := []) == fs[n].(children := []))
      && fs1[|fs|] == Node(FilePart(path), dir, if dir then "" else data, [])
  {
    hide Insert;
    InsertNodes(fs, ParentOf(fs, path), FilePart(path), dir, data);
  }

  lemma {:induction false} ComponentsOfPath(path: string)
    requires |FilePart(path)| <= NAME_MAX
    ensures Components(path) == Components(DirPart(path)) + (if FilePart(path) == "" then [] else [FilePart(path)])
  {
    hide Components;
    var name := FilePart(path);
    assert Components(name) == if name == "" then [] else [name] by {
      NoComponents();
      if name != "" {
        WordIsComponent(name, "");
        assert name + "" == name;
      }
    }
    if LastSlash(path) < 0 {
      assert path == name;
      NoComponents();
    } else {
      assert path == DirPart(path) + "/" + name;
      ComponentsOfJoin(DirPart(path), name);
    }
  }

  /* ---------- the round trip ---------- */

  /** The entry has a name, and the path before it names the root or an existing directory. */
  predicate Placed(fs: Fs, path: string) {
    && FilePart(path) != ""
    && (|| Components(DirPart(path)) == []
        || match FindPath(fs, DirPart(path))
           case Some(p) => p < |fs| && fs[p].dir
           case None => false)
  }

  lemma {:induction false} PlacedParent(fs: Fs, path: string)
    requires Tree(fs) && Placed(fs, path)
    ensures Resolve(fs, ROOT, Components(DirPart(path))) == Some(ParentOf(fs, path))
  {
    if DirPart(path) == "" { NoComponents(); }
  }

  /** The added path finds the new node exactly when the entry has a name and its parent path names a directory. */
  lemma {:induction false} AddThenFind(fs: Fs, path: string, dir: bool, data: string)
    requires Tree(fs) && |FilePart(path)| <= NAME_MAX
    ensures FindPath(AddEntry(fs, path, dir, data), path) == Some(|fs|) <==> Placed(fs, path)
  {
    hide Insert, Tree, Resolve, Components;
    RootFacts(fs);
    var parent, name := ParentOf(fs, path), FilePart(path);
    var up := Components(DirPart(path));
    ComponentsOfPath(path);
    ParentIsDirectory(fs, path);
    ResolveAfterInsert(fs, parent, name, dir, data, ROOT, Components(path));
    BeyondMeans(fs, ROOT, Components(path), parent, name);
    if Placed(fs, path) {
      PlacedParent(fs, path);
      assert Components(path)[..|up|] == up;
      assert LooksUp(fs, ROOT, Components(path), |up|, parent, name);
      assert Components(path)[|up| + 1..] == [];
    } else {
      NotFoundUnlessPlaced(fs, path);
    }
  }

  lemma {:induction false} RootFacts(fs: Fs)
    requires Tree(fs)
    ensures |fs| > 0 && fs[ROOT].dir
  {
  }

  lemma {:induction false} NotFoundUnlessPlaced(fs: Fs, path: string)
    requires Tree(fs) && |FilePart(path)| <= NAME_MAX && !Placed(fs, path)
    ensures Beyond(fs, ROOT, Components(path), ParentOf(fs, path), FilePart(path)) != Some([])
    ensures Resolve(fs, ROOT, Components(path)) != Some(|fs|)
  {
    var parent, name, comps := ParentOf(fs, path), FilePart(path), Components(path);
    var up := Components(DirPart(path));
    ResolveDescends(fs, ROOT, comps);
    ComponentsOfPath(path);
    BeyondMeans(fs, ROOT, comps, parent, name);
    if Beyond(fs, ROOT, comps, parent, name) == Some([]) {
      var n :| 0 <= n < |comps| && LooksUp(fs, ROOT, comps, n, parent, name);
      assert comps[n + 1..] == [];
      assert n == |comps| - 1;
      ComponentsNonEmpty(path);
      assert name != "";
      assert comps[..n] == up;
      ResolveDescends(fs, ROOT, up);
    }
  }

  /** No component is empty. */
  lemma {:induction false} ComponentsNonEmpty(path: string)
    ensures forall i :: 0 <= i < |Components(path)| ==> Components(path)[i] != ""
  {
    PiecesNonEmpty(Split(path));
    CutNonEmpty(NonEmpty(Split(path)));
  }

  lemma {:induction false} PiecesNonEmpty(pieces: seq<string>)
    ensures forall i :: 0 <= i < |NonEmpty(pieces)| ==> NonEmpty(pieces)[i] != ""
  {
    if pieces != [] { PiecesNonEmpty(pieces[1..]); }
  }

  lemma {:induction false} CutNonEmpty(pieces: seq<string>)
    requires forall i :: 0 <= i < |pieces| ==> pieces[i] != ""
    ensures forall i :: 0 <= i < |CutAll(pieces)| ==> CutAll(pieces)[i] != ""
  {
    if pieces != [] { CutNonEmpty(pieces[1..]); }
  }

  /** Every path whose walk does not look the new name up in the new node's parent finds what it found before. */
  lemma {:induction false} AddThenFindOther(fs: Fs, path: string, dir: bool, data: string, other: string)
    requires Tree(fs)
    requires forall n :: 0 <= n < |Components(other)| ==>
      !LooksUp(fs, ROOT, Components(other), n, ParentOf(fs, path), FilePart(path))
    ensures FindPath(AddEntry(fs, path, dir, data), other) == FindPath(fs, other)
  {
    hide Insert, LooksUp, Components;
    RootFacts(fs);
    ParentIsDirectory(fs, path);
    ResolveAfterInsert(fs, ParentOf(fs, path), FilePart(path), dir, data, ROOT, Components(other));
    BeyondMeans(fs, ROOT, Components(other), ParentOf(fs, path), FilePart(path));
  }

  /** An entry whose parent path names nothing, or a file, goes below the root under its final name. */
  lemma {:induction false} FallsBackToRoot(fs: Fs, up: string, name: string, dir: bool, data: string)
    requires Tree(fs) && 1 <= |name| <= 127 && NoSlash(name)
    requires match FindPath(fs, up) case None => true case Some(p) => p < |fs| && !fs[p].dir
    ensures FindPath(AddEntry(fs, up + "/" + name, dir, data), "/" + name) == Some(|fs|)
  {
    hide Components, Tree, Insert, Resolve;
    RootFacts(fs);
    var path := up + "/" + name;
    assert LastSlash(path) == |up| by {
      assert path[|up|] == '/' && path[|up| + 1..] == name;
      assert forall i :: |up| < i < |path| ==> path[i] == name[i - |up| - 1];
    }
    assert DirPart(path) == up && FilePart(path) == name;
    var fs1 := AddEntry(fs, path, dir, data);
    assert ParentOf(fs, path) == ROOT;
    assert fs1 == Insert(fs, ROOT, name, dir, data);
    InsertNodes(fs, ROOT, name, dir, data);
    SlashIgnored("/" + name);
    assert ("/" + name)[1..] == name && name + "" == name;
    WordIsComponent(name, "");
    NoComponents();
    assert Components("/" + name) == [name];
    assert fs1[ROOT].children[0] == |fs|;
    HeadFound(fs1, |fs|, name);
  }

  lemma {:induction false} HeadFound(fs: Fs, head: nat, name: string)
    requires |fs| > 0 && fs[ROOT].dir && fs[ROOT].children != [] && fs[ROOT].children[0] == head
    requires head < |fs| && fs[head].name == name
    ensures Resolve(fs, ROOT, [name]) == Some(head)
  {
  }

  /* ---------- reading ---------- */

  /** `tmpfs_read` for offsets and sizes whose sum does not wrap: the bytes it copies. */
  function ReadSpan(data: string, offset: nat, size: nat): (r: string)
    ensures |r| <= size && forall i :: 0 <= i < |r| ==> offset + i < |data| && r[i] == data[offset + i]
    ensures |r| < size ==> offset + |r| >= |data|
  {
    if offset >= |data| then ""
    else if offset + size > |data| then data[offset..]
    else data[offset..offset + size]
  }

  /** Reads of the given sizes, each starting where the last one ended. */
  function ReadInTurn(data: string, offset: nat, sizes: seq<nat>): string
    decreases sizes
  {
    if sizes == [] then ""
    else
      var got := ReadSpan(data, offset, sizes[0]);
      got + ReadInTurn(data, offset + |got|, sizes[1..])
  }

  function Total(sizes: seq<nat>): nat {
    if sizes == [] then 0 else sizes[0] + Total(sizes[1..])
  }

  /** Where a read of `size` bytes at `offset` ends. */
  function End(data: string, offset: nat, size: nat): nat {
    if offset + size < |data| then offset + size else |data|
  }

  lemma {:induction false} SpanEnds(data: string, offset: nat, size: nat)
    requires offset <= |data|
    ensures offset <= End(data, offset, size) <= |data|
    ensures ReadSpan(data, offset, size) == data[offset..End(data, offset, size)]
  {
  }

  /** Chunked reads of any sizes concatenate to one contiguous piece of the file: nothing lost, repeated or
      reordered. */
  lemma {:induction false} ReadsConcatenate(data: string, offset: nat, sizes: seq<nat>)
    requires offset <= |data|
    ensures offset <= End(data, offset, Total(sizes)) <= |data|
    ensures ReadInTurn(data, offset, sizes) == data[offset..End(data, offset, Total(sizes))]
    decreases sizes
  {
    hide ReadSpan;
    if sizes != [] {
      var mid := End(data, offset, sizes[0]);
      SpanEnds(data, offset, sizes[0]);
      ReadsConcatenate(data, mid, sizes[1..]);
      var end := End(data, mid, Total(sizes[1..]));
      assert end == End(data, offset, Total(sizes));
      assert data[offset..mid] + data[mid..end] == data[offset..end];
    }
  }

  /** Reads in chunks of one positive size until one comes back empty. */
  function ReadAll(data: string, offset: nat, chunk: nat): string
    requires chunk > 0
    decreases if offset < |data| then |data| - offset else 0
  {
    var got := ReadSpan(data, offset, chunk);
    if got == "" then "" else got + ReadAll(data, offset + |got|, chunk)
  }

  lemma {:induction false} ReadAllIsTheFile(data: string, offset: nat, chunk: nat)
    requires chunk > 0 && offset <= |data|
    ensures ReadAll(data, offset, chunk) == data[offset..]
    decreases |data| - offset
  {
    hide ReadSpan;
    var got := ReadSpan(data, offset, chunk);
    SpanEnds(data, offset, chunk);
    if got != "" {
      ReadAllIsTheFile(data, offset + |got|, chunk);
      assert data[offset..] == got + data[offset + |got|..];
    }
  }

  /* ---------- vnodes left open ---------- */

  /** The walk meets a file with components still to look up. */
  function StopsAtFile(fs: Fs, at: nat, components: seq<string>): bool
    decreases components
  {
    components != [] &&
      (|| (at < |fs| && !fs[at].dir)
       || match Step(fs, at, components[0])
          case None => false
          case Some(c) => StopsAtFile(fs, c, components[1..]))
  }

  /** The walk ends at a file too early exactly when a proper prefix of the path names a file. */
  lemma {:induction false} StopsAtFileMeans(fs: Fs, at: nat, components: seq<string>)
    ensures StopsAtFile(fs, at, components) <==>
      exists n :: 0 <= n < |components| && NamesFile(fs, at, components[..n])
    decreases components
  {
    if components != [] {
      assert components[..0] == [];
      if at < |fs| && !fs[at].dir {
        assert NamesFile(fs, at, components[..0]);
      } else {
        forall n | 0 < n < |components|
          ensures components[..n][0] == components[0] && components[..n][1..] == components[1..][..n - 1]
        {
        }
        match Step(fs, at, components[0])
        case None =>
        case Some(c) =>
          StopsAtFileMeans(fs, c, components[1..]);
          if n :| 0 <= n < |components[1..]| && NamesFile(fs, c, components[1..][..n]) {
            assert NamesFile(fs, at, components[..n + 1]);
          }
          if n :| 0 <= n < |components| && NamesFile(fs, at, components[..n]) {
            assert NamesFile(fs, c, components[1..][..n - 1]);
          }
      }
    }
  }

  ghost predicate NamesFile(fs: Fs, at: nat, components: seq<string>) {
    var r := Resolve(fs, at, components);
    r.Some? && r.value < |fs| && !fs[r.value].dir
  }

  /** How many vnodes a lookup leaves open: one for a result other than the root, none for the root or a missing
      component, one when it stops at a file. */
  function LeftOpen(fs: Fs, at: nat, components: seq<string>): nat {
    match Resolve(fs, at, components)
    case Some(n) => if n == ROOT then 0 else 1
    case None => if StopsAtFile(fs, at, components) then 1 else 0
  }

  /** A lookup that finds a node other than the root leaves its vnode open; one that finds nothing leaves a vnode open
      if and only if a proper prefix of the path names a file. */
  lemma {:induction false} LeftOpenMeans(fs: Fs, components: seq<string>)
    ensures var r := Resolve(fs, ROOT, components);
      && LeftOpen(fs, ROOT, components) <= 1
      && (r.Some? ==> (LeftOpen(fs, ROOT, components) == 1 <==> r.value != 0))
      && (r.None? ==> (LeftOpen(fs, ROOT, components) == 1 <==>
            exists n :: 0 <= n < |components| && NamesFile(fs, ROOT, components[..n])))
  {
    hide Resolve, NamesFile;
    StopsAtFileMeans(fs, ROOT, components);
  }

  /* ---------- loading a whole listing ---------- */

  /** One call of `tmpfs_add_entry`. */
  datatype Call = Call(path: string, dir: bool, data: string)

  function AddAll(fs: Fs, calls: seq<Call>): (r: Fs)
    requires |fs| > 0
    ensures |r| == |fs| + |calls|
  {
    if calls == [] then fs
    else
      var last := calls[|calls| - 1];
      AddEntry(AddAll(fs, calls[..|calls| - 1]), last.path, last.dir, last.data)
  }

  lemma {:induction false} AddAllAppend(fs: Fs, a: seq<Call>, b: seq<Call>)
    requires |fs| > 0
    ensures AddAll(fs, a + b) == AddAll(AddAll(fs, a), b)
    decreases |b|
  {
    if b == [] {
      assert a + b == a;
    } else {
      assert (a + b)[..|a + b| - 1] == a + b[..|b| - 1];
      AddAllAppend(fs, a, b[..|b| - 1]);
    }
  }

  /** The sizes of file data that can be stored. None is allocated for an empty file; for 1001..1024 bytes `kmalloc` has
      neither a slab class nor pages, and the copy that follows writes through NULL. */
  predicate Storable(size: nat) {
    size <= 1000 || size > 1024
  }

  predicate Stored(c: Call) {
    c.dir || Storable(|c.data|)
  }

  /** The first call whose data cannot be stored; the number of calls when there is none. */
  function FirstFault(calls: seq<Call>): (k: nat)
    ensures k <= |calls| && (k < |calls| ==> !Stored(calls[k]))
    ensures forall i :: 0 <= i < k ==> Stored(calls[i])
  {
    if calls == [] || !Stored(calls[0]) then 0 else 1 + FirstFault(calls[1..])
  }

  /** What gets loaded: the entries before the first one that faults, since the kernel halts there. */
  function LoadAll(fs: Fs, calls: seq<Call>): Fs
    requires |fs| > 0
  {
    AddAll(fs, calls[..FirstFault(calls)])
  }

  /** The tree after `tmpfs_init`. */
  const EMPTY_FS: Fs := [Node("/", true, "", [])]

  lemma {:induction false} EmptyTree()
    ensures Tree(EMPTY_FS)
  {
  }

  /** The entry's parent is the root or a directory listed before it. */
  ghost predicate ParentListed(calls: seq<Call>, i: nat)
    requires i < |calls|
  {
    var up := Components(DirPart(calls[i].path));
    up == [] || exists j :: 0 <= j < i && calls[j].dir && Components(calls[j].path) == up
  }

  /** What archiving a directory tree gives: every entry has a name, directories come before what they hold, and no
      entry is listed twice. */
  ghost predicate Listing(calls: seq<Call>) {
    && (forall i :: 0 <= i < |calls| ==> 1 <= |FilePart(calls[i].path)| <= NAME_MAX && ParentListed(calls, i))
    && (forall i, j :: 0 <= i < j < |calls| ==> Components(calls[i].path) != Components(calls[j].path))
  }

  lemma {:induction false} AddAllKeepsTree(fs: Fs, calls: seq<Call>)
    requires Tree(fs)
    ensures Tree(AddAll(fs, calls))
  {
    if calls != [] {
      var last := calls[|calls| - 1];
      AddAllKeepsTree(fs, calls[..|calls| - 1]);
      AddEntryKeepsTree(AddAll(fs, calls[..|calls| - 1]), last.path, last.dir, last.data);
    }
  }

  lemma {:induction false} ListingPrefix(calls: seq<Call>)
    requires Listing(calls) && calls != []
    ensures Listing(calls[..|calls| - 1])
  {
    hide Components, DirPart, FilePart;
    var init := calls[..|calls| - 1];
    forall i | 0 <= i < |init|
      ensures 1 <= |FilePart(init[i].path)| <= NAME_MAX && ParentListed(init, i)
    {
      assert ParentListed(calls, i);
      var up := Components(DirPart(calls[i].path));
      if up != [] {
        var j :| 0 <= j < i && calls[j].dir && Components(calls[j].path) == up;
        assert init[j] == calls[j];
      }
    }
  }

  lemma {:induction false} ListedEntry(calls: seq<Call>, i: nat)
    requires Listing(calls) && i < |calls|
    ensures calls[i].path != "" && 1 <= |FilePart(calls[i].path)| <= NAME_MAX && ParentListed(calls, i)
  {
    assert 1 <= |FilePart(calls[i].path)|;
  }

  /** Every nonempty prefix of a listed path is itself listed. */
  lemma {:induction false} PrefixListed(calls: seq<Call>, i: nat, n: nat) returns (m: nat)
    requires Listing(calls) && i < |calls| && 0 < n <= |Components(calls[i].path)|
    ensures m <= i && Components(calls[m].path) == Components(calls[i].path)[..n]
    decreases i
  {
    hide Components, Listing, FilePart, DirPart;
    ListedEntry(calls, i);
    var comps := Components(calls[i].path);
    ComponentsOfPath(calls[i].path);
    if n == |comps| {
      m := i;
      assert comps[..n] == comps;
    } else {
      var up := Components(DirPart(calls[i].path));
      assert |up| >= n;
      var j :| 0 <= j < i && calls[j].dir && Components(calls[j].path) == up;
      m := PrefixListed(calls, j, n);
      assert comps[..n] == up[..n];
    }
  }

  /** Node i + 1 is entry i: found by its path, with its kind and bytes. */
  ghost predicate Loaded(fs: Fs, calls: seq<Call>, i: nat)
    requires i < |calls| && i + 1 < |fs|
  {
    var e := calls[i];
    && Resolve(fs, ROOT, Components(e.path)) == Some(i + 1)
    && fs[i + 1].dir == e.dir
    && fs[i + 1].data == if e.dir then "" else e.data
  }

  /** Adding a listing to an empty tree: every entry is found by its own path with its own contents. */
  lemma {:induction false} ListingAdds(calls: seq<Call>, i: nat)
    requires Listing(calls) && i < |calls|
    ensures Loaded(AddAll(EMPTY_FS, calls), calls, i)
    decreases |calls|
  {
    hide Insert, Components, Tree, AddEntry, Listing, FilePart, DirPart, Resolve, FindChild, Placed;
    var init, last := calls[..|calls| - 1], calls[|calls| - 1];
    var fs := AddAll(EMPTY_FS, init);
    EmptyTree();
    AddAllKeepsTree(EMPTY_FS, init);
    ListingPrefix(calls);
    forall j | 0 <= j < |init|
      ensures Loaded(fs, init, j)
    {
      ListingAdds(init, j);
    }
    LastPlaced(calls, init, fs);
    ListingStep(calls, init, fs, i);
  }

  lemma {:induction false} ListingStep(calls: seq<Call>, init: seq<Call>, fs: Fs, i: nat)
    requires Listing(calls) && i < |calls| && init == calls[..|calls| - 1] && |fs| == |calls| && Tree(fs)
    requires i < |init| ==> Loaded(fs, init, i)
    requires Placed(fs, calls[|calls| - 1].path)
    ensures var last := calls[|calls| - 1];
      var fs1 := AddEntry(fs, last.path, last.dir, last.data);
      |fs1| == 1 + |calls| && Loaded(fs1, calls, i)
  {
    hide Insert, Components, Tree, AddEntry, Listing, FilePart, DirPart, Resolve, FindChild, Placed;
    var last := calls[|calls| - 1];
    AddEntryKeepsContents(fs, last.path, last.dir, last.data);
    ListedEntry(calls, i);
    if i == |init| {
      AddThenFind(fs, last.path, last.dir, last.data);
    } else {
      EarlierNotHidden(calls, fs, i);
      AddThenFindOther(fs, last.path, last.dir, last.data, calls[i].path);
      assert fs[i + 1].(children := []).data == fs[i + 1].data;
    }
  }

  lemma {:induction false} LastPlaced(calls: seq<Call>, init: seq<Call>, fs: Fs)
    requires Listing(calls) && calls != [] && init == calls[..|calls| - 1] && |fs| == |calls|
    requires forall j :: 0 <= j < |init| ==> Loaded(fs, init, j)
    ensures Placed(fs, calls[|calls| - 1].path) && |FilePart(calls[|calls| - 1].path)| <= NAME_MAX
  {
    hide Components, Listing, FilePart, DirPart;
    var k := |calls| - 1;
    var up := Components(DirPart(calls[k].path));
    ListedEntry(calls, k);
    if up != [] {
      var j :| 0 <= j < k && calls[j].dir && Components(calls[j].path) == up;
      assert Loaded(fs, init, j);
      if DirPart(calls[k].path) == "" { NoComponents(); }
    }
  }

  /** Were an earlier walk to look the last entry's name up in its parent, the last entry's path would be a prefix of
      the earlier one and so be listed already. */
  lemma {:induction false} EarlierNotHidden(calls: seq<Call>, fs: Fs, i: nat)
    requires Listing(calls) && i < |calls| - 1 && Tree(fs) && |fs| == |calls|
    requires Placed(fs, calls[|calls| - 1].path)
    ensures var last := calls[|calls| - 1].path;
      forall n :: 0 <= n < |Components(calls[i].path)| ==>
        !LooksUp(fs, ROOT, Components(calls[i].path), n, ParentOf(fs, last), FilePart(last))
  {
    hide Components, Tree, Placed, Resolve, ParentOf, FilePart, DirPart;
    var k := |calls| - 1;
    var last, comps := calls[k].path, Components(calls[i].path);
    var up := Components(DirPart(last));
    PlacedParent(fs, last);
    ListedEntry(calls, k);
    ComponentsOfPath(last);
    forall n | 0 <= n < |comps| && LooksUp(fs, ROOT, comps, n, ParentOf(fs, last), FilePart(last))
      ensures false
    {
      ResolveInjective(fs, comps[..n], up);
      assert comps[..n + 1] == up + [FilePart(last)];
      var m := PrefixListed(calls, i, n + 1);
    }
  }

  /** Nothing else is found: a path that does not name the root names an added entry. */
  lemma {:induction false} NothingElseAdded(calls: seq<Call>, path: string)
    requires Listing(calls)
    ensures var r := FindPath(AddAll(EMPTY_FS, calls), path);
      r.Some? && r.value != ROOT ==>
        0 < r.value <= |calls| && Components(path) == Components(calls[r.value - 1].path)
  {
    hide Insert, Components, Tree, AddEntry, Listing, Resolve;
    var fs := AddAll(EMPTY_FS, calls);
    EmptyTree();
    AddAllKeepsTree(EMPTY_FS, calls);
    var r := FindPath(fs, path);
    if r.Some? && r.value != ROOT {
      ResolveDescends(fs, ROOT, Components(path));
      ListingAdds(calls, r.value - 1);
      ResolveInjective(fs, Components(path), Components(calls[r.value - 1].path));
    }
  }

  lemma {:induction false} ListingTake(calls: seq<Call>, k: nat)
    requires Listing(calls) && k <= |calls|
    ensures Listing(calls[..k])
    decreases |calls|
  {
    hide Listing;
    if k < |calls| {
      ListingPrefix(calls);
      assert calls[..|calls| - 1][..k] == calls[..k];
      ListingTake(calls[..|calls| - 1], k);
    } else {
      assert calls[..k] == calls;
    }
  }

  lemma {:induction false} ListedApart(calls: seq<Call>, i: nat, j: nat)
    requires Listing(calls) && i < j < |calls|
    ensures Components(calls[i].path) != Components(calls[j].path)
  {
  }

  /** Loading a listing into an empty tree: an entry is found by its own path, with its own contents, if and only if no
      file at or before it has data that cannot be stored; the others are not found at all. */
  lemma {:induction false} ListingLoads(calls: seq<Call>, i: nat)
    requires Listing(calls) && i < |calls|
    ensures var fs, k := LoadAll(EMPTY_FS, calls), FirstFault(calls);
      && |fs| == 1 + k
      && FindPath(fs, calls[i].path) == (if i < k then Some(i + 1) else None)
      && (i < k ==> Loaded(fs, calls, i))
  {
    hide Insert, Components, Tree, AddEntry, Listing, Resolve, FilePart, DirPart;
    var k := FirstFault(calls);
    var some := calls[..k];
    ListingTake(calls, k);
    ListedEntry(calls, i);
    if i < k {
      ListingAdds(some, i);
      assert some[i] == calls[i];
    } else {
      NothingElseAdded(some, calls[i].path);
      EmptyTree();
      AddAllKeepsTree(EMPTY_FS, some);
      NamesNotRoot(AddAll(EMPTY_FS, some), calls[i].path);
      var r := FindPath(AddAll(EMPTY_FS, some), calls[i].path);
      if r.Some? && r.value != ROOT {
        ListedApart(calls, r.value - 1, i);
      }
    }
  }

  /** A path with a final name does not find the root. */
  lemma {:induction false} NamesNotRoot(fs: Fs, path: string)
    requires Tree(fs) && 1 <= |FilePart(path)| <= NAME_MAX
    ensures FindPath(fs, path) != Some(ROOT)
  {
    hide Tree, Components, FilePart, DirPart;
    RootFacts(fs);
    ComponentsOfPath(path);
    ResolveDescends(fs, ROOT, Components(path));
  }

  /** Nothing else is found: a path that does not name the root names a listed entry before the first fault. */
  lemma {:induction false} NothingElseLoaded(calls: seq<Call>, path: string)
    requires Listing(calls)
    ensures var r := FindPath(LoadAll(EMPTY_FS, calls), path);
      r.Some? && r.value != ROOT ==>
        0 < r.value <= FirstFault(calls) && Components(path) == Components(calls[r.value - 1].path)
  {
    hide Components, AddEntry, Listing, Resolve;
    ListingTake(calls, FirstFault(calls));
    NothingElseAdded(calls[..FirstFault(calls)], path);
  }
}
