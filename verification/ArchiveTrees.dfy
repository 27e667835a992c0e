/** Archives of directory trees: each file and directory, named from the root, is found after `initrd_init`
    (kernel/src/fs/initrd.c, and GNUmakefile, which makes the archive with `tar`). */
module ArchiveTrees {
  import opened Common
  import opened CStrings
  import opened FileTree
  import opened FileEntries
  import opened Ustar

  /** A file or directory: the names on the way to it from the root, its own name last. */
  datatype Item = Item(names: seq<string>, dir: bool, data: string)

  /** The names with slashes between them. */
  function PathOf(names: seq<string>): string
    requires names != []
  {
    var last := |names| - 1;
    if last == 0 then names[0] else PathOf(names[..last]) + "/" + names[last]
  }

  predicate GoodName(name: string) {
    1 <= |name| <= 127 && forall i :: 0 <= i < |name| ==> name[i] != '/'
  }

  ghost predicate Within(items: seq<Item>, i: nat)
    requires i < |items| && items[i].names != []
  {
    var up := items[i].names[..|items[i].names| - 1];
    up == [] || exists j :: 0 <= j < i && items[j].dir && items[j].names == up
  }

  /** The items of a directory tree, each directory before what it holds. */
  ghost predicate IsTree(items: seq<Item>) {
    && (forall i :: 0 <= i < |items| ==> items[i].names != [] && Within(items, i))
    && (forall i, k :: 0 <= i < |items| && 0 <= k < |items[i].names| ==> GoodName(items[i].names[k]))
    && (forall i, j :: 0 <= i < j < |items| ==> items[i].names != items[j].names)
  }

  /** The member `tar` writes for an item. */
  predicate MemberFor(e: Entry, item: Item) {
    && item.names != []
    && e.name == (if item.dir then "./" + PathOf(item.names) + "/" else "./" + PathOf(item.names))
    && (e.kind == '5' <==> item.dir)
    && (!item.dir ==> e.data == item.data)
  }

  /** The members of an archive: some for the root itself, then one for each item. */
  predicate Archived(entries: seq<Entry>, items: seq<Item>, roots: nat) {
    && |entries| == roots + |items|
    && (forall k :: 0 <= k < roots ==> entries[k].name == "./")
    && (forall k :: 0 <= k < |items| ==> MemberFor(entries[roots + k], items[k]))
  }

  /* ---------- paths ---------- */

  lemma {:induction false} PathParts(names: seq<string>)
    requires names != [] && forall k :: 0 <= k < |names| ==> GoodName(names[k])
    ensures var path, last := PathOf(names), |names| - 1;
      && path != "" && path[|path| - 1] != '/'
      && Components(path) == names && FilePart(path) == names[last] && Components(DirPart(path)) == names[..last]
    decreases |names|
  {
    hide Components, FilePart, DirPart, GoodName;
    var last := |names| - 1;
    var name := names[last];
    assert GoodName(name);
    LastName(name);
    if last == 0 {
      assert names == [name];
    } else {
      PathParts(names[..last]);
      JoinedPath(PathOf(names[..last]), name);
      assert names == names[..last] + [name];
    }
  }

  /** A good name is a path of its own. */
  lemma {:induction false} LastName(name: string)
    requires GoodName(name)
    ensures name != "" && name[|name| - 1] != '/'
    ensures Components(name) == [name] && FilePart(name) == name && Components(DirPart(name)) == []
  {
    hide Components;
    GoodHasNoSlash(name);
    NoComponents();
    WordIsComponent(name, "");
    assert name + "" == name;
    SlashAt(name, -1);
    assert name[0..] == name;
  }

  lemma {:induction false} JoinedPath(up: string, name: string)
    requires GoodName(name) && Components(name) == [name]
    ensures var path := up + "/" + name;
      && path[|path| - 1] != '/' && FilePart(path) == name && DirPart(path) == up
      && Components(path) == Components(up) + [name]
  {
    hide Components;
    var path := up + "/" + name;
    assert path[|path| - 1] == name[|name| - 1];
    forall i | |up| < i < |path|
      ensures path[i] != '/'
    {
      assert path[i] == name[i - |up| - 1];
    }
    SlashAt(path, |up|);
    assert path[..|up|] == up && path[|up| + 1..] == name;
    GoodHasNoSlash(name);
    ComponentsOfJoin(up, name);
  }

  lemma {:induction false} GoodHasNoSlash(name: string)
    requires GoodName(name)
    ensures NoSlash(name)
  {
  }

  lemma {:induction false} SlashAt(path: string, at: int)
    requires -1 <= at < |path| && (at >= 0 ==> path[at] == '/')
    requires forall i :: at < i < |path| ==> path[i] != '/'
    ensures LastSlash(path) == at
  {
    var r := LastSlash(path);
    assert r >= 0 ==> path[r] == '/';
  }

  /* ---------- calls ---------- */

  function CallOf(item: Item): Call
    requires item.names != []
  {
    Call(PathOf(item.names), item.dir, if item.dir then "" else item.data)
  }

  function CallsOf(items: seq<Item>): (calls: seq<Call>)
    requires forall i :: 0 <= i < |items| ==> items[i].names != []
    ensures |calls| == |items| && forall i :: 0 <= i < |items| ==> calls[i] == CallOf(items[i])
  {
    seq(|items|, i requires 0 <= i < |items| => CallOf(items[i]))
  }

  lemma {:induction false} MemberCall(e: Entry, item: Item)
    requires MemberFor(e, item) && forall k :: 0 <= k < |item.names| ==> GoodName(item.names[k])
    ensures CallFor(e.name, e.kind, e.data) == [CallOf(item)]
  {
    hide CallFor, Components, FilePart, DirPart;
    var path := PathOf(item.names);
    PathParts(item.names);
    DottedName(path, e.kind, e.data);
    DottedName(path + "/", e.kind, e.data);
    assert "./" + (path + "/") == "./" + path + "/";
    assert (path + "/")[..|path|] == path;
  }

  lemma {:induction false} ArchivedCalls(entries: seq<Entry>, items: seq<Item>, roots: nat)
    requires Archived(entries, items, roots) && IsTree(items)
    ensures Calls(entries) == CallsOf(items)
    decreases roots
  {
    hide CallFor, IsTree, MemberFor;
    if roots > 0 {
      DottedName("x", entries[0].kind, entries[0].data);
      forall k | 0 <= k < |items|
        ensures MemberFor(entries[1..][roots - 1 + k], items[k])
      {
        assert entries[1..][roots - 1 + k] == entries[roots + k];
      }
      ArchivedCalls(entries[1..], items, roots - 1);
    } else {
      ItemCalls(entries, items, 0);
      assert entries[0..] == entries;
    }
  }

  lemma {:induction false} ItemCalls(entries: seq<Entry>, items: seq<Item>, i: nat)
    requires Archived(entries, items, 0) && IsTree(items) && i <= |items|
    ensures Calls(entries[i..]) == CallsOf(items)[i..]
    decreases |items| - i
  {
    hide CallFor, IsTree, MemberFor, CallOf;
    if i < |items| {
      ItemNames(items, i);
      assert MemberFor(entries[0 + i], items[i]);
      MemberCall(entries[i], items[i]);
      assert entries[i..][1..] == entries[i + 1..];
      ItemCalls(entries, items, i + 1);
    }
  }

  lemma {:induction false} ItemNames(items: seq<Item>, i: nat)
    requires IsTree(items) && i < |items|
    ensures items[i].names != [] && forall k :: 0 <= k < |items[i].names| ==> GoodName(items[i].names[k])
    ensures Within(items, i)
  {
  }

  lemma {:induction false} AllNamed(items: seq<Item>)
    requires IsTree(items)
    ensures forall i :: 0 <= i < |items| ==> items[i].names != []
  {
  }

  lemma {:induction false} TreeLists(items: seq<Item>)
    requires IsTree(items)
    ensures Listing(CallsOf(items))
  {
    hide IsTree, Components, FilePart, DirPart, GoodName;
    AllNamed(items);
    var calls := CallsOf(items);
    forall i | 0 <= i < |calls|
      ensures 1 <= |FilePart(calls[i].path)| <= NAME_MAX && ParentListed(calls, i)
    {
      ItemListed(items, i);
    }
    forall i, j | 0 <= i < j < |calls|
      ensures Components(calls[i].path) != Components(calls[j].path)
    {
      ItemNames(items, i);
      ItemNames(items, j);
      PathParts(items[i].names);
      PathParts(items[j].names);
      ItemsApart(items, i, j);
    }
  }

  lemma {:induction false} ItemsApart(items: seq<Item>, i: nat, j: nat)
    requires IsTree(items) && i < j < |items|
    ensures items[i].names != items[j].names
  {
  }

  lemma {:induction false} ItemListed(items: seq<Item>, i: nat)
    requires IsTree(items) && i < |items|
    ensures var calls := CallsOf(items); 1 <= |FilePart(calls[i].path)| <= NAME_MAX && ParentListed(calls, i)
  {
    hide IsTree, Components, FilePart, DirPart;
    AllNamed(items);
    var calls := CallsOf(items);
    ItemNames(items, i);
    PathParts(items[i].names);
    var up := items[i].names[..|items[i].names| - 1];
    if up != [] {
      var j :| 0 <= j < i && items[j].dir && items[j].names == up;
      ItemNames(items, j);
      PathParts(up);
      assert calls[j].dir && Components(calls[j].path) == up;
    }
  }

  /* ---------- the archive loads ---------- */

  /** An archive of a directory tree, walked into an empty tree: the path of an item from the root finds it, with its
      name, its kind and its bytes, if and only if no file at or before it has 1001 to 1024 bytes; otherwise the path
      finds nothing. The loader ends without a fault if and only if there is no such file in the archive. */
  lemma {:induction false} ArchiveLoads(items: seq<Item>, entries: seq<Entry>, roots: nat, tail: string, i: nat)
    requires IsTree(items) && Archived(entries, items, roots) && i < |items|
    requires (forall e :: e in entries ==> WellFormed(e)) && NoEntry(tail) && |Encode(entries) + tail| + 1023 < WORD
    ensures var walk := Walk(Encode(entries) + tail, 0);
      && walk.Ended?
      && (walk.fault <==> exists j :: 0 <= j < |items| && !items[j].dir && 1000 < |items[j].data| <= 1024)
      && var fs, path := AddAll(EMPTY_FS, walk.calls), "/" + PathOf(items[i].names);
      && (FindPath(fs, path) == None <==> exists j :: 0 <= j <= i && !items[j].dir && 1000 < |items[j].data| <= 1024)
      && (FindPath(fs, path) != None ==>
            && FindPath(fs, path) == Some(i + 1) && i + 1 < |fs|
            && fs[i + 1].name == items[i].names[|items[i].names| - 1]
            && fs[i + 1].dir == items[i].dir
            && fs[i + 1].data == if items[i].dir then "" else items[i].data)
  {
    hide IsTree, Archived, Encode, Walk, Calls, Listing, WellFormed, NoEntry, Components, FilePart, DirPart, AddAll;
    hide Resolve, PathOf, GoodName;
    AllNamed(items);
    ArchivedCalls(entries, items, roots);
    TreeLists(items);
    ListingArchiveLoads(entries, tail, i);
    ItemNames(items, i);
    PathParts(items[i].names);
    var walk, path := Walk(Encode(entries) + tail, 0), PathOf(items[i].names);
    var fs := AddAll(EMPTY_FS, walk.calls);
    FromRoot(fs, path);
    if FindPath(fs, path) != None {
      ResolvedName(fs, ROOT, items[i].names);
    }
  }

  /** A path that starts at the root finds what the path without the slash finds. */
  lemma {:induction false} FromRoot(fs: Fs, path: string)
    requires path != ""
    ensures FindPath(fs, "/" + path) == FindPath(fs, path)
  {
    hide Components, Resolve;
    SlashIgnored("/" + path);
    assert ("/" + path)[1..] == path;
  }

  /** A walk ends at a node with the last name it looked up. */
  lemma {:induction false} ResolvedName(fs: Fs, at: nat, names: seq<string>)
    requires names != [] && Resolve(fs, at, names).Some?
    ensures var n := Resolve(fs, at, names).value; n < |fs| && fs[n].name == names[|names| - 1]
    decreases names
  {
    if |names| > 1 {
      ResolvedName(fs, Step(fs, at, names[0]).value, names[1..]);
    }
  }

  /** The file the kernel looks up at boot: `/etc/test.txt` is found with its bytes, unless they are 1001 to 1024. */
  lemma {:induction false} FindsTestFile(entries: seq<Entry>, tail: string)
    requires |entries| == 3 && (forall e :: e in entries ==> WellFormed(e))
    requires entries[0].name == "./" && entries[1].name == "./etc/" && entries[2].name == "./etc/test.txt"
    requires entries[1].kind == '5' && entries[2].kind == '0'
    requires NoEntry(tail) && |Encode(entries) + tail| + 1023 < WORD
    ensures var walk, data := Walk(Encode(entries) + tail, 0), entries[2].data;
      && walk.Ended?
      && var fs := AddAll(EMPTY_FS, walk.calls);
      && FindPath(fs, "/etc/test.txt") == (if 1000 < |data| <= 1024 then None else Some(2))
      && (|data| <= 1000 || |data| > 1024 ==>
            |fs| > 2 && fs[2].name == "test.txt" && !fs[2].dir && fs[2].data == data)
  {
    hide Encode, Walk, WellFormed, NoEntry, AddAll, FindPath, IsTree, Archived, PathOf;
    var data := entries[2].data;
    var items := [Item(["etc"], true, ""), Item(["etc", "test.txt"], false, data)];
    TestPaths();
    EtcTree(items, data);
    EtcArchived(entries, items, data);
    ArchiveLoads(items, entries, 1, tail, 1);
    OneFile(items);
  }

  lemma {:induction false} EtcArchived(entries: seq<Entry>, items: seq<Item>, data: string)
    requires |entries| == 3
    requires entries[0].name == "./" && entries[1].name == "./etc/" && entries[2].name == "./etc/test.txt"
    requires entries[1].kind == '5' && entries[2].kind == '0' && entries[2].data == data
    requires items == [Item(["etc"], true, ""), Item(["etc", "test.txt"], false, data)]
    ensures Archived(entries, items, 1)
  {
    hide PathOf;
    TestPaths();
    assert MemberFor(entries[1 + 0], items[0]);
    assert MemberFor(entries[1 + 1], items[1]);
  }

  lemma {:induction false} OneFile(items: seq<Item>)
    requires |items| == 2 && items[0].dir && !items[1].dir
    ensures (exists j :: 0 <= j <= 1 && !items[j].dir && 1000 < |items[j].data| <= 1024)
       <==> 1000 < |items[1].data| <= 1024
  {
  }

  lemma {:induction false} TestPaths()
    ensures PathOf(["etc"]) == "etc" && PathOf(["etc", "test.txt"]) == "etc/test.txt"
    ensures "/" + PathOf(["etc", "test.txt"]) == "/etc/test.txt"
  {
    assert ["etc", "test.txt"][..1] == ["etc"];
  }

  lemma {:induction false} EtcTree(items: seq<Item>, data: string)
    requires items == [Item(["etc"], true, ""), Item(["etc", "test.txt"], false, data)]
    ensures IsTree(items)
  {
    assert items[1].names[..1] == items[0].names;
    assert items[0].names[..0] == [];
    assert Within(items, 0) && Within(items, 1);
  }
}
