/** The in-memory filesystem: nodes linked in place, path lookup over NUL-terminated buffers
    (kernel/src/fs/tmpfs.c, kernel/src/fs/vfs.c). */
module Tmpfs {
  import opened Common
  import opened CStrings
  import opened FileTree
  import opened FileEntries

  const VFS_FILE: nat := 1
  const VFS_DIRECTORY: nat := 2
  const BUFFER: nat := 128

  /** `flags & VFS_DIRECTORY`. */
  predicate HasDirectoryBit(flags: nat) {
    flags / 2 % 2 == 1
  }

  /** `struct tmpfs_node`. The name, size and data are written once, when the node is made. */
  class TmpfsNode {
    const name: seq<char>
    const size: nat
    const data: seq<char>
    var flags: nat
    var next: TmpfsNode?
    var children: TmpfsNode?
    ghost const id: nat

    constructor (name: seq<char>, flags: nat, data: seq<char>, ghost id: nat)
      ensures this.name == name && this.flags == flags && this.size == |data| && this.data == data && this.id == id
      ensures next == null && children == null
    {
      this.name, this.flags, this.size, this.data, this.id := name, flags, |data|, data, id;
      next, children := null, null;
    }
  }

  /** `vfs_node_t`: a handle on a node, with copies of its name, flags and size. */
  class Vnode {
    const name: seq<char>
    const flags: nat
    const size: nat
    const device: TmpfsNode

    constructor (name: seq<char>, flags: nat, size: nat, device: TmpfsNode)
      ensures this.name == name && this.flags == flags && this.size == size && this.device == device
    {
      this.name, this.flags, this.size, this.device := name, flags, size, device;
    }
  }

  /** The child list that starts at `head` runs through exactly these nodes, in this order. */
  ghost predicate Linked(all: seq<TmpfsNode>, nexts: seq<TmpfsNode?>, head: TmpfsNode?, kids: seq<nat>) {
    && |nexts| == |all| && (forall j :: 0 <= j < |kids| ==> kids[j] < |all|)
    && head == (if kids == [] then null else all[kids[0]])
    && (forall j :: 0 <= j < |kids| ==> NextOk(all, nexts, kids, j))
  }

  ghost predicate NextOk(all: seq<TmpfsNode>, nexts: seq<TmpfsNode?>, kids: seq<nat>, j: nat)
    requires j < |kids| && |nexts| == |all| && (forall j :: 0 <= j < |kids| ==> kids[j] < |all|)
  {
    nexts[kids[j]] == if j + 1 < |kids| then all[kids[j + 1]] else null
  }

  /** Child lists of old nodes do not run through a new one, and the new one can go before any of them. */
  lemma {:induction false} KeepsList(
    all: seq<TmpfsNode>, nexts: seq<TmpfsNode?>, head: TmpfsNode?, kids: seq<nat>, n: TmpfsNode, next: TmpfsNode?)
    requires Linked(all, nexts, head, kids)
    ensures Linked(all + [n], nexts + [next], head, kids)
    ensures next == head ==> Linked(all + [n], nexts + [next], n, [|all|] + kids)
  {
    var all1, nexts1 := all + [n], nexts + [next];
    forall j | 0 <= j < |kids|
      ensures NextOk(all1, nexts1, kids, j)
    {
      assert NextOk(all, nexts, kids, j);
    }
    if next == head {
      var more := [|all|] + kids;
      assert forall j :: 0 < j < |more| ==> more[j] == kids[j - 1];
      forall j | 0 <= j < |more|
        ensures NextOk(all1, nexts1, more, j)
      {
        if j > 0 { assert NextOk(all1, nexts1, kids, j - 1); }
      }
    }
  }

  lemma {:induction false} LeafLinked(all: seq<TmpfsNode>, nexts: seq<TmpfsNode?>)
    requires |nexts| == |all|
    ensures Linked(all, nexts, null, [])
  {
  }

  /** The globals `root_internal` and `vfs_root`, with the tree they stand for and the vnodes not yet freed. */
  class FileSystem {
    var rootInternal: TmpfsNode
    var vfsRoot: Vnode
    ghost var all: seq<TmpfsNode>
    ghost var nexts: seq<TmpfsNode?>
    ghost var tree: Fs
    ghost var open: set<Vnode>

    ghost predicate NodeOk(i: nat)
      requires i < |all| == |tree| == |nexts|
      reads this`all, this`tree, this`nexts, all
    {
      var n, t := all[i], tree[i];
      && n.id == i
      && StrAt(n.name, 0, t.name) && |t.name| < BUFFER
      && n.flags == (if t.dir then VFS_DIRECTORY else VFS_FILE)
      && n.data == t.data && n.size == |t.data|
      && n.next == nexts[i] && Linked(all, nexts, n.children, t.children)
    }

    /** A handle agrees with the node it stands for. */
    ghost predicate VnodeOk(v: Vnode)
      reads this`all, this`tree, all
    {
      && v.device.id < |all| == |tree|
      && v.device == all[v.device.id]
      && v.flags == (if tree[v.device.id].dir then VFS_DIRECTORY else VFS_FILE)
      && v.size == |tree[v.device.id].data|
      && StrAt(v.name, 0, tree[v.device.id].name)
    }

    ghost predicate Valid()
      reads this, all
    {
      && |all| == |tree| == |nexts| && Tree(tree)
      && (forall i :: 0 <= i < |all| ==> NodeOk(i))
      && rootInternal == all[ROOT]
      && VnodeOk(vfsRoot) && vfsRoot.device.id == ROOT
      && vfsRoot !in open && (forall v :: v in open ==> VnodeOk(v) && v.device.id != ROOT)
    }

    /** `tmpfs_init`. */
    constructor ()
      ensures Valid() && tree == EMPTY_FS && open == {} && fresh(all)
    {
      var name := "/" + [NUL];
      var node := new TmpfsNode(name, VFS_DIRECTORY, "", 0);
      rootInternal := node;
      vfsRoot := new Vnode(name, VFS_DIRECTORY, 0, node);
      all, nexts, tree, open := [node], [null], EMPTY_FS, {};
      new;
      EmptyTree();
    }

    /** `tmpfs_create_vnode`. */
    method CreateVnode(internal: TmpfsNode) returns (v: Vnode)
      requires Valid() && internal.id < |all| && internal == all[internal.id] && internal.id != ROOT
      modifies this`open
      ensures Valid() && fresh(v) && v.device == internal && VnodeOk(v) && open == old(open) + {v}
    {
      ghost var id := internal.id;
      assert NodeOk(id);
      var buf := new char[BUFFER](_ => NUL);
      StrCpy(buf, internal.name, 0, tree[id].name);
      v := new Vnode(buf[..], internal.flags, internal.size, internal);
      open := open + {v};
    }

    /** The loop of `tmpfs_finddir`: the first node of the child list with this name. */
    method FindNode(internal: TmpfsNode, name: seq<char>, ghost s: string) returns (n: TmpfsNode?)
      requires Valid() && internal.id < |all| && internal == all[internal.id] && StrAt(name, 0, s)
      ensures match FindChild(tree, tree[internal.id].children, s)
        case None => n == null
        case Some(c) => 0 < c < |all| && n == all[c] && n.id == c
    {
      hide Tree;
      assert NodeOk(internal.id);
      ghost var kids, j := tree[internal.id].children, 0;
      KidsInTree(tree, internal.id);
      n := internal.children;
      while n != null
        invariant 0 <= j <= |kids|
        invariant n == if j < |kids| then all[kids[j]] else null
        invariant FindChild(tree, kids, s) == FindChild(tree, kids[j..], s)
        decreases |kids| - j
      {
        assert NodeOk(kids[j]) && NextOk(all, nexts, kids, j);
        var r := StrCmp(n.name, name, tree[kids[j]].name, s);
        if r == 0 { return; }
        assert kids[j..][1..] == kids[j + 1..];
        n := n.next;
        j := j + 1;
      }
    }

    static lemma {:induction false} KidsInTree(fs: Fs, p: nat)
      requires Tree(fs) && p < |fs|
      ensures forall j :: 0 <= j < |fs[p].children| ==> 0 < fs[p].children[j] < |fs|
    {
      forall j | 0 <= j < |fs[p].children|
        ensures 0 < fs[p].children[j] < |fs|
      {
        assert Child(fs, p, fs[p].children[j]);
      }
    }

    /** `tmpfs_finddir`: one step of the walk. */
    method FindDir(dir: Vnode, name: seq<char>, ghost s: string) returns (v: Vnode?)
      requires Valid() && VnodeOk(dir) && StrAt(name, 0, s)
      modifies this`open
      ensures Valid()
      ensures match Step(tree, dir.device.id, s)
        case None => v == null && open == old(open)
        case Some(c) => v != null && fresh(v) && v.device.id == c && c != ROOT && VnodeOk(v) && open == old(open) + {v}
    {
      hide Tree, FindChild;
      var internal := dir.device;
      assert NodeOk(internal.id);
      if internal.flags != VFS_DIRECTORY { return null; }
      var current := FindNode(internal, name, s);
      if current == null { return null; }
      v := CreateVnode(current);
    }

    /** `vfs_close`: frees a handle that is open and leaves the root's alone. */
    method Close(node: Vnode?)
      requires Valid() && (node == null || node == vfsRoot || node in open)
      modifies this`open
      ensures Valid() && open == old(open) - {node}
    {
      if node == null || node == vfsRoot { return; }
      open := open - {node};
    }

    /** The run of non-slash characters from `from` ends at `cursor`. */
    static ghost predicate WordEnd(p: string, from: nat, cursor: nat) {
      from <= cursor <= |p| && cursor == from + FirstWord(p[from..])
    }

    static ghost function Piece(p: string, from: nat, cursor: nat): string
      requires from <= cursor <= |p|
    {
      Cut(p[from..cursor])
    }

    /** The inner loop of `vfs_find_path`: the next component, cut to the buffer; the 8-bit cursor does not wrap. */
    static method NextName(path: seq<char>, from: nat, ghost p: string)
      returns (cursor: nat, i: nat, name: array<char>)
      requires StrAt(path, 0, p) && |p| <= 255 && from <= |p|
      ensures WordEnd(p, from, cursor) && (i == 0 <==> cursor == from)
      ensures StrAt(name[..], 0, Piece(p, from, cursor))
    {
      name := new char[BUFFER];
      cursor, i := from, 0;
      CharOfStr(path, 0, p, cursor);
      while path[cursor] != '/' && path[cursor] != NUL
        invariant from <= cursor <= |p|
        invariant NoSlash(p[from..cursor])
        invariant cursor < |p| ==> path[cursor] == p[cursor]
        invariant path[cursor] == NUL <==> cursor == |p|
        invariant i == |Cut(p[from..cursor])| && name[..i] == Cut(p[from..cursor])
        decreases |p| - cursor
      {
        assert p[from..cursor + 1] == p[from..cursor] + [p[cursor]];
        if i < 127 {
          name[i] := path[cursor];
          i := i + 1;
        }
        cursor := (cursor + 1) % 256;
        CharOfStr(path, 0, p, cursor);
      }
      name[i] := NUL;
      WordEnds(p, from, cursor);
      CutHasNoNul(p, from, cursor);
      assert name[..][0..i] == Cut(p[from..cursor]);
    }

    static lemma {:induction false} WordEnds(p: string, from: nat, cursor: nat)
      requires from <= cursor <= |p| && NoSlash(p[from..cursor]) && (cursor < |p| ==> p[cursor] == '/')
      ensures FirstWord(p[from..]) == cursor - from
    {
      var w := FirstWord(p[from..]);
      assert forall k :: 0 <= k < cursor - from ==> p[from..cursor][k] == p[from..][k];
      assert forall k :: 0 <= k < w ==> p[from..][..w][k] == p[from..][k];
    }

    static lemma {:induction false} CutHasNoNul(p: string, from: nat, cursor: nat)
      requires NoNul(p) && from <= cursor <= |p|
      ensures NoNul(Cut(p[from..cursor]))
    {
      var s := Cut(p[from..cursor]);
      forall i | 0 <= i < |s|
        ensures s[i] != NUL
      {
        assert s[i] == p[from + i];
      }
    }

    /** What the walk still has to do from node `at` with the rest of the path. */
    ghost predicate Remaining(p: string, cursor: nat, at: nat)
      requires cursor <= |p|
      reads this`tree
    {
      && Resolve(tree, ROOT, Components(p)) == Resolve(tree, at, Components(p[cursor..]))
      && StopsAtFile(tree, ROOT, Components(p)) == StopsAtFile(tree, at, Components(p[cursor..]))
    }

    /** The rest of a path after its next word: one component less when the word is not empty, and the slash that
        ended the word does not count. */
    static lemma {:induction false} NextWord(p: string, from: nat, cursor: nat)
      requires from < |p| && WordEnd(p, from, cursor)
      ensures cursor == from ==> p[from] == '/' && Components(p[from..]) == Components(p[from + 1..])
      ensures cursor > from ==> Components(p[from..]) == [Piece(p, from, cursor)] + Components(p[cursor..])
      ensures cursor < |p| ==> Components(p[cursor..]) == Components(p[cursor + 1..])
    {
      hide Components;
      if cursor < |p| {
        SlashIgnored(p[cursor..]);
        assert p[cursor..][1..] == p[cursor + 1..];
      }
      if cursor > from {
        assert p[from..] == p[from..cursor] + p[cursor..];
        assert p[from..cursor] == p[from..][..cursor - from];
        WordIsComponent(p[from..cursor], p[cursor..]);
      }
    }

    lemma {:induction false} OneStep(p: string, from: nat, cursor: nat, at: nat)
      requires from < |p| && WordEnd(p, from, cursor) && cursor > from && Remaining(p, from, at)
      requires at < |tree|
      ensures match Step(tree, at, Piece(p, from, cursor))
        case None =>
          && FileTree.FindPath(tree, p) == None
          && StopsAtFile(tree, ROOT, Components(p)) == !tree[at].dir
        case Some(c) => Remaining(p, cursor, c)
    {
      hide Components, FindChild;
      NextWord(p, from, cursor);
      var comps := Components(p[from..]);
      assert comps[0] == Piece(p, from, cursor) && comps[1..] == Components(p[cursor..]);
    }

    ghost function Handles(v: Vnode): set<Vnode>
      reads this`vfsRoot
    {
      if v == vfsRoot then {} else {v}
    }

    /** What `vfs_find_path` promises: the node the fold of lookups ends at, and which handles it leaves open. */
    ghost predicate Found(p: string, v: Vnode?, left: set<Vnode>)
      reads this`all, this`tree, this`vfsRoot, all
    {
      && (match FileTree.FindPath(tree, p)
          case None => v == null
          case Some(n) =>
            && v != null && VnodeOk(v) && v.device.id == n && (v == vfsRoot <==> n == ROOT) && left == Handles(v))
      && |left| == if p == "" then 0 else LeftOpen(tree, ROOT, Components(p))
    }

    /** `vfs_find_path`: equals the fold of lookups over the components of the path. */
    method FindPath(path: seq<char>, ghost p: string) returns (v: Vnode?, ghost left: set<Vnode>)
      requires Valid() && StrAt(path, 0, p) && |p| <= 255
      modifies this`open
      ensures Valid() && Found(p, v, left)
      ensures open == old(open) + left && fresh(left)
      ensures p == "" ==> v == null && left == {}
    {
      hide Tree, Components, FindChild, NodeOk, StrAt;
      left := {};
      CharOfStr(path, 0, p, 0);
      if path[0] == NUL { return null, {}; }
      if path[0] == '/' {
        CharOfStr(path, 0, p, 1);
        SlashIgnored(p);
        if path[1] == NUL {
          NoComponents();
          assert p[1..] == "";
          return vfsRoot, {};
        }
      }
      var cursor := 0;
      if path[0] == '/' { cursor := 1; }
      assert p[0..] == p;
      v, left := Walk(path, cursor, p);
    }

    /** The outer loop of `vfs_find_path`. */
    method Walk(path: seq<char>, start: nat, ghost p: string) returns (v: Vnode?, ghost left: set<Vnode>)
      requires Valid() && StrAt(path, 0, p) && 0 < |p| <= 255 && start <= |p| && Remaining(p, start, ROOT)
      modifies this`open
      ensures Valid() && Found(p, v, left)
      ensures open == old(open) + left && fresh(left)
    {
      hide Tree, Components, FindChild, NodeOk, StrAt, Remaining, Found;
      var current: Vnode, cursor := vfsRoot, start;
      left := {};
      CharOfStr(path, 0, p, cursor);
      while path[cursor] != NUL
        invariant cursor <= |p|
        invariant Valid() && At(p, cursor, current)
        invariant left == Handles(current) && open == old(open) + left && fresh(left)
        decreases |p| - cursor
      {
        CharOfStr(path, 0, p, cursor);
        cursor, v, left := Turn(path, cursor, p, current, old(open));
        if v == null { return; }
        current := v;
      }
      CharOfStr(path, 0, p, cursor);
      EndOfWalk(p, current);
      return current, left;
    }

    /** The walk stands at `current` with the path from `cursor` still to do. */
    ghost predicate At(p: string, cursor: nat, current: Vnode)
      requires cursor <= |p|
      reads this`all, this`tree, this`vfsRoot, all
    {
      && VnodeOk(current) && (current == vfsRoot <==> current.device.id == ROOT)
      && Remaining(p, cursor, current.device.id)
    }

    /** One turn of the outer loop: the next name, its lookup, and the slash after it. */
    method Turn(path: seq<char>, from: nat, ghost p: string, current: Vnode, ghost base: set<Vnode>)
      returns (cursor: nat, next: Vnode?, ghost left: set<Vnode>)
      requires Valid() && StrAt(path, 0, p) && from < |p| <= 255 && At(p, from, current)
      requires current !in base && open == base + Handles(current)
      modifies this`open
      ensures Valid() && open == base + left
      ensures next == null ==> Found(p, null, left) && left <= Handles(current)
      ensures next != null ==>
        from < cursor <= |p| && At(p, cursor, next) && left == Handles(next) && (next == current || fresh(next))
    {
      hide Valid, VnodeOk, Tree, Components, FindChild, NodeOk, StrAt, WordEnd, Piece, Remaining, Found, Step, Resolve;
      hide StopsAtFile, FileTree.FindPath;
      RootAndCurrent(current);
      var i, name;
      cursor, i, name := NextName(path, from, p);
      next, left := current, Handles(current);
      if i > 0 {
        OneStep(p, from, cursor, current.device.id);
        next, left := Descend(current, name[..], Piece(p, from, cursor), base);
        if next == null {
          LostWalk(p, current.device.id, left);
          return;
        }
      }
      cursor := SkipSlash(path, cursor, p, from, next.device.id);
    }

    /** The cursor steps over the slash that ended the name, which leaves the same components to do. */
    method SkipSlash(path: seq<char>, cursor: nat, ghost p: string, ghost from: nat, ghost at: nat) returns (after: nat)
      requires StrAt(path, 0, p) && from < |p| <= 255 && WordEnd(p, from, cursor) && Remaining(p, cursor, at)
      ensures from < after <= |p| && Remaining(p, after, at)
    {
      hide Components, Resolve, StrAt;
      NextWord(p, from, cursor);
      CharOfStr(path, 0, p, cursor);
      after := cursor;
      if path[after] == '/' {
        after := (after + 1) % 256;
      }
    }

    /** The lookup of one turn: a file or a missing name ends the walk, a child replaces the current handle, and
        only the not-a-directory exit forgets to close the handle it had. */
    method Descend(current: Vnode, name: seq<char>, ghost s: string, ghost base: set<Vnode>)
      returns (next: Vnode?, ghost left: set<Vnode>)
      requires Valid() && VnodeOk(current) && StrAt(name, 0, s)
      requires (current == vfsRoot <==> current.device.id == ROOT)
      requires current !in base && open == base + Handles(current)
      modifies this`open
      ensures Valid() && open == base + left
      ensures match Step(tree, current.device.id, s)
        case None => next == null && left == if tree[current.device.id].dir then {} else Handles(current)
        case Some(c) => next != null && fresh(next) && VnodeOk(next) && next.device.id == c != ROOT && left == {next}
    {
      hide Tree, FindChild, NodeOk, StrAt;
      if !HasDirectoryBit(current.flags) {
        return null, Handles(current);
      }
      next := FindDir(current, name, s);
      if next == null {
        if current != vfsRoot { Close(current); }
        return null, {};
      }
      if current != vfsRoot { Close(current); }
      left := {next};
    }

    lemma {:induction false} RootAndCurrent(v: Vnode)
      requires Valid() && VnodeOk(v)
      ensures |tree| > 0 && tree[ROOT].dir && v.device.id < |tree|
    {
      RootFacts(tree);
    }

    lemma {:induction false} LostWalk(p: string, at: nat, left: set<Vnode>)
      requires p != "" && at < |tree| && FileTree.FindPath(tree, p) == None
      requires StopsAtFile(tree, ROOT, Components(p)) == !tree[at].dir
      requires |left| == if !tree[at].dir then 1 else 0
      ensures Found(p, null, left)
    {
      hide Components, Resolve, StopsAtFile;
    }

    lemma {:induction false} EndOfWalk(p: string, current: Vnode)
      requires p != "" && VnodeOk(current) && (current == vfsRoot <==> current.device.id == ROOT)
      requires Remaining(p, |p|, current.device.id)
      ensures Found(p, current, Handles(current))
    {
      hide Components;
      NoComponents();
      assert p[|p|..] == "";
    }

    /** The new node becomes the head of its parent's child list. */
    method Hang(n: TmpfsNode, parent: TmpfsNode, ghost t: Node)
      requires Valid() && parent.id < |all| && parent == all[parent.id] && tree[parent.id].dir
      requires n !in all && n.id == |all| && n.children == null
      requires t == Node(t.name, t.dir, t.data, []) && (t.dir ==> t.data == "")
      requires StrAt(n.name, 0, t.name) && |t.name| < BUFFER && n.data == t.data && n.size == |t.data|
      requires n.flags == if t.dir then VFS_DIRECTORY else VFS_FILE
      modifies this`all, this`tree, this`nexts, n`next, parent`children
      ensures Valid() && all == old(all) + [n]
      ensures tree == Insert(old(tree), parent.id, t.name, t.dir, t.data)
    {
      hide Tree, Insert, Linked, StrAt;
      ghost var all0, nexts0, tree0 := all, nexts, tree;
      assert NodeOk(parent.id);
      n.next := parent.children;
      parent.children := n;
      all, nexts := all + [n], nexts + [n.next];
      tree := Insert(tree, parent.id, t.name, t.dir, t.data);
      InsertNodes(tree0, parent.id, t.name, t.dir, t.data);
      InsertKeepsTree(tree0, parent.id, t.name, t.dir, t.data);
      forall i | 0 <= i < |all|
        ensures NodeOk(i)
      {
        if i == |all0| {
          LeafLinked(all, nexts);
        } else {
          assert old(NodeOk(i));
          KeepsList(all0, nexts0, old(all0[i].children), tree0[i].children, n, n.next);
        }
      }
    }

    /** `kmalloc` of file data on a heap with enough free frames: there is memory exactly for the storable sizes. */
    static method AllocateData(size: nat) returns (bytes: array?<char>)
      requires size > 0
      ensures bytes == null <==> !Storable(size)
      ensures bytes != null ==> fresh(bytes) && bytes.Length == size
    {
      if 1000 < size <= 1024 { return null; }
      bytes := new char[size](_ => NUL);
    }

    /** `tmpfs_create_file`. Data that cannot be stored makes the copy write through NULL: the kernel halts there, and
        the node was not linked yet. */
    method CreateFile(
      parent: TmpfsNode?, name: seq<char>, at: nat, ghost s: string, buf: seq<char>, from: nat, size: nat)
      returns (n: TmpfsNode?, fault: bool)
      requires Valid() && StrAt(name, at, s) && |s| < BUFFER && from + size <= |buf|
      requires parent != null ==> parent.id < |all| && parent == all[parent.id]
      modifies this`all, this`tree, this`nexts, (if parent == null then {} else {parent})`children
      ensures Valid()
      ensures fault <==> parent != null && old(tree)[parent.id].dir && !Storable(size)
      ensures n == null <==> parent == null || !old(tree)[parent.id].dir || fault
      ensures n == null ==> tree == old(tree) && all == old(all)
      ensures n != null ==>
        fresh(n) && all == old(all) + [n] && tree == Insert(old(tree), parent.id, s, false, buf[from..from + size])
    {
      if parent == null { return null, false; }
      assert NodeOk(parent.id);
      if parent.flags != VFS_DIRECTORY { return null, false; }
      var copy := new char[BUFFER](_ => NUL);
      StrCpy(copy, name, at, s);
      var data := "";
      fault := false;
      if size > 0 {
        var bytes := AllocateData(size);
        if bytes == null { return null, true; }
        MemCpy(bytes, buf, from, size);
        data := bytes[..];
        assert data == bytes[..size];
      }
      n := new TmpfsNode(copy[..], VFS_FILE, data, |all|);
      Hang(n, parent, Node(s, false, data, []));
    }

    /** `tmpfs_create_dir`: an empty file whose kind is then changed. */
    method CreateDir(parent: TmpfsNode?, name: seq<char>, at: nat, ghost s: string) returns (n: TmpfsNode?)
      requires Valid() && StrAt(name, at, s) && |s| < BUFFER
      requires parent != null ==> parent.id < |all| && parent == all[parent.id]
      modifies this`all, this`tree, this`nexts, (if parent == null then {} else {parent})`children
      ensures Valid()
      ensures parent == null || !old(tree)[parent.id].dir ==> n == null && tree == old(tree) && all == old(all)
      ensures parent != null && old(tree)[parent.id].dir ==>
        n != null && fresh(n) && all == old(all) + [n] && tree == Insert(old(tree), parent.id, s, true, "")
    {
      hide Tree, Insert, Linked, StrAt;
      ghost var tree0 := tree;
      assert forall v :: v in open ==> v.device.id < |tree0|;
      assert vfsRoot.device.id < |tree0|;
      var fault;
      n, fault := CreateFile(parent, name, at, s, "", 0, 0);
      if n != null {
        InsertDir(tree0, parent.id, s);
        assert NodeOk(|tree0|);
        InsertKeepsTree(tree0, parent.id, s, true, "");
        label made:
        n.flags := VFS_DIRECTORY;
        tree := Insert(tree0, parent.id, s, true, "");
        forall i | 0 <= i < |all|
          ensures NodeOk(i)
        {
          assert old@made(NodeOk(i));
        }
      }
    }

    static lemma {:induction false} InsertDir(fs: Fs, parent: nat, name: string)
      requires parent < |fs|
      ensures var f, d := Insert(fs, parent, name, false, ""), Insert(fs, parent, name, true, "");
        && |f| == |d| == |fs| + 1
        && d[|fs|] == f[|fs|].(dir := true)
        && (forall i :: 0 <= i < |fs| ==> d[i] == f[i])
    {
    }

    /** `tmpfs_read`: copies the span and returns its length. */
    method Read(node: Vnode, offset: nat, size: nat, buffer: array<char>) returns (got: nat)
      requires Valid() && VnodeOk(node) && size <= buffer.Length && offset + size < 0x1_0000_0000_0000_0000
      modifies buffer
      ensures got == |ReadSpan(tree[node.device.id].data, offset, size)|
      ensures got <= size && buffer[..got] == ReadSpan(tree[node.device.id].data, offset, size)
      ensures forall i :: got <= i < buffer.Length ==> buffer[i] == old(buffer[i])
    {
      var internal := node.device;
      assert NodeOk(internal.id);
      if offset >= internal.size { return 0; }
      got := size;
      if (offset + got) % 0x1_0000_0000_0000_0000 > internal.size { got := internal.size - offset; }
      MemCpy(buffer, internal.data, offset, got);
    }

    /** The copied path, cut at its last slash, holds the two parts as strings. */
    static lemma {:induction false} CutAtSlash(m: seq<char>, m1: seq<char>, p: string)
      requires StrAt(m, 0, p) && LastSlash(p) >= 0 && m1 == m[LastSlash(p) := NUL]
      ensures StrAt(m1, 0, DirPart(p)) && StrAt(m1, LastSlash(p) + 1, FilePart(p))
    {
      var k := LastSlash(p);
      assert m[..|p|] == p && |p| == k + 1 + |FilePart(p)|;
      assert m1[0..k] == p[..k];
      forall i | 0 <= i < |FilePart(p)|
        ensures m1[k + 1..|p|][i] == p[k + 1 + i] && FilePart(p)[i] == p[k + 1 + i]
      {
        assert m[..|p|][k + 1 + i] == p[k + 1 + i];
      }
      assert m1[k + 1..k + 1 + |FilePart(p)|] == FilePart(p);
    }

    /** `strrchr` finds the last slash. */
    static lemma {:induction false} SlashFound(m: seq<char>, p: string, last: int)
      requires StrAt(m, 0, p) && -1 <= last <= |p|
      requires (last >= 0 ==> m[last] == '/') && (forall i :: last < i <= |p| ==> m[i] != '/')
      ensures last == LastSlash(p)
    {
      assert forall i :: 0 <= i < |p| ==> m[i] == p[i] by {
        forall i | 0 <= i < |p|
          ensures m[i] == p[i]
        {
          CharOfStr(m, 0, p, i);
        }
      }
    }

    /** The part of `tmpfs_add_entry` that copies the path and cuts it in place. */
    static method CutPath(fullPath: seq<char>, at: nat, ghost p: string)
      returns (copy: array<char>, filename: nat, cut: bool)
      requires StrAt(fullPath, at, p) && |p| <= 255
      ensures fresh(copy) && StrAt(copy[..], filename, FilePart(p))
      ensures cut ==> StrAt(copy[..], 0, DirPart(p))
      ensures !cut ==> DirPart(p) == ""
    {
      hide StrAt, FilePart;
      filename := 0;
      copy := new char[256](_ => NUL);
      StrCpy(copy, fullPath, at, p);
      ghost var whole := copy[..];
      var last := StrRChr(copy[..], '/', p);
      SlashFound(whole, p, last);
      cut := last >= 0;
      if cut {
        copy[last] := NUL;
        CutAtSlash(whole, copy[..], p);
        filename := last + 1;
      } else {
        WholePath(p);
      }
    }

    static lemma {:induction false} WholePath(p: string)
      requires LastSlash(p) < 0
      ensures FilePart(p) == p
    {
    }

    /** The part of `tmpfs_add_entry` that looks the parent up. */
    method FindParent(copy: array<char>, cut: bool, ghost p: string) returns (parent: TmpfsNode, ghost left: set<Vnode>)
      requires Valid() && |p| <= 255
      requires if cut then StrAt(copy[..], 0, DirPart(p)) else DirPart(p) == ""
      modifies this`open
      ensures Valid() && parent.id == ParentOf(tree, p) && parent == all[parent.id]
      ensures open == old(open) + left && fresh(left)
      ensures |left| == if DirPart(p) == "" then 0 else LeftOpen(tree, ROOT, Components(DirPart(p)))
    {
      hide Tree, Components, FindChild, StrAt, FilePart, LeftOpen, Resolve;
      parent, left := rootInternal, {};
      assert NodeOk(ROOT);
      if cut {
        var v;
        v, left := FindPath(copy[..], DirPart(p));
        if v != null && HasDirectoryBit(v.flags) {
          parent := v.device;
        }
      }
    }

    /** `tmpfs_add_entry`: adds the entry unless its data cannot be stored; the parent's handle stays open. */
    method AddEntry(fullPath: seq<char>, at: nat, ghost p: string, buf: seq<char>, from: nat, size: nat, flags: nat)
      returns (n: TmpfsNode?, fault: bool, ghost left: set<Vnode>)
      requires Valid() && StrAt(fullPath, at, p) && |p| <= 255 && |FilePart(p)| <= NAME_MAX
      requires HasDirectoryBit(flags) || from + size <= |buf|
      modifies this`all, this`tree, this`nexts, this`open, all`children
      ensures Valid() && (fault <==> !HasDirectoryBit(flags) && !Storable(size)) && (n == null <==> fault)
      ensures fault ==> tree == old(tree) && all == old(all)
      ensures !fault ==>
        && fresh(n) && all == old(all) + [n]
        && var data := if HasDirectoryBit(flags) then "" else buf[from..from + size];
           tree == FileEntries.AddEntry(old(tree), p, HasDirectoryBit(flags), data)
      ensures open == old(open) + left && fresh(left)
      ensures |left| == if DirPart(p) == "" then 0 else LeftOpen(old(tree), ROOT, Components(DirPart(p)))
    {
      hide Tree, Components, StrAt, LeftOpen, ParentOf, NodeOk, VnodeOk;
      var copy, filename, cut := CutPath(fullPath, at, p);
      var parent;
      parent, left := FindParent(copy, cut, p);
      ghost var fs := tree;
      ParentIsDirectory(fs, p);
      if HasDirectoryBit(flags) {
        n := CreateDir(parent, copy[..], filename, FilePart(p));
        fault := false;
      } else {
        n, fault := CreateFile(parent, copy[..], filename, FilePart(p), buf, from, size);
      }
    }
  }
}
