/** Paths and the tmpfs tree as values (kernel/src/fs/vfs.c, kernel/src/fs/tmpfs.c). */
module FileTree {
  import opened Common

  const NAME_MAX: nat := 127

  /* ---------- paths ---------- */

  /** All pieces between slashes, empty ones included. */
  function Split(path: string): (r: seq<string>)
    ensures |r| >= 1
  {
    if path == "" then [""]
    else if path[0] == '/' then [""] + Split(path[1..])
    else
      var rest := Split(path[1..]);
      [[path[0]] + rest[0]] + rest[1..]
  }

  function NonEmpty(pieces: seq<string>): seq<string> {
    if pieces == [] then []
    else (if pieces[0] == "" then [] else [pieces[0]]) + NonEmpty(pieces[1..])
  }

  /** A component is cut to the 127 characters the name buffer holds. */
  function Cut(name: string): (c: string)
    ensures |c| == (if |name| <= 127 then |name| else 127) && forall i :: 0 <= i < |c| ==> c[i] == name[i]
  {
    if |name| <= NAME_MAX then name else name[..NAME_MAX]
  }

  function CutAll(pieces: seq<string>): seq<string> {
    if pieces == [] then [] else [Cut(pieces[0])] + CutAll(pieces[1..])
  }

  /** The components of a path: split on slashes, drop empty pieces, cut each to 127 characters. */
  function Components(path: string): seq<string> {
    CutAll(NonEmpty(Split(path)))
  }

  predicate NoSlash(s: string) {
    forall i :: 0 <= i < |s| ==> s[i] != '/'
  }

  lemma {:induction false} SplitWord(word: string, rest: string)
    requires NoSlash(word) && (rest == "" || rest[0] == '/')
    ensures Split(word + rest) == [word] + (if rest == "" then [] else Split(rest[1..]))
    decreases word
  {
    if word == "" {
      assert word + rest == rest;
    } else {
      assert (word + rest)[1..] == word[1..] + rest;
      SplitWord(word[1..], rest);
      assert [word[0]] + word[1..] == word;
    }
  }

  /** A leading slash is ignored. */
  lemma {:induction false} SlashIgnored(path: string)
    requires path != "" && path[0] == '/'
    ensures Components(path) == Components(path[1..])
  {
    var pieces := Split(path);
    assert pieces == [""] + Split(path[1..]);
    assert pieces[1..] == Split(path[1..]);
    assert NonEmpty(pieces) == NonEmpty(pieces[1..]);
  }

  /** A nonempty run without slashes is one component. */
  lemma {:induction false} WordIsComponent(word: string, rest: string)
    requires word != "" && NoSlash(word) && (rest == "" || rest[0] == '/')
    ensures Components(word + rest) == [Cut(word)] + Components(rest)
  {
    SplitWord(word, rest);
    var tail := if rest == "" then [] else Split(rest[1..]);
    var pieces := [word] + tail;
    assert pieces[1..] == tail;
    assert NonEmpty(pieces) == [word] + NonEmpty(tail);
    assert ([word] + NonEmpty(tail))[1..] == NonEmpty(tail);
    if rest == "" {
      assert Split(rest) == [""];
      assert NonEmpty([""]) == NonEmpty([""][1..]);
    } else {
      SlashIgnored(rest);
    }
  }

  lemma {:induction false} NoComponents()
    ensures Components("") == []
  {
    assert Split("") == [""];
    assert [""][1..] == [];
  }

  /** A path is its prefix up to the last slash and a final name: the components split there. */
  lemma {:induction false} ComponentsOfJoin(prefix: string, name: string)
    requires NoSlash(name)
    ensures Components(prefix + "/" + name) == Components(prefix) + Components(name)
    decreases |prefix|
  {
    hide Components;
    var path := prefix + "/" + name;
    if prefix == "" {
      NoComponents();
      assert path == "/" + name && path[1..] == name;
      SlashIgnored(path);
    } else if prefix[0] == '/' {
      assert path[1..] == prefix[1..] + "/" + name;
      SlashIgnored(path);
      SlashIgnored(prefix);
      ComponentsOfJoin(prefix[1..], name);
    } else {
      var w := FirstWord(prefix);
      var word, rest := prefix[..w], prefix[w..];
      assert prefix == word + rest;
      ComponentsOfJoin(rest, name);
      WordIsComponent(word, rest);
      assert path == word + (rest + "/" + name);
      assert (rest + "/" + name)[0] == '/';
      WordIsComponent(word, rest + "/" + name);
    }
  }

  /** The length of the run of non-slash characters at the start. */
  function FirstWord(s: string): (w: nat)
    ensures w <= |s| && NoSlash(s[..w]) && (w < |s| ==> s[w] == '/')
    ensures s != "" && s[0] != '/' ==> w > 0
  {
    if s == "" || s[0] == '/' then 0
    else
      var w := 1 + FirstWord(s[1..]);
      assert s[..w] == [s[0]] + s[1..][..w - 1];
      w
  }

  /* ---------- the tree ---------- */

  /** A node: directories have children, newest first; files have bytes. Nodes are named by the order of their
      creation, and the root is node 0. */
  datatype Node = Node(name: string, dir: bool, data: string, children: seq<nat>)

  type Fs = seq<Node>

  const ROOT: nat := 0

  /** The newest child with this name. */
  function FindChild(fs: Fs, children: seq<nat>, name: string): (r: Option<nat>)
    ensures r.Some? ==> r.value in children && r.value < |fs| && fs[r.value].name == name
    ensures r.None? ==> forall c :: c in children && c < |fs| ==> fs[c].name != name
  {
    if children == [] then None
    else if children[0] < |fs| && fs[children[0]].name == name then Some(children[0])
    else FindChild(fs, children[1..], name)
  }

  /** One step of the walk: `finddir` on a node, refused when it is not a directory. */
  function Step(fs: Fs, at: nat, name: string): (r: Option<nat>) {
    if at >= |fs| || !fs[at].dir then None else FindChild(fs, fs[at].children, name)
  }

  /** Directory lookup folded over the components. */
  function Resolve(fs: Fs, at: nat, components: seq<string>): Option<nat>
    decreases components
  {
    if components == [] then Some(at)
    else
      match Step(fs, at, components[0])
      case None => None
      case Some(c) => Resolve(fs, c, components[1..])
  }

  /** `vfs_find_path`: the empty path is refused, every other path is the fold over its components. */
  function FindPath(fs: Fs, path: string): Option<nat> {
    if path == "" then None else Resolve(fs, ROOT, Components(path))
  }

  ghost predicate Child(fs: Fs, p: nat, c: nat) {
    p < |fs| && c in fs[p].children
  }

  ghost predicate HasParent(fs: Fs, c: nat) {
    exists p: nat :: Child(fs, p, c)
  }

  /** Every node but the root has exactly one parent, once, and parents are older than their children: the links
      form a tree. Only directories have children. */
  ghost predicate Tree(fs: Fs) {
    && |fs| > 0 && fs[ROOT].dir
    && (forall p: nat, c: nat :: Child(fs, p, c) ==> p < c < |fs|)
    && (forall p: nat, q: nat, c: nat :: Child(fs, p, c) && Child(fs, q, c) ==> p == q)
    && (forall c :: 0 < c < |fs| ==> HasParent(fs, c))
    && (forall p :: 0 <= p < |fs| ==> Distinct(fs[p].children) && (!fs[p].dir ==> fs[p].children == []))
  }

  /** `tmpfs_create_file` or `tmpfs_create_dir` under `parent`: the new node goes to the head of the child list. */
  function Insert(fs: Fs, parent: nat, name: string, dir: bool, data: string): Fs
    requires parent < |fs|
  {
    fs[parent := fs[parent].(children := [|fs|] + fs[parent].children)]
    + [Node(name, dir, if dir then "" else data, [])]
  }

  lemma {:induction false} InsertNodes(fs: Fs, parent: nat, name: string, dir: bool, data: string)
    requires parent < |fs|
    ensures var fs1 := Insert(fs, parent, name, dir, data);
      && |fs1| == |fs| + 1
      && fs1[|fs|] == Node(name, dir, if dir then "" else data, [])
      && fs1[parent] == fs[parent].(children := [|fs|] + fs[parent].children)
      && (forall p :: 0 <= p < |fs| && p != parent ==> fs1[p] == fs[p])
  {
  }

  lemma {:induction false} InsertChild(fs: Fs, parent: nat, name: string, dir: bool, data: string)
    requires parent < |fs|
    ensures forall p: nat, c: nat ::
      Child(Insert(fs, parent, name, dir, data), p, c) <==> Child(fs, p, c) || (p == parent && c == |fs|)
  {
    hide Insert;
    InsertNodes(fs, parent, name, dir, data);
    var fs1 := Insert(fs, parent, name, dir, data);
    forall p: nat, c: nat
      ensures Child(fs1, p, c) <==> Child(fs, p, c) || (p == parent && c == |fs|)
    {
      if p == parent {
        assert c in fs1[parent].children <==> c == |fs| || c in fs[parent].children;
      } else if p < |fs| {
        assert fs1[p] == fs[p];
      }
    }
  }

  /** The new node is a leaf hung below one directory: the graph stays a tree. */
  lemma {:induction false} InsertKeepsTree(fs: Fs, parent: nat, name: string, dir: bool, data: string)
    requires Tree(fs) && parent < |fs| && fs[parent].dir
    ensures Tree(Insert(fs, parent, name, dir, data))
  {
    hide Insert, Child;
    var fs1 := Insert(fs, parent, name, dir, data);
    InsertNodes(fs, parent, name, dir, data);
    InsertChild(fs, parent, name, dir, data);
    forall c | 0 < c < |fs1|
      ensures HasParent(fs1, c)
    {
      if c == |fs| {
        assert Child(fs1, parent, c);
      } else {
        assert HasParent(fs, c);
        var p: nat :| Child(fs, p, c);
        assert Child(fs1, p, c);
      }
    }
    forall p | 0 <= p < |fs1|
      ensures Distinct(fs1[p].children) && (!fs1[p].dir ==> fs1[p].children == [])
    {
      if p == parent {
        FreshHead(fs, parent);
      }
    }
  }

  lemma {:induction false} FreshHead(fs: Fs, parent: nat)
    requires Tree(fs) && parent < |fs|
    ensures Distinct([|fs|] + fs[parent].children)
  {
    var s := [|fs|] + fs[parent].children;
    forall i, j | 0 <= i < j < |s|
      ensures s[i] != s[j]
    {
      assert s[j] == fs[parent].children[j - 1];
      assert Child(fs, parent, s[j]);
      if i > 0 {
        assert s[i] == fs[parent].children[i - 1];
        assert Distinct(fs[parent].children);
      }
    }
  }

  /* ---------- resolution in a tree ---------- */

  /** Resolution takes its last component last. */
  lemma {:induction false} ResolveSnoc(fs: Fs, at: nat, components: seq<string>, last: string)
    ensures Resolve(fs, at, components + [last]) ==
      match Resolve(fs, at, components) case None => None case Some(p) => Step(fs, p, last)
    decreases components
  {
    var all := components + [last];
    if components == [] {
      assert all == [last] && all[1..] == [];
    } else {
      assert all[0] == components[0] && all[1..] == components[1..] + [last];
      match Step(fs, at, components[0])
      case None =>
      case Some(c) => ResolveSnoc(fs, c, components[1..], last);
    }
  }

  /** Walking only goes to younger nodes. */
  lemma {:induction false} ResolveDescends(fs: Fs, at: nat, components: seq<string>)
    requires Tree(fs) && at < |fs|
    ensures var r := Resolve(fs, at, components);
      r.Some? ==> at <= r.value < |fs| && (components != [] ==> at < r.value)
    decreases components
  {
    if components != [] {
      match Step(fs, at, components[0])
      case None =>
      case Some(c) =>
        assert Child(fs, at, c);
        ResolveDescends(fs, c, components[1..]);
    }
  }

  /** A node has only one name: two component sequences that resolve to the same node are equal. */
  lemma {:induction false} ResolveInjective(fs: Fs, u: seq<string>, v: seq<string>)
    requires Tree(fs) && Resolve(fs, ROOT, u).Some? && Resolve(fs, ROOT, u) == Resolve(fs, ROOT, v)
    ensures u == v
    decreases |u|
  {
    ResolveDescends(fs, ROOT, u);
    ResolveDescends(fs, ROOT, v);
    if u != [] && v != [] {
      var u0, x := u[..|u| - 1], u[|u| - 1];
      var v0, y := v[..|v| - 1], v[|v| - 1];
      assert u == u0 + [x] && v == v0 + [y];
      ResolveSnoc(fs, ROOT, u0, x);
      ResolveSnoc(fs, ROOT, v0, y);
      var n := Resolve(fs, ROOT, u).value;
      assert Child(fs, Resolve(fs, ROOT, u0).value, n);
      assert Child(fs, Resolve(fs, ROOT, v0).value, n);
      ResolveInjective(fs, u0, v0);
    }
  }

  /** What is left of the components after the walk has looked up `name` in `parent`, if it ever does. */
  function Beyond(fs: Fs, at: nat, components: seq<string>, parent: nat, name: string): Option<seq<string>>
    decreases components
  {
    if components == [] then None
    else if at == parent && components[0] == name then Some(components[1..])
    else
      match Step(fs, at, components[0])
      case None => None
      case Some(c) => Beyond(fs, c, components[1..], parent, name)
  }

  /** The walk looks `name` up in `parent` exactly when some proper prefix of the components resolves to `parent` and
      `name` comes next; what is left is what follows. */
  lemma {:induction false} BeyondMeans(fs: Fs, at: nat, components: seq<string>, parent: nat, name: string)
    ensures Beyond(fs, at, components, parent, name).Some? <==>
      exists n :: 0 <= n < |components| && LooksUp(fs, at, components, n, parent, name)
    ensures Tree(fs) && at < |fs| ==>
      forall n :: 0 <= n < |components| && LooksUp(fs, at, components, n, parent, name) ==>
        Beyond(fs, at, components, parent, name) == Some(components[n + 1..])
    decreases components
  {
    if components != [] {
      if at == parent && components[0] == name {
        assert components[..0] == [];
        assert LooksUp(fs, at, components, 0, parent, name);
        if Tree(fs) && at < |fs| {
          forall n | 0 <= n < |components| && LooksUp(fs, at, components, n, parent, name)
            ensures n == 0
          {
            ResolveDescends(fs, at, components[..n]);
          }
        }
      } else {
        match Step(fs, at, components[0])
        case None =>
          forall n | 0 <= n < |components|
            ensures !LooksUp(fs, at, components, n, parent, name)
          {
            if n > 0 { assert components[..n][0] == components[0]; }
          }
        case Some(c) =>
          BeyondMeans(fs, c, components[1..], parent, name);
          if Tree(fs) && at < |fs| { assert Child(fs, at, c); }
          forall n | 0 <= n < |components|
            ensures LooksUp(fs, at, components, n, parent, name)
              <==> n > 0 && LooksUp(fs, c, components[1..], n - 1, parent, name)
          {
            if n > 0 {
              assert components[..n][0] == components[0] && components[..n][1..] == components[1..][..n - 1];
              assert components[n] == components[1..][n - 1];
            }
          }
          forall n | 0 <= n < |components[1..]| && LooksUp(fs, c, components[1..], n, parent, name)
            ensures LooksUp(fs, at, components, n + 1, parent, name) && components[n + 2..] == components[1..][n + 1..]
          {
            assert LooksUp(fs, at, components, n + 1, parent, name)
              <==> n + 1 > 0 && LooksUp(fs, c, components[1..], n, parent, name);
          }
          forall n | 0 <= n < |components| && LooksUp(fs, at, components, n, parent, name)
            ensures n > 0 && components[n + 1..] == components[1..][n..]
            ensures LooksUp(fs, c, components[1..], n - 1, parent, name)
          {
          }
      }
    }
  }

  ghost predicate LooksUp(fs: Fs, at: nat, components: seq<string>, n: nat, parent: nat, name: string) {
    n < |components| && components[n] == name && Resolve(fs, at, components[..n]) == Some(parent)
  }

  /* ---------- resolution after an insertion ---------- */

  /** Older nodes keep their names, so a lookup among old children does not see the new node. */
  lemma {:induction false} FindAmongOld(fs: Fs, fs1: Fs, children: seq<nat>, name: string)
    requires |fs| <= |fs1| && (forall p :: 0 <= p < |fs| ==> fs1[p].name == fs[p].name)
    requires forall c :: c in children ==> c < |fs|
    ensures FindChild(fs1, children, name) == FindChild(fs, children, name)
    decreases children
  {
    if children != [] {
      assert children[0] in children;
      assert forall c :: c in children[1..] ==> c in children;
      FindAmongOld(fs, fs1, children[1..], name);
    }
  }

  lemma {:induction false} StepAfterInsert(
    fs: Fs, parent: nat, name: string, dir: bool, data: string, at: nat, look: string)
    requires Tree(fs) && parent < |fs| && fs[parent].dir && at < |fs|
    ensures Step(Insert(fs, parent, name, dir, data), at, look) ==
      if at == parent && look == name then Some(|fs|) else Step(fs, at, look)
  {
    hide Insert;
    var fs1 := Insert(fs, parent, name, dir, data);
    InsertNodes(fs, parent, name, dir, data);
    assert forall c :: c in fs[at].children ==> Child(fs, at, c);
    FindAmongOld(fs, fs1, fs[at].children, look);
    if at == parent {
      var all := fs1[at].children;
      assert all[0] == |fs| && all[1..] == fs[at].children;
    }
  }

  /** Every resolution after an insertion: a walk that looks the new name up in the parent now finds the new node,
      which has no children, and every other walk ends where it ended before. */
  lemma {:induction false} ResolveAfterInsert(fs: Fs, parent: nat, name: string, dir: bool, data: string, at: nat,
      components: seq<string>)
    requires Tree(fs) && parent < |fs| && fs[parent].dir && at < |fs|
    ensures Resolve(Insert(fs, parent, name, dir, data), at, components) ==
      match Beyond(fs, at, components, parent, name)
      case None => Resolve(fs, at, components)
      case Some(rest) => if rest == [] then Some(|fs|) else None
    decreases components
  {
    hide Insert;
    if components != [] {
      var fs1 := Insert(fs, parent, name, dir, data);
      StepAfterInsert(fs, parent, name, dir, data, at, components[0]);
      if at == parent && components[0] == name {
        InsertNodes(fs, parent, name, dir, data);
        if |components| > 1 {
          assert Step(fs1, |fs|, components[1..][0]) == None;
        }
      } else if Step(fs, at, components[0]).Some? {
        var c := Step(fs, at, components[0]).value;
        assert Child(fs, at, c);
        ResolveAfterInsert(fs, parent, name, dir, data, c, components[1..]);
      }
    }
  }
}
