/** The initrd loader: walks a ustar archive in memory, edits names in place and adds every entry to the tmpfs tree
    (kernel/src/fs/initrd.c). */
module Initrd {
  import opened Common
  import opened CStrings
  import opened FileTree
  import opened FileEntries
  import opened Tmpfs
  import opened Ustar

  method OctalToInt(m: seq<char>, start: nat, ghost stop: nat) returns (val: nat)
    requires start <= stop < |m| && !Octal(m[stop])
    ensures val == ParseOctal(m, start, 0)
  {
    val := 0;
    var at := start;
    while Octal(m[at])
      invariant start <= at <= stop && ParseOctal(m, start, 0) == ParseOctal(m, at, val)
      decreases stop - at
    {
      val := (val * 8 + (m[at] as int - '0' as int)) % WORD;
      at := at + 1;
    }
  }

  /** The name field holds its name as a C string. */
  lemma {:induction false} NameIsString(m: seq<char>, offset: nat)
    requires HasHeader(m, offset) && |NameAt(m, offset)| < NAME_SIZE
    ensures StrAt(m, offset, NameAt(m, offset))
  {
    var field := m[offset..offset + NAME_SIZE];
    var n := Length(field);
    assert m[offset..offset + n] == field[..n];
    assert m[offset + n] == field[n];
  }

  lemma {:induction false} Suffix(m: seq<char>, at: nat, s: string, k: nat)
    requires StrAt(m, at, s) && k <= |s|
    ensures StrAt(m, at + k, s[k..])
  {
    assert m[at + k..at + |s|] == m[at..at + |s|][k..];
  }

  lemma {:induction false} DroppedSlash(m: seq<char>, at: nat, s: string)
    requires StrAt(m, at, s) && s != ""
    ensures s[|s| - 1] == m[at + |s| - 1]
    ensures s[|s| - 1] == '/' ==> StrAt(m[at + |s| - 1 := NUL], at, DropSlash(s))
    ensures s[|s| - 1] != '/' ==> DropSlash(s) == s
  {
    CharOfStr(m, at, s, |s| - 1);
    var k := at + |s| - 1;
    assert m[k := NUL][at..k] == m[at..at + |s|][..|s| - 1];
  }

  /** The edits of the name: the pointer steps over "./", and one trailing slash is overwritten in place. */
  method StripName(archive: array<char>, offset: nat, ghost n: string) returns (skip: bool, name: nat)
    requires StrAt(archive[..], offset, n) && n != "" && |n| < NAME_SIZE
    modifies archive
    ensures skip <==> n == "./"
    ensures skip ==> archive[..] == old(archive[..])
    ensures !skip ==> name == offset + (if |n| >= 2 && n[..2] == "./" then 2 else 0)
    ensures !skip ==>
      archive[..] == if n[|n| - 1] == '/' then old(archive[..])[offset + |n| - 1 := NUL] else old(archive[..])
    ensures skip <==> DropDot(n) == ""
    ensures !skip ==> StrAt(archive[..], name, DropSlash(DropDot(n)))
    ensures forall k :: 0 <= k < archive.Length && !(offset <= k < offset + |n|) ==> archive[k] == old(archive[k])
  {
    hide StrAt, DropSlash;
    ghost var m, s := archive[..], DropDot(n);
    CharOfStr(m, offset, n, 0);
    CharOfStr(m, offset, n, 1);
    if |n| >= 2 { Suffix(m, offset, n, 2); }
    name := offset;
    if archive[name] == '.' && archive[name + 1] == '/' { name := name + 2; }
    assert StrAt(m, name, s);
    CharOfStr(m, name, s, 0);
    skip := archive[name] == NUL;
    if !skip {
      var len := StrLen(archive[..], name, s);
      DroppedSlash(m, name, s);
      if len > 0 && archive[name + len - 1] == '/' {
        archive[name + len - 1] := NUL;
        assert archive[..] == m[name + len - 1 := NUL];
      }
    }
  }

  /** The edits as the rest of the loop sees them: the stripped name, and the archive past the name as it was. */
  method StripEntry(archive: array<char>, offset: nat, ghost n: string) returns (skip: bool, name: nat)
    requires StrAt(archive[..], offset, n) && n != "" && |n| < NAME_SIZE && HasHeader(archive[..], offset)
    modifies archive
    ensures skip <==> DropDot(n) == ""
    ensures !skip ==> StrAt(archive[..], name, DropSlash(DropDot(n)))
    ensures Agree(old(archive[..]), archive[..], offset + BLOCK)
    ensures forall k :: 0 <= k < archive.Length && !(offset <= k < offset + BLOCK) ==> archive[k] == old(archive[k])
  {
    hide StrAt, DropSlash, DropDot;
    skip, name := StripName(archive, offset, n);
  }

  /** What the loop reads from a header before it edits the name. */
  method ReadHeader(m: seq<char>, offset: nat) returns (size: nat, flags: nat, next: nat)
    requires HasHeader(m, offset) && Magic(m, offset) && Readable(m, offset)
    ensures size == SizeAt(m, offset) && next == offset + BLOCK + Round(size) && next % BLOCK == offset % BLOCK
    ensures flags == (if m[offset + KIND_AT] == '5' then VFS_DIRECTORY else VFS_FILE)
  {
    hide ParseOctal;
    assert m[offset + MAGIC_AT..offset + MAGIC_AT + 5][0] == 'u';
    size := OctalToInt(m, offset + SIZE_AT, offset + MAGIC_AT);
    flags := if m[offset + KIND_AT] == '5' then VFS_DIRECTORY else VFS_FILE;
    assert (size + 511) % WORD == size + 511;
    next := (offset + BLOCK + (size + 511) % WORD / 512 * 512) % WORD;
    assert next == offset + BLOCK + Round(size);
    RoundAligned(offset, size);
  }

  lemma {:induction false} RoundAligned(offset: nat, size: nat)
    ensures (offset + BLOCK + Round(size)) % BLOCK == offset % BLOCK
  {
    var k := (size + 511) / 512;
    assert (offset + 512 * (k + 1)) % 512 == offset % 512;
  }

  /** The call of `tmpfs_add_entry` with the edited name. */
  method AddNamed(fs: FileSystem, m: seq<char>, name: nat, ghost p: string, from: nat, size: nat, flags: nat)
    returns (fault: bool)
    requires fs.Valid() && StrAt(m, name, p) && |p| < NAME_SIZE
    requires flags == VFS_DIRECTORY || (flags == VFS_FILE && from + size <= |m|)
    modifies fs`all, fs`tree, fs`nexts, fs`open, fs.all`children
    ensures fs.Valid() && (forall i :: 0 <= i < |fs.all| ==> fs.all[i] in old(fs.all) || fresh(fs.all[i]))
    ensures var dir := flags == VFS_DIRECTORY;
      var calls := [Call(p, dir, if dir then "" else m[from..from + size])];
      (fault <==> Faulty(calls)) && fs.tree == if fault then old(fs.tree) else AddAll(old(fs.tree), calls)
  {
    hide FileSystem.NodeOk, FileSystem.VnodeOk, FileSystem.Valid, StrAt, Tree, FileEntries.AddEntry, Components, AddAll;
    hide LeftOpen, DirPart;
    assert |FilePart(p)| <= |p|;
    TreeNotEmpty(fs);
    ghost var dir := flags == VFS_DIRECTORY;
    AddOne(fs.tree, Call(p, dir, if dir then "" else m[from..from + size]));
    ghost var all0 := fs.all;
    var node, failed, _ := fs.AddEntry(m, name, p, m, from, size, flags);
    fault := failed;
    forall i | 0 <= i < |fs.all|
      ensures fs.all[i] in all0 || fresh(fs.all[i])
    {
      if i < |all0| { assert fs.all[i] == all0[i]; }
    }
  }

  /** The body of the loop for one entry: the tree grows by the call the header asks for, unless that call faults. */
  method LoadEntry(fs: FileSystem, archive: array<char>, offset: nat) returns (next: nat, fault: bool)
    requires fs.Valid() && More(archive[..], offset) && HasHeader(archive[..], offset)
    requires Magic(archive[..], offset) && Readable(archive[..], offset)
    modifies archive, fs`all, fs`tree, fs`nexts, fs`open, fs.all`children
    ensures fs.Valid() && (forall i :: 0 <= i < |fs.all| ==> fs.all[i] in old(fs.all) || fresh(fs.all[i]))
    ensures fault <==> Faulty(CallAt(old(archive[..]), offset))
    ensures fs.tree == if fault then old(fs.tree) else AddAll(old(fs.tree), CallAt(old(archive[..]), offset))
    ensures next == offset + BLOCK + Round(SizeAt(old(archive[..]), offset)) && next % BLOCK == offset % BLOCK
    ensures forall k :: 0 <= k < archive.Length && !(offset <= k < offset + BLOCK) ==> archive[k] == old(archive[k])
  {
    hide FileSystem.NodeOk, FileSystem.VnodeOk, FileSystem.Valid, StrAt, Tree, Magic, ParseOctal, Round, Length;
    hide DropDot, DropSlash, SizeAt, NameAt, CallAt, AddAll;
    ghost var m := archive[..];
    ghost var n := NameAt(m, offset);
    NameIsString(m, offset);
    CharOfStr(m, offset, n, 0);
    var size, flags;
    size, flags, next := ReadHeader(archive[..], offset);
    assert |n| < NAME_SIZE;
    var skip, name := StripEntry(archive, offset, n);
    TreeNotEmpty(fs);
    AddNone(fs.tree);
    CallMade(m, archive[..], offset);
    fault := false;
    if !skip {
      fault := AddNamed(fs, archive[..], name, DropSlash(DropDot(n)), offset + BLOCK, size, flags);
    }
  }

  /** The call a header asks for, read from the archive after its name was edited. */
  lemma {:induction false} CallMade(m: seq<char>, w: seq<char>, offset: nat)
    requires HasHeader(m, offset) && Readable(m, offset) && Agree(m, w, offset + BLOCK)
    ensures var p, dir := DropSlash(DropDot(NameAt(m, offset))), m[offset + KIND_AT] == '5';
      var from, to := offset + BLOCK, offset + BLOCK + SizeAt(m, offset);
      && |p| < NAME_SIZE
      && if DropDot(NameAt(m, offset)) == "" then CallAt(m, offset) == []
         else (dir || to <= |w|) && CallAt(m, offset) == [Call(p, dir, if dir then "" else w[from..to])]
  {
    hide NameAt, SizeAt;
    var from, to := offset + BLOCK, offset + BLOCK + SizeAt(m, offset);
    if to <= |m| { assert m[from..to] == w[from..to]; }
  }

  /** One turn of the loop, as the walk sees it. */
  lemma {:induction false} WalkTurn(m: seq<char>, offset: nat)
    requires Walk(m, offset).Ended? && More(m, offset)
    ensures HasHeader(m, offset)
    ensures !Magic(m, offset) ==> Walk(m, offset) == Ended([], false)
    ensures Magic(m, offset) ==>
      && Readable(m, offset)
      && (Faulty(CallAt(m, offset)) ==> Walk(m, offset) == Ended([], true))
      && (!Faulty(CallAt(m, offset)) ==>
            var rest := Walk(m, offset + BLOCK + Round(SizeAt(m, offset)));
            rest.Ended? && Walk(m, offset) == Ended(CallAt(m, offset) + rest.calls, rest.fault))
  {
    hide Magic, Readable, CallAt, SizeAt, Round;
  }

  /** The loop of `initrd_init`: ends or faults at a multiple of 512, having added exactly the entries of the archive as
      it was before any name was edited, up to the first one that cannot be stored. */
  method LoadArchive(fs: FileSystem, archive: array<char>) returns (offset: nat, fault: bool)
    requires fs.Valid() && Walk(archive[..], 0).Ended?
    modifies archive, fs`all, fs`tree, fs`nexts, fs`open, fs.all`children
    ensures fs.Valid() && offset % BLOCK == 0
    ensures fault == Walk(old(archive[..]), 0).fault
    ensures fs.tree == AddAll(old(fs.tree), Walk(old(archive[..]), 0).calls)
  {
    hide FileSystem.Valid, Tree, Magic, SizeAt, Readable, CallAt, Walk, AddAll, Round, Faulty;
    offset, fault := 0, false;
    ghost var done: seq<Call>, tree0, m0 := [], fs.tree, archive[..];
    assert |tree0| > 0 by { TreeNotEmpty(fs); }
    assert AddAll(tree0, done) == tree0 by { AddNone(tree0); }
    while offset < archive.Length
      invariant fs.Valid() && offset % BLOCK == 0
      invariant forall i :: 0 <= i < |fs.all| ==> fs.all[i] in old(fs.all) || fresh(fs.all[i])
      invariant Walk(archive[..], offset).Ended? && !fault
      invariant var rest := Walk(archive[..], offset);
        Walk(m0, 0) == Ended(done + rest.calls, rest.fault)
      invariant fs.tree == AddAll(tree0, done)
      decreases archive.Length - offset
    {
      ghost var m := archive[..];
      if archive[offset] == NUL { WalkStops(m, offset); assert done + [] == done; return; }
      WalkTurn(m, offset);
      var differs := MemCmp(archive[..], offset + MAGIC_AT, "ustar", 5);
      MagicTested(m, offset, differs);
      if differs != 0 { assert done + [] == done; return; }
      ghost var calls := CallAt(m, offset);
      AddAllAppend(tree0, done, calls);
      var next;
      next, fault := LoadEntry(fs, archive, offset);
      if fault { assert done + [] == done; return; }
      offset := next;
      done := done + calls;
      WalkAgrees(archive[..], m, offset);
    }
    WalkStops(archive[..], offset);
    assert done + [] == done;
  }

  lemma {:induction false} TreeNotEmpty(fs: FileSystem)
    requires fs.Valid()
    ensures |fs.tree| > 0
  {
  }

  lemma {:induction false} AddOne(fs: Fs, c: Call)
    requires |fs| > 0
    ensures AddAll(fs, [c]) == FileEntries.AddEntry(fs, c.path, c.dir, c.data)
  {
    assert [c][..0] == [];
  }

  lemma {:induction false} AddNone(fs: Fs)
    requires |fs| > 0
    ensures AddAll(fs, []) == fs
  {
  }

  lemma {:induction false} MagicTested(m: seq<char>, offset: nat, differs: int)
    requires HasHeader(m, offset)
    requires differs == 0 <==> m[offset + MAGIC_AT..offset + MAGIC_AT + 5] == "ustar"[..5]
    ensures Magic(m, offset) <==> differs == 0
  {
    assert "ustar"[..5] == "ustar";
  }

  /** `initrd_init`: without a module nothing happens; otherwise the first one is loaded. */
  method InitrdInit(fs: FileSystem, modules: seq<array<char>>) returns (fault: bool)
    requires fs.Valid() && (modules != [] ==> Walk(modules[0][..], 0).Ended?)
    modifies if modules == [] then {} else {modules[0]}
    modifies fs`all, fs`tree, fs`nexts, fs`open, fs.all`children
    ensures fs.Valid()
    ensures modules == [] ==> !fault && fs.tree == old(fs.tree) && fs.all == old(fs.all) && fs.open == old(fs.open)
    ensures modules != [] ==>
      var walk := Walk(old(modules[0][..]), 0);
      fault == walk.fault && fs.tree == AddAll(old(fs.tree), walk.calls)
  {
    if modules == [] { return false; }
    var end;
    end, fault := LoadArchive(fs, modules[0]);
  }
}
