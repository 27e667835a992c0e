/** The ustar archive as a value: what the loader reads and an encoder it inverts (kernel/src/fs/initrd.c, and the
    "ustar Interchange Format" of the pax utility in IEEE Std 1003.1). */
module Ustar {
  import opened Common
  import opened CStrings
  import opened FileTree
  import opened FileEntries

  const BLOCK: nat := 512
  const NAME_SIZE: nat := 100
  const SIZE_AT: nat := 124
  const KIND_AT: nat := 156
  const MAGIC_AT: nat := 257

  /* ---------- octal numbers ---------- */

  predicate Octal(c: char) {
    '0' <= c <= '7'
  }

  function Digit(c: char): nat
    requires Octal(c)
  {
    c as int - '0' as int
  }

  /** `octal_to_int` from `at` on, with its 64-bit shifts. */
  function ParseOctal(m: seq<char>, at: nat, val: nat): nat
    requires at <= |m|
    decreases |m| - at
  {
    if at < |m| && Octal(m[at]) then ParseOctal(m, at + 1, (val * 8 + Digit(m[at])) % WORD) else val
  }

  predicate AllOctal(s: string) {
    forall i :: 0 <= i < |s| ==> Octal(s[i])
  }

  /** The number a string of octal digits stands for, after `val`. */
  function Number(s: string, val: nat): (r: nat)
    requires AllOctal(s)
    ensures r >= val
    decreases s
  {
    if s == "" then val else Number(s[1..], val * 8 + Digit(s[0]))
  }

  lemma {:induction false} NumberSnoc(s: string, c: char, val: nat)
    requires AllOctal(s) && Octal(c)
    ensures AllOctal(s + [c]) && Number(s + [c], val) == Number(s, val) * 8 + Digit(c)
    decreases s
  {
    if s == "" {
      assert s + [c] == [c] && [c][1..] == "";
    } else {
      assert (s + [c])[1..] == s[1..] + [c];
      NumberSnoc(s[1..], c, val * 8 + Digit(s[0]));
    }
  }

  /** The loop reads the digits up to the first character that is not one. */
  lemma {:induction false} ParseRun(m: seq<char>, at: nat, digits: string, val: nat)
    requires at + |digits| < |m| && m[at..at + |digits|] == digits && !Octal(m[at + |digits|])
    requires AllOctal(digits) && Number(digits, val) < WORD
    ensures ParseOctal(m, at, val) == Number(digits, val)
    decreases digits
  {
    if digits != "" {
      var next := val * 8 + Digit(digits[0]);
      assert m[at] == digits[0];
      assert m[at + 1..at + |digits|] == digits[1..];
      assert next % WORD == next;
      ParseRun(m, at + 1, digits[1..], next);
    }
  }

  function Pow8(n: nat): (r: nat)
    ensures r > 0
  {
    if n == 0 then 1 else 8 * Pow8(n - 1)
  }

  /** The lowest `n` octal digits of `v`. */
  function OctalDigits(v: nat, n: nat): (s: string)
    ensures |s| == n && AllOctal(s)
    decreases n
  {
    if n == 0 then "" else OctalDigits(v / 8, n - 1) + [('0' as int + v % 8) as char]
  }

  lemma {:induction false} NumberOfDigits(v: nat, n: nat)
    requires v < Pow8(n)
    ensures Number(OctalDigits(v, n), 0) == v
    decreases n
  {
    if n > 0 {
      NumberOfDigits(v / 8, n - 1);
      NumberSnoc(OctalDigits(v / 8, n - 1), ('0' as int + v % 8) as char, 0);
    }
  }

  /* ---------- the walk ---------- */

  /** `(size + 511) & ~511`. */
  function Round(size: nat): (r: nat)
    ensures r % BLOCK == 0 && size <= r < size + BLOCK
  {
    (size + 511) / 512 * 512
  }

  /** The length of the string that starts the field. */
  function Length(field: string): (n: nat)
    ensures n <= |field| && NoNul(field[..n]) && (n < |field| ==> field[n] == NUL)
  {
    if field == "" || field[0] == NUL then 0
    else
      var n := 1 + Length(field[1..]);
      assert field[..n] == [field[0]] + field[1..][..n - 1];
      n
  }

  /** A leading "./" goes. */
  function DropDot(name: string): string {
    if |name| >= 2 && name[0] == '.' && name[1] == '/' then name[2..] else name
  }

  /** One trailing slash goes. */
  function DropSlash(name: string): string {
    if name != "" && name[|name| - 1] == '/' then name[..|name| - 1] else name
  }

  /** The call made for one entry: none for the bare "./". */
  function CallFor(name: string, kind: char, data: string): seq<Call> {
    if DropDot(name) == "" then []
    else [Call(DropSlash(DropDot(name)), kind == '5', if kind == '5' then "" else data)]
  }

  /** A name after "./" is the path of the call, without one slash at its end; the bare "./" makes no call. */
  lemma {:induction false} DottedName(n: string, kind: char, data: string)
    requires n != ""
    ensures CallFor("./", kind, data) == []
    ensures CallFor("./" + n, kind, data)
         == [Call(if n[|n| - 1] == '/' then n[..|n| - 1] else n, kind == '5', if kind == '5' then "" else data)]
  {
    assert ("./" + n)[2..] == n;
  }

  /** A name without "./" in front is the path itself, without one slash at its end. */
  lemma {:induction false} PlainName(n: string, kind: char, data: string)
    requires n != "" && !(|n| >= 2 && n[0] == '.' && n[1] == '/')
    ensures CallFor(n, kind, data)
         == [Call(if n[|n| - 1] == '/' then n[..|n| - 1] else n, kind == '5', if kind == '5' then "" else data)]
  {
  }

  /** The loop reaches a header: not past the end, not an empty name. */
  predicate More(m: seq<char>, offset: nat) {
    offset < |m| && m[offset] != NUL
  }

  /** The whole header lies in the archive. */
  predicate HasHeader(m: seq<char>, offset: nat) {
    offset + BLOCK <= |m|
  }

  predicate Magic(m: seq<char>, offset: nat)
    requires HasHeader(m, offset)
  {
    m[offset + MAGIC_AT..offset + MAGIC_AT + 5] == "ustar"
  }

  function SizeAt(m: seq<char>, offset: nat): nat
    requires HasHeader(m, offset)
  {
    ParseOctal(m, offset + SIZE_AT, 0)
  }

  function NameAt(m: seq<char>, offset: nat): (s: string)
    requires HasHeader(m, offset)
    ensures NoNul(s) && |s| <= NAME_SIZE
  {
    var field := m[offset..offset + NAME_SIZE];
    field[..Length(field)]
  }

  /** The entry can be read: its name ends inside its field, its file contents lie in the archive and the next offset
      fits in 64 bits. */
  predicate Readable(m: seq<char>, offset: nat)
    requires HasHeader(m, offset)
  {
    && |NameAt(m, offset)| < NAME_SIZE
    && (m[offset + KIND_AT] == '5' || DropDot(NameAt(m, offset)) == "" || offset + BLOCK + SizeAt(m, offset) <= |m|)
    && offset + BLOCK + SizeAt(m, offset) + 511 < WORD
  }

  function CallAt(m: seq<char>, offset: nat): seq<Call>
    requires HasHeader(m, offset) && Readable(m, offset)
  {
    var from, name, kind := offset + BLOCK, NameAt(m, offset), m[offset + KIND_AT];
    CallFor(name, kind, if kind == '5' || DropDot(name) == "" then "" else m[from..from + SizeAt(m, offset)])
  }

  /** How the loop of `initrd_init` goes: it reads outside the archive, or it adds entries and then ends, or faults on
      data that cannot be stored. */
  datatype Loading = Outside | Ended(calls: seq<Call>, fault: bool)

  /** The call at this header faults. */
  predicate Faulty(calls: seq<Call>) {
    calls != [] && !Stored(calls[0])
  }

  /** The loop from `offset` on. */
  function Walk(m: seq<char>, offset: nat): Loading
    decreases |m| - offset
  {
    if !More(m, offset) then Ended([], false)
    else if !HasHeader(m, offset) then Outside
    else if !Magic(m, offset) then Ended([], false)
    else if !Readable(m, offset) then Outside
    else if Faulty(CallAt(m, offset)) then Ended([], true)
    else
      match Walk(m, offset + BLOCK + Round(SizeAt(m, offset)))
      case Outside => Outside
      case Ended(rest, fault) => Ended(CallAt(m, offset) + rest, fault)
  }

  /** Two archives agree from `at` on. */
  predicate Agree(m: seq<char>, w: seq<char>, at: nat) {
    |m| == |w| && forall k :: at <= k < |m| ==> m[k] == w[k]
  }

  lemma {:induction false} ParseAgrees(m: seq<char>, w: seq<char>, at: nat, val: nat)
    requires Agree(m, w, at) && at <= |m|
    ensures ParseOctal(m, at, val) == ParseOctal(w, at, val)
    decreases |m| - at
  {
    if at < |m| && Octal(m[at]) {
      ParseAgrees(m, w, at + 1, (val * 8 + Digit(m[at])) % WORD);
    }
  }

  lemma {:induction false} HeaderAgrees(m: seq<char>, w: seq<char>, offset: nat)
    requires Agree(m, w, offset) && HasHeader(m, offset)
    ensures Magic(m, offset) == Magic(w, offset) && SizeAt(m, offset) == SizeAt(w, offset)
    ensures NameAt(m, offset) == NameAt(w, offset) && m[offset + KIND_AT] == w[offset + KIND_AT]
  {
    hide ParseOctal, Length;
    ParseAgrees(m, w, offset + SIZE_AT, 0);
    assert m[offset..offset + NAME_SIZE] == w[offset..offset + NAME_SIZE];
    assert m[offset + MAGIC_AT..offset + MAGIC_AT + 5] == w[offset + MAGIC_AT..offset + MAGIC_AT + 5];
  }

  /** The walk from an offset sees nothing before it: edits to headers already passed change no later call. */
  lemma {:induction false} WalkAgrees(m: seq<char>, w: seq<char>, offset: nat)
    requires Agree(m, w, offset)
    ensures Walk(m, offset) == Walk(w, offset)
    decreases |m| - offset
  {
    hide SizeAt, NameAt, Magic, DropDot, CallFor;
    if More(m, offset) && HasHeader(m, offset) {
      HeaderAgrees(m, w, offset);
      if Magic(m, offset) && Readable(m, offset) {
        var from, size := offset + BLOCK, SizeAt(m, offset);
        WalkAgrees(m, w, from + Round(size));
        if from + size <= |m| { assert m[from..from + size] == w[from..from + size]; }
      }
    }
  }

  /* ---------- the encoder ---------- */

  /** An archive member: what the loader uses, and the rest of its header, which it must not depend on. */
  datatype Entry = Entry(name: string, kind: char, data: string,
    ids: string, stop: char, stamps: string, link: string, rest: string, pad: string)

  /** Names under 100 characters, sizes in 11 octal digits, fields of their fixed lengths. */
  predicate WellFormed(e: Entry) {
    && 1 <= |e.name| < NAME_SIZE && NoNul(e.name) && |e.data| < Pow8(11)
    && |e.ids| == 24 && !Octal(e.stop) && |e.stamps| == 20 && |e.link| == 100 && |e.rest| == 250
    && |e.data| + |e.pad| == Round(|e.data|)
  }

  function Zeros(n: nat): (s: string)
    ensures |s| == n && (n > 0 ==> s[0] == NUL)
  {
    if n == 0 then "" else [NUL] + Zeros(n - 1)
  }

  function NameField(e: Entry): (s: string)
    requires |e.name| < NAME_SIZE
    ensures |s| == NAME_SIZE
  {
    e.name + Zeros(NAME_SIZE - |e.name|)
  }

  function Header(e: Entry): (h: string)
    requires WellFormed(e)
    ensures |h| == BLOCK
  {
    NameField(e) + e.ids + OctalDigits(|e.data|, 11) + [e.stop] + e.stamps + [e.kind] + e.link + "ustar" + e.rest
  }

  function EncodeEntry(e: Entry): (s: string)
    requires WellFormed(e)
    ensures |s| == BLOCK + Round(|e.data|)
  {
    Header(e) + e.data + e.pad
  }

  function Encode(entries: seq<Entry>): string
    requires forall e :: e in entries ==> WellFormed(e)
  {
    if entries == [] then "" else EncodeEntry(entries[0]) + Encode(entries[1..])
  }

  /** The calls the entries ask for, in order. */
  function Calls(entries: seq<Entry>): seq<Call> {
    if entries == [] then [] else CallFor(entries[0].name, entries[0].kind, entries[0].data) + Calls(entries[1..])
  }

  /* ---------- the walk inverts the encoder ---------- */

  /** `m` holds `field` at `at`. */
  predicate Holds(m: seq<char>, at: nat, field: string) {
    at + |field| <= |m| && m[at..at + |field|] == field
  }

  lemma {:induction false} HoldsMiddle(before: string, field: string, after: string)
    ensures Holds(before + field + after, |before|, field)
  {
  }

  lemma {:induction false} HoldsInside(m: seq<char>, at: nat, outer: string, inner: nat, field: string)
    requires Holds(m, at, outer) && Holds(outer, inner, field)
    ensures Holds(m, at + inner, field)
  {
    forall i | 0 <= i < |field|
      ensures m[at + inner + i] == field[i]
    {
      assert m[at..at + |outer|][inner + i] == outer[inner..inner + |field|][i];
    }
  }

  lemma {:induction false} HeaderFields(e: Entry)
    requires WellFormed(e)
    ensures Holds(Header(e), 0, NameField(e))
    ensures Holds(Header(e), SIZE_AT, OctalDigits(|e.data|, 11) + [e.stop])
    ensures Holds(Header(e), KIND_AT, [e.kind])
    ensures Holds(Header(e), MAGIC_AT, "ustar")
  {
    hide OctalDigits, NameField, Pow8, Round;
    var name, size, h := NameField(e), OctalDigits(|e.data|, 11) + [e.stop], Header(e);
    var tail := e.stamps + [e.kind] + e.link + "ustar" + e.rest;
    assert h == "" + name + (e.ids + size + tail);
    HoldsMiddle("", name, e.ids + size + tail);
    assert h == (name + e.ids) + size + tail;
    HoldsMiddle(name + e.ids, size, tail);
    assert h == (name + e.ids + size + e.stamps) + [e.kind] + (e.link + "ustar" + e.rest);
    HoldsMiddle(name + e.ids + size + e.stamps, [e.kind], e.link + "ustar" + e.rest);
    assert h == (name + e.ids + size + e.stamps + [e.kind] + e.link) + "ustar" + e.rest;
    HoldsMiddle(name + e.ids + size + e.stamps + [e.kind] + e.link, "ustar", e.rest);
  }

  lemma {:induction false} LengthOf(name: string, n: nat)
    requires NoNul(name) && n > 0
    ensures Length(name + Zeros(n)) == |name|
    decreases name
  {
    if name != "" {
      assert (name + Zeros(n))[1..] == name[1..] + Zeros(n);
      LengthOf(name[1..], n);
    }
  }

  /** An archive that holds an encoded entry holds its fields. */
  lemma {:induction false} EntryFields(m: seq<char>, at: nat, e: Entry)
    requires WellFormed(e) && Holds(m, at, EncodeEntry(e))
    ensures Holds(m, at, NameField(e)) && Holds(m, at + SIZE_AT, OctalDigits(|e.data|, 11) + [e.stop])
    ensures Holds(m, at + KIND_AT, [e.kind]) && Holds(m, at + MAGIC_AT, "ustar") && Holds(m, at + BLOCK, e.data)
    ensures at + BLOCK + |e.data| <= |m|
  {
    hide OctalDigits, Pow8, Zeros, Header, NameField, Holds;
    var h, size := Header(e), OctalDigits(|e.data|, 11) + [e.stop];
    Parts(e);
    HoldsInside(m, at, EncodeEntry(e), 0, h);
    HoldsInside(m, at, EncodeEntry(e), BLOCK, e.data);
    HeaderFields(e);
    HoldsInside(m, at, h, 0, NameField(e));
    HoldsInside(m, at, h, SIZE_AT, size);
    HoldsInside(m, at, h, KIND_AT, [e.kind]);
    HoldsInside(m, at, h, MAGIC_AT, "ustar");
    HoldsFits(m, at + BLOCK, e.data);
  }

  lemma {:induction false} HoldsFits(m: seq<char>, at: nat, field: string)
    requires Holds(m, at, field)
    ensures at + |field| <= |m|
  {
  }

  lemma {:induction false} Parts(e: Entry)
    requires WellFormed(e)
    ensures Holds(EncodeEntry(e), 0, Header(e)) && Holds(EncodeEntry(e), BLOCK, e.data)
  {
    hide Header, WellFormed;
    HoldsMiddle("", Header(e), e.data + e.pad);
    assert EncodeEntry(e) == "" + Header(e) + (e.data + e.pad);
    HoldsMiddle(Header(e), e.data, e.pad);
  }

  lemma {:induction false} NameRead(m: seq<char>, at: nat, e: Entry)
    requires 1 <= |e.name| < NAME_SIZE && NoNul(e.name) && HasHeader(m, at) && Holds(m, at, NameField(e))
    ensures NameAt(m, at) == e.name && More(m, at)
  {
    hide Zeros, Length;
    LengthOf(e.name, NAME_SIZE - |e.name|);
    assert NameField(e)[..|e.name|] == e.name;
    assert m[at] == m[at..at + NAME_SIZE][0];
  }

  /** What the loader reads at an encoded entry. */
  lemma {:induction false} ReadsEntry(m: seq<char>, at: nat, e: Entry)
    requires WellFormed(e) && Holds(m, at, EncodeEntry(e)) && |m| + 1023 < WORD
    ensures More(m, at) && HasHeader(m, at) && Magic(m, at) && Readable(m, at)
    ensures SizeAt(m, at) == |e.data| && CallAt(m, at) == CallFor(e.name, e.kind, e.data)
  {
    hide OctalDigits, Pow8, EncodeEntry, NameField, NameAt, SizeAt, More, DropDot, DropSlash;
    EntryFields(m, at, e);
    NameRead(m, at, e);
    SizeRead(m, at, e);
    assert m[at + KIND_AT] == m[at + KIND_AT..at + KIND_AT + 1][0];
  }

  lemma {:induction false} SizeRead(m: seq<char>, at: nat, e: Entry)
    requires |e.data| < Pow8(11) && !Octal(e.stop) && Holds(m, at + SIZE_AT, OctalDigits(|e.data|, 11) + [e.stop])
    requires HasHeader(m, at) && |e.data| < WORD
    ensures SizeAt(m, at) == |e.data|
  {
    hide OctalDigits, Pow8;
    var size, s := OctalDigits(|e.data|, 11), at + SIZE_AT;
    NumberOfDigits(|e.data|, 11);
    assert (size + [e.stop])[..11] == size && (size + [e.stop])[11] == e.stop;
    assert m[s..s + 12][11] == e.stop;
    assert m[s..s + 11] == m[s..s + 12][..11];
    ParseRun(m, s, size, 0);
  }

  lemma {:induction false} WalkStops(m: seq<char>, at: nat)
    requires !More(m, at)
    ensures Walk(m, at) == Ended([], false)
  {
  }

  /** What ends an archive: nothing, an empty name, or a whole block without the magic. */
  predicate NoEntry(tail: string) {
    tail == "" || tail[0] == NUL || (|tail| >= 512 && tail[257..262] != "ustar")
  }

  lemma {:induction false} WalkEnds(before: string, tail: string)
    requires NoEntry(tail)
    ensures Walk(before + tail, |before|) == Ended([], false)
  {
    var m, at := before + tail, |before|;
    if More(m, at) && HasHeader(m, at) {
      assert m[at + MAGIC_AT..at + MAGIC_AT + 5] == tail[257..262];
    }
  }

  lemma {:induction false} WalkStep(m: seq<char>, at: nat, e: Entry)
    requires WellFormed(e) && Holds(m, at, EncodeEntry(e)) && |m| + 1023 < WORD
    ensures var calls, rest := CallFor(e.name, e.kind, e.data), Walk(m, at + BLOCK + Round(|e.data|));
      Walk(m, at) == if Faulty(calls) then Ended([], true)
        else if rest.Ended? then Ended(calls + rest.calls, rest.fault) else Outside
  {
    hide EncodeEntry, WellFormed, Readable, CallAt, SizeAt, Magic, Holds, Round, CallFor;
    ReadsEntry(m, at, e);
  }

  lemma {:induction false} Regroup(before: string, code: string, more: string, tail: string)
    ensures before + (code + more) + tail == before + code + (more + tail)
    ensures before + (code + more) + tail == (before + code) + more + tail
  {
  }

  lemma {:induction false} OneCall(e: Entry)
    ensures |CallFor(e.name, e.kind, e.data)| <= 1
  {
  }

  /** The first fault of calls that start with at most one call for one entry. */
  lemma {:induction false} FaultAfter(first: seq<Call>, rest: seq<Call>)
    requires |first| <= 1
    ensures var k := FirstFault(first + rest);
      if Faulty(first) then k == 0 && |first + rest| > 0
      else k == |first| + FirstFault(rest) && (first + rest)[..k] == first + rest[..FirstFault(rest)]
  {
    if first == [] {
      assert first + rest == rest;
    } else {
      assert (first + rest)[0] == first[0] && (first + rest)[1..] == rest;
    }
  }

  /** Walking an encoded archive adds exactly the entries before the first file that cannot be stored, in order, and
      faults if and only if there is one, whatever else the headers hold. */
  lemma {:induction false} WalkInvertsEncode(before: string, entries: seq<Entry>, tail: string)
    requires forall e :: e in entries ==> WellFormed(e)
    requires NoEntry(tail) && |before + Encode(entries) + tail| + 1023 < WORD
    ensures var calls := Calls(entries);
      var k := FirstFault(calls);
      Walk(before + Encode(entries) + tail, |before|) == Ended(calls[..k], k < |calls|)
    decreases entries
  {
    hide EncodeEntry, WellFormed, Walk, Round, Holds, CallFor, FirstFault, Stored, NoEntry;
    var m := before + Encode(entries) + tail;
    if entries == [] {
      assert m == before + tail;
      WalkEnds(before, tail);
    } else {
      var e, code := entries[0], EncodeEntry(entries[0]);
      assert Encode(entries) == code + Encode(entries[1..]);
      Regroup(before, code, Encode(entries[1..]), tail);
      HoldsMiddle(before, code, Encode(entries[1..]) + tail);
      WalkStep(m, |before|, e);
      OneCall(e);
      FaultAfter(CallFor(e.name, e.kind, e.data), Calls(entries[1..]));
      WalkInvertsEncode(before + code, entries[1..], tail);
    }
  }

  /** An archive whose calls are a listing, walked into an empty tree: an entry is found by its path, with its kind and
      its bytes, if and only if no file at or before it has 1001 to 1024 bytes. The loader ends without a fault if and
      only if there is no such file in the archive. */
  lemma {:induction false} ListingArchiveLoads(entries: seq<Entry>, tail: string, i: nat)
    requires forall e :: e in entries ==> WellFormed(e)
    requires NoEntry(tail) && |Encode(entries) + tail| + 1023 < WORD
    requires Listing(Calls(entries)) && i < |Calls(entries)|
    ensures var calls, walk := Calls(entries), Walk(Encode(entries) + tail, 0);
      && walk.Ended?
      && var fs := AddAll(EMPTY_FS, walk.calls);
      && (walk.fault <==> exists j :: 0 <= j < |calls| && !Stored(calls[j]))
      && (FindPath(fs, calls[i].path) == None <==> exists j :: 0 <= j <= i && !Stored(calls[j]))
      && (FindPath(fs, calls[i].path) != None ==>
            FindPath(fs, calls[i].path) == Some(i + 1) && i + 1 < |fs| && Loaded(fs, calls, i))
  {
    hide Encode, Walk, Calls, Listing, Loaded, WellFormed, FindPath, Stored, FirstFault;
    assert "" + Encode(entries) + tail == Encode(entries) + tail;
    WalkInvertsEncode("", entries, tail);
    ListingLoads(Calls(entries), i);
    var calls := Calls(entries);
    assert FirstFault(calls) < |calls| ==> !Stored(calls[FirstFault(calls)]);
  }

  /* ---------- an archive that does not load ---------- */

  /** An entry with the given name and bytes, everything else blank. */
  function PlainFile(name: string, data: string): Entry {
    Entry(name, '0', data, Zeros(24), NUL, Zeros(20), Zeros(100), Zeros(250), Zeros(Round(|data|) - |data|))
  }

  lemma {:induction false} EnoughDigits()
    ensures Pow8(11) > 2000
  {
    assert Pow8(4) == 8 * Pow8(3) == 64 * Pow8(2) == 512 * Pow8(1) == 4096 * Pow8(0);
    assert Pow8(8) == 8 * Pow8(7) == 64 * Pow8(6) == 512 * Pow8(5) == 4096 * Pow8(4);
    assert Pow8(11) == 8 * Pow8(10) == 64 * Pow8(9) == 512 * Pow8(8);
  }

  /** Two files, the first of 1010 bytes: the loader faults on it, and neither file is found. */
  lemma {:induction false} SmallGapArchive()
    ensures
      var a, b := PlainFile("a", Zeros(1010)), PlainFile("b", "x");
      && WellFormed(a) && WellFormed(b)
      && var m := Encode([a, b]) + Zeros(1024);
      && Walk(m, 0) == Ended([], true)
      && FindPath(AddAll(EMPTY_FS, []), "a") == None && FindPath(AddAll(EMPTY_FS, []), "b") == None
  {
    hide Pow8, Zeros, Encode, Walk;
    EnoughDigits();
    var a, b := PlainFile("a", Zeros(1010)), PlainFile("b", "x");
    assert WellFormed(a) && WellFormed(b);
    GapArchiveWalk(a, b);
    EmptyFinds("a");
    EmptyFinds("b");
  }

  lemma {:induction false} GapArchiveWalk(a: Entry, b: Entry)
    requires WellFormed(a) && WellFormed(b) && a.name == "a" && a.kind == '0' && 1001 <= |a.data| <= 1024
    requires |b.data| < 2000
    ensures Walk(Encode([a, b]) + Zeros(1024), 0) == Ended([], true)
  {
    hide Pow8, Zeros, Walk, WellFormed, EncodeEntry, Round;
    var entries, tail := [a, b], Zeros(1024);
    assert [a, b][1..] == [b] && [b][1..] == [];
    assert Encode([]) == "";
    assert Encode([b]) == EncodeEntry(b) + Encode([b][1..]);
    assert Encode(entries) == EncodeEntry(a) + Encode(entries[1..]);
    assert "" + Encode(entries) + tail == Encode(entries) + tail;
    WalkInvertsEncode("", entries, tail);
    assert CallFor(a.name, a.kind, a.data) == [Call("a", false, a.data)];
    assert Calls(entries)[0] == Call("a", false, a.data);
  }

  lemma {:induction false} EmptyFinds(name: string)
    requires |name| == 1 && name[0] != '/'
    ensures FindPath(AddAll(EMPTY_FS, []), name) == None
  {
    WordIsComponent(name, "");
    assert name + "" == name;
    NoComponents();
  }
}
