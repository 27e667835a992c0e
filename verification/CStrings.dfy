/** NUL-terminated strings and the byte loops over them (kernel/src/lib/string.c). */
module CStrings {
  const NUL: char := '\0'

  predicate NoNul(s: string) {
    forall i :: 0 <= i < |s| ==> s[i] != NUL
  }

  /** The C string that starts at `at` in memory `m` is `s`. */
  predicate StrAt(m: seq<char>, at: nat, s: string) {
    at + |s| < |m| && m[at..at + |s|] == s && m[at + |s|] == NUL && NoNul(s)
  }

  lemma {:induction false} CharOfStr(m: seq<char>, at: nat, s: string, i: nat)
    requires StrAt(m, at, s) && i <= |s|
    ensures at + |s| < |m| && (m[at + i] == NUL <==> i == |s|)
    ensures i < |s| ==> m[at + i] == s[i]
  {
    if i < |s| { assert m[at + i] == m[at..at + |s|][i]; }
  }

  /** Memory holds at most one string at a place. */
  lemma {:induction false} StrUnique(m: seq<char>, at: nat, s: string, t: string)
    requires StrAt(m, at, s) && StrAt(m, at, t)
    ensures s == t
  {
    if |s| < |t| {
      CharOfStr(m, at, t, |s|);
    } else if |t| < |s| {
      CharOfStr(m, at, s, |t|);
    }
  }

  method StrLen(m: seq<char>, at: nat, ghost s: string) returns (n: nat)
    requires StrAt(m, at, s)
    ensures n == |s|
  {
    n := 0;
    CharOfStr(m, at, s, 0);
    while m[at + n] != NUL
      invariant n <= |s| && (m[at + n] == NUL <==> n == |s|)
      decreases |s| - n
    {
      n := n + 1;
      CharOfStr(m, at, s, n);
    }
  }

  /** Lexicographic order, a proper prefix first. */
  function Compare(s: string, t: string): int
    decreases s
  {
    if s == "" then (if t == "" then 0 else -1)
    else if t == "" then 1
    else if s[0] != t[0] then (if s[0] < t[0] then -1 else 1)
    else Compare(s[1..], t[1..])
  }

  lemma {:induction false} CompareEqual(s: string, t: string)
    ensures Compare(s, t) == 0 <==> s == t
    ensures Compare(t, s) == -Compare(s, t)
    decreases s
  {
    if s != "" && t != "" && s[0] == t[0] {
      CompareEqual(s[1..], t[1..]);
      assert s == [s[0]] + s[1..] && t == [t[0]] + t[1..];
    }
  }

  method StrCmp(cs: seq<char>, ct: seq<char>, ghost s: string, ghost t: string) returns (r: int)
    requires StrAt(cs, 0, s) && StrAt(ct, 0, t)
    ensures r == Compare(s, t)
    ensures r == 0 <==> s == t
  {
    CompareEqual(s, t);
    var i := 0;
    while true
      invariant i <= |s| && i <= |t|
      invariant Compare(s, t) == Compare(s[i..], t[i..])
      decreases |s| - i
    {
      CharOfStr(cs, 0, s, i);
      CharOfStr(ct, 0, t, i);
      var c1, c2 := cs[i], ct[i];
      i := i + 1;
      if c1 != c2 {
        return if c1 < c2 then -1 else 1;
      }
      if c1 == NUL { break; }
      assert s[i - 1..][1..] == s[i..] && t[i - 1..][1..] == t[i..];
    }
    r := 0;
  }

  method StrCpy(dest: array<char>, src: seq<char>, at: nat, ghost s: string)
    requires StrAt(src, at, s) && |s| < dest.Length
    modifies dest
    ensures StrAt(dest[..], 0, s)
    ensures forall i :: |s| < i < dest.Length ==> dest[i] == old(dest[i])
  {
    var i := 0;
    while true
      invariant i <= |s| && dest[..i] == s[..i]
      invariant forall k :: i <= k < dest.Length ==> dest[k] == old(dest[k])
      decreases |s| - i
    {
      CharOfStr(src, at, s, i);
      dest[i] := src[at + i];
      i := i + 1;
      if dest[i - 1] == NUL { break; }
    }
    assert dest[..|s|] == s;
  }

  /** The last place of `c`, the terminator included, or -1. */
  method StrRChr(m: seq<char>, c: char, ghost s: string) returns (last: int)
    requires StrAt(m, 0, s)
    ensures -1 <= last <= |s|
    ensures last >= 0 ==> m[last] == c
    ensures forall i :: last < i <= |s| ==> m[i] != c
  {
    last := -1;
    var i := 0;
    while true
      invariant 0 <= i <= |s| && -1 <= last < i
      invariant last >= 0 ==> m[last] == c
      invariant forall k :: last < k < i ==> m[k] != c
      decreases |s| - i
    {
      if m[i] == c { last := i; }
      CharOfStr(m, 0, s, i);
      i := i + 1;
      if m[i - 1] == NUL { break; }
    }
  }

  method MemCpy(dest: array<char>, src: seq<char>, from: nat, n: nat)
    requires from + n <= |src| && n <= dest.Length
    modifies dest
    ensures dest[..n] == src[from..from + n]
    ensures forall i :: n <= i < dest.Length ==> dest[i] == old(dest[i])
  {
    for i := 0 to n
      invariant dest[..i] == src[from..from + i]
      invariant forall k :: i <= k < dest.Length ==> dest[k] == old(dest[k])
    {
      dest[i] := src[from + i];
      assert dest[..i + 1] == dest[..i] + [src[from + i]];
    }
  }

  method MemCmp(m: seq<char>, at: nat, t: seq<char>, n: nat) returns (r: int)
    requires at + n <= |m| && n <= |t|
    ensures r == Compare(m[at..at + n], t[..n])
    ensures r == 0 <==> m[at..at + n] == t[..n]
  {
    ghost var u, v := m[at..at + n], t[..n];
    CompareEqual(u, v);
    for i := 0 to n
      invariant Compare(u, v) == Compare(u[i..], v[i..])
    {
      assert u[i] == m[at + i] && v[i] == t[i];
      if m[at + i] != t[i] {
        return if m[at + i] < t[i] then -1 else 1;
      }
      assert u[i..][1..] == u[i + 1..] && v[i..][1..] == v[i + 1..];
    }
    r := 0;
  }
}
