/**
 The character buffer of the string pools: strings with their terminators, one behind the
 other. A pool maps each of its strings to the offset where it is stored.
 */
module StringBuffer {
  import opened BitSequence
  import opened Wrappers

  /** buf_reserve: double the buffer until `add` more bytes fit; what is there stays. */
  method Reserve(buf: array<byte>, size: nat, add: nat) returns (grown: array<byte>)
    requires size <= buf.Length
    ensures grown == buf || fresh(grown)
    ensures size + add <= grown.Length && buf.Length <= grown.Length && grown[..buf.Length] == buf[..]
  {
    if size + add <= buf.Length {
      return buf;
    }
    var new_cap := if buf.Length != 0 then buf.Length * 2 else 64;
    while new_cap < size + add
      invariant new_cap >= buf.Length && new_cap > 0
      decreases size + add - new_cap
    {
      new_cap := new_cap * 2;
    }
    grown := new byte[new_cap](i requires 0 <= i < new_cap reads buf => if i < buf.Length then buf[i] else 0);
  }

  /** Append a string and its terminator. */
  method Append(buf: array<byte>, size: nat, data: seq<byte>)
    requires size + |data| + 1 <= buf.Length
    modifies buf
    ensures buf[..size] == old(buf[..size]) && buf[size..size + |data|] == data && buf[size + |data|] == 0
  {
    for i := 0 to |data|
      invariant buf[..size] == old(buf[..size])
      invariant forall j :: 0 <= j < i ==> buf[size + j] == data[j]
    {
      buf[size + i] := data[i];
    }
    buf[size + |data|] := 0;
  }

  // ----- strings at offsets

  /** String `s` and its terminator are at `off`. */
  predicate Stored(buf: seq<byte>, size: nat, s: seq<byte>, off: nat) {
    s != [] && off + |s| < size <= |buf| && buf[off..off + |s|] == s && buf[off + |s|] == 0
  }

  /** A pool of strings: all of them stored, no two at one offset. */
  ghost predicate Pooled(buf: seq<byte>, size: nat, m: map<seq<byte>, nat>) {
    && (forall s :: s in m ==> Stored(buf, size, s, m[s]))
    && (forall s, u :: s in m && u in m && m[s] == m[u] ==> s == u)
  }

  lemma {:induction false} StoredKept(buf: seq<byte>, size: nat, buf': seq<byte>, size': nat, s: seq<byte>, off: nat)
    requires Stored(buf, size, s, off) && size <= size' <= |buf'| && buf'[..size] == buf[..size]
    ensures Stored(buf', size', s, off)
  {
    var front := buf[..size];
    assert buf'[off..off + |s|] == front[off..off + |s|] == buf[off..off + |s|];
    assert buf'[off + |s|] == front[off + |s|];
  }

  lemma {:induction false} StoredLast(buf: seq<byte>, size: nat, s: seq<byte>, size': nat)
    requires s != [] && size' == size + |s| + 1 <= |buf| && buf[size..size + |s|] == s && buf[size + |s|] == 0
    ensures Stored(buf, size', s, size)
  {}

  lemma {:induction false} StoredBelow(buf: seq<byte>, size: nat, s: seq<byte>, off: nat)
    requires Stored(buf, size, s, off)
    ensures off < size
  {}

  /** Adding a string behind everything else. */
  lemma {:induction false} PoolAdd(buf: seq<byte>, size: nat, m: map<seq<byte>, nat>, data: seq<byte>,
                                   buf': seq<byte>, size': nat)
    requires Pooled(buf, size, m) && data != [] && size <= |buf| && size' == size + |data| + 1
    requires size' <= |buf'| && buf'[..size] == buf[..size]
    requires buf'[size..size + |data|] == data && buf'[size + |data|] == 0
    ensures Pooled(buf', size', m[data := size])
  {
    hide Stored;
    var m' := m[data := size];
    forall s | s in m' ensures Stored(buf', size', s, m'[s]) {
      if s != data {
        assert s in m;
        StoredKept(buf, size, buf', size', s, m[s]);
      } else {
        StoredLast(buf', size, data, size');
      }
    }
    forall s, u | s in m' && u in m' && m'[s] == m'[u] ensures s == u {
      if s != u {
        var other := if s == data then u else s;
        assert other in m;
        StoredBelow(buf, size, other, m[other]);
      }
    }
  }

  /** Copy a string and its terminator behind everything else. */
  method Store(buf: array<byte>, size: nat, data: seq<byte>, ghost m: map<seq<byte>, nat>) returns (grown: array<byte>)
    requires size <= buf.Length && Pooled(buf[..], size, m) && data != []
    modifies buf
    ensures grown == buf || fresh(grown)
    ensures size + |data| + 1 <= grown.Length && grown[size + |data|] == 0 && grown[..size] == old(buf[..size])
    ensures Pooled(grown[..], size + |data| + 1, m[data := size])
  {
    hide Pooled;
    ghost var before := buf[..];
    grown := Reserve(buf, size, |data| + 1);
    assert grown[..size] == before[..size];
    Append(grown, size, data);
    assert grown[..][..size] == grown[..size] && grown[..][size..size + |data|] == grown[size..size + |data|];
    PoolAdd(before, size, m, data, grown[..], size + |data| + 1);
  }

  /** The bytes from `off` up to the first NUL. */
  predicate IsUpToNul(buf: seq<byte>, off: nat, s: seq<byte>) {
    off + |s| < |buf| && buf[off..off + |s|] == s && 0 !in s && buf[off + |s|] == 0
  }

  lemma {:induction false} NoNulBefore(buf: seq<byte>, off: nat, r: seq<byte>, i: nat)
    requires IsUpToNul(buf, off, r) && i < |r|
    ensures buf[off + i] != 0
  {
    assert r[i] == buf[off..off + |r|][i];
  }

  /** A stored string reads back whole exactly if it has no NUL inside. */
  lemma {:induction false} ReadsBack(buf: seq<byte>, size: nat, s: seq<byte>, off: nat, r: seq<byte>)
    requires Stored(buf, size, s, off) && IsUpToNul(buf, off, r)
    ensures r == s <==> 0 !in s
    ensures |r| <= |s| && s[..|r|] == r
  {
    if |r| > |s| {
      NoNulBefore(buf, off, r, |s|);
    }
    assert s[..|r|] == buf[off..off + |s|][..|r|] == buf[off..off + |r|];
    if |r| < |s| {
      assert s[|r|] == buf[off..off + |s|][|r|] == buf[off + |r|];
    }
  }

  /** string_pool_get: the C string at an offset. */
  method GetString(buf: array<byte>, size: nat, offset: nat) returns (r: Option<seq<byte>>)
    requires size <= buf.Length && (size > 0 ==> buf[size - 1] == 0)
    ensures r.None? <==> offset >= size
    ensures r.Some? ==> IsUpToNul(buf[..size], offset, r.value)
  {
    if offset >= size {
      return None;
    }
    var len := 0;
    while buf[offset + len] != 0
      invariant offset + len < size && forall j :: offset <= j < offset + len ==> buf[j] != 0
      decreases size - offset - len
    {
      assert offset + len != size - 1;
      len := len + 1;
    }
    r := Some(buf[offset..offset + len]);
    assert buf[..size][offset..offset + len] == buf[offset..offset + len];
  }

  /** string_pool_get_n: a range of the buffer, terminators and all. */
  method GetRange(buf: array<byte>, size: nat, offset: nat, length: nat) returns (r: Option<seq<byte>>)
    requires size <= buf.Length
    ensures r == if offset + length > size then None else Some(buf[..size][offset..offset + length])
  {
    if offset > size || length > size - offset {
      return None;
    }
    r := Some(buf[offset..offset + length]);
    assert buf[..size][offset..offset + length] == buf[offset..offset + length];
  }

  lemma {:induction false} StoredPrefix(buf: seq<byte>, size: nat, s: seq<byte>, off: nat)
    requires Stored(buf, size, s, off)
    ensures Stored(buf[..size], size, s, off)
  {
    assert buf[..size][off..off + |s|] == buf[off..off + |s|];
  }

  lemma {:induction false} StoredInside(buf: seq<byte>, size: nat, s: seq<byte>, off: nat)
    requires Stored(buf, size, s, off)
    ensures off + |s| < size <= |buf| && buf[off..off + |s|] == s
  {}
}
