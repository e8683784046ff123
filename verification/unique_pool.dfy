/**
 The pool that keeps references to its strings sorted and finds them by binary search.
 Strings are ordered by their bytes, a prefix before its extensions.
 */
module UniquePool {
  import opened BitSequence
  import opened PoolHistory
  import opened StringBuffer

  // ----- the order

  /** Negative, zero or positive as `a` comes before, is, or comes after `b`. */
  function Compare(a: seq<byte>, b: seq<byte>): int {
    if a == [] then (if b == [] then 0 else -1)
    else if b == [] then 1
    else if a[0] < b[0] then -1
    else if a[0] > b[0] then 1
    else Compare(a[1..], b[1..])
  }

  /** memcmp: the first difference decides. */
  function MemCmp(a: seq<byte>, b: seq<byte>): int
    requires |a| == |b|
  {
    if a == [] then 0
    else if a[0] < b[0] then -1
    else if a[0] > b[0] then 1
    else MemCmp(a[1..], b[1..])
  }

  /** What the search computes: memcmp over the common length, then the lengths. */
  lemma {:induction false} CompareByParts(a: seq<byte>, b: seq<byte>)
    ensures var n := if |a| < |b| then |a| else |b|;
      var c := MemCmp(a[..n], b[..n]);
      Compare(a, b) == if c != 0 then c else if |a| < |b| then -1 else if |a| > |b| then 1 else 0
  {
    if a != [] && b != [] && a[0] == b[0] {
      CompareByParts(a[1..], b[1..]);
      var n := if |a| < |b| then |a| else |b|;
      assert a[..n][1..] == a[1..][..n - 1] && b[..n][1..] == b[1..][..n - 1];
    }
  }

  lemma {:induction false} CompareZero(a: seq<byte>, b: seq<byte>)
    ensures Compare(a, b) == 0 <==> a == b
    ensures Compare(a, b) < 0 <==> Compare(b, a) > 0
  {
    if a != [] && b != [] {
      CompareZero(a[1..], b[1..]);
      assert a == [a[0]] + a[1..] && b == [b[0]] + b[1..];
    }
  }

  /** `a` and `b` agree on `k` bytes, and then `a` ends or has the smaller byte. */
  predicate PartsAt(a: seq<byte>, b: seq<byte>, k: nat) {
    k <= |a| && k < |b| && a[..k] == b[..k] && (k == |a| || a[k] < b[k])
  }

  /** The order is that of a dictionary. */
  lemma {:induction false} CompareIsLexicographic(a: seq<byte>, b: seq<byte>)
    ensures Compare(a, b) < 0 <==> exists k: nat :: PartsAt(a, b, k)
  {
    if a == [] && b != [] {
      assert PartsAt(a, b, 0);
    } else if a != [] && b != [] {
      CompareIsLexicographic(a[1..], b[1..]);
      assert a == [a[0]] + a[1..] && b == [b[0]] + b[1..];
      if a[0] < b[0] {
        assert PartsAt(a, b, 0);
      } else if a[0] == b[0] {
        if k: nat :| PartsAt(a[1..], b[1..], k) {
          assert a[..k + 1] == [a[0]] + a[1..][..k] && b[..k + 1] == [b[0]] + b[1..][..k];
          assert PartsAt(a, b, k + 1);
        }
        if k: nat :| PartsAt(a, b, k) {
          assert a[1..][..k - 1] == a[..k][1..] && b[1..][..k - 1] == b[..k][1..];
          assert PartsAt(a[1..], b[1..], k - 1);
        }
      }
    }
  }

  lemma {:induction false} CompareTransitive(a: seq<byte>, b: seq<byte>, c: seq<byte>)
    requires Compare(a, b) < 0 && Compare(b, c) <= 0
    ensures Compare(a, c) < 0
  {
    if a != [] && b != [] && c != [] && a[0] == b[0] == c[0] {
      CompareTransitive(a[1..], b[1..], c[1..]);
    }
  }

  ghost predicate Sorted(keys: seq<seq<byte>>) {
    forall i, j :: 0 <= i < j < |keys| ==> Compare(keys[i], keys[j]) < 0
  }

  /** `at` is where `data` is, or belongs. */
  ghost predicate IsPlace(keys: seq<seq<byte>>, data: seq<byte>, at: nat) {
    && at <= |keys|
    && (forall i :: 0 <= i < at ==> Compare(keys[i], data) < 0)
    && (forall i :: at <= i < |keys| ==> Compare(keys[i], data) >= 0)
  }

  /** One comparison decides for everything on one side. */
  lemma {:induction false} BothSides(keys: seq<seq<byte>>, mid: nat, data: seq<byte>)
    requires Sorted(keys) && mid < |keys|
    ensures Compare(keys[mid], data) < 0 ==> forall i :: 0 <= i <= mid ==> Compare(keys[i], data) < 0
    ensures Compare(keys[mid], data) >= 0 ==> forall i :: mid <= i < |keys| ==> Compare(keys[i], data) >= 0
  {
    hide Compare;
    forall i | 0 <= i < mid && Compare(keys[mid], data) < 0 ensures Compare(keys[i], data) < 0 {
      CompareTransitive(keys[i], keys[mid], data);
    }
    forall i | mid < i < |keys| && Compare(keys[mid], data) >= 0 ensures Compare(keys[i], data) >= 0 {
      if Compare(keys[i], data) < 0 {
        CompareTransitive(keys[mid], keys[i], data);
      }
    }
  }

  /** In a sorted list a string can only be at its place. */
  lemma {:induction false} FoundAtPlace(keys: seq<seq<byte>>, data: seq<byte>, at: nat)
    requires Sorted(keys) && IsPlace(keys, data, at)
    ensures data in keys <==> at < |keys| && keys[at] == data
  {
    if data in keys {
      var i :| 0 <= i < |keys| && keys[i] == data;
      CompareZero(data, data);
      assert at <= i;
      var c := Compare(keys[at], keys[i]);
    }
  }

  /** Inserting at the place of a new string keeps the list sorted. */
  lemma {:induction false} InsertSorted(keys: seq<seq<byte>>, data: seq<byte>, at: nat)
    requires Sorted(keys) && IsPlace(keys, data, at) && data !in keys
    ensures Sorted(keys[..at] + [data] + keys[at..])
  {
    var r := keys[..at] + [data] + keys[at..];
    forall i, j | 0 <= i < j < |r| ensures Compare(r[i], r[j]) < 0 {
      if i == at {
        assert r[j] == keys[j - 1] && keys[j - 1] in keys;
        CompareZero(data, keys[j - 1]);
        CompareZero(keys[j - 1], data);
      } else if j == at {
        assert r[i] == keys[i];
      } else {
        assert r[i] == keys[if i < at then i else i - 1] && r[j] == keys[if j < at then j else j - 1];
      }
    }
  }

  datatype Ref = Ref(offset: nat, length: nat)

  /** The references are those of the strings of the pool, in the order of `keys`. */
  ghost predicate RefsMatch(refs: seq<Ref>, keys: seq<seq<byte>>, m: map<seq<byte>, nat>) {
    && |refs| == |keys| && (forall s :: s in keys <==> s in m)
    && forall i :: 0 <= i < |keys| ==> refs[i] == Ref(m[keys[i]], |keys[i]|)
  }

  lemma {:induction false} RefsInsert(refs: seq<Ref>, keys: seq<seq<byte>>, m: map<seq<byte>, nat>, at: nat,
                                      data: seq<byte>, off: nat)
    requires RefsMatch(refs, keys, m) && at <= |keys| && data !in m
    ensures RefsMatch(refs[..at] + [Ref(off, |data|)] + refs[at..], keys[..at] + [data] + keys[at..], m[data := off])
  {
    var refs' := refs[..at] + [Ref(off, |data|)] + refs[at..];
    var keys', m' := keys[..at] + [data] + keys[at..], m[data := off];
    forall s ensures s in keys' <==> s in m' {
      if s in keys {
        var i :| 0 <= i < |keys| && keys[i] == s;
        assert keys'[if i < at then i else i + 1] == s;
      }
      assert keys'[at] == data;
    }
    forall i | 0 <= i < |keys'| ensures refs'[i] == Ref(m'[keys'[i]], |keys'[i]|) {
      if i != at {
        var j := if i < at then i else i - 1;
        assert keys'[i] == keys[j] && keys[j] in keys && refs'[i] == refs[j];
      }
    }
  }

  /** One reference moves up by one place. */
  lemma {:induction false} ShiftOne(before: seq<Ref>, now: seq<Ref>, next: seq<Ref>, i: nat, n: nat)
    requires 0 < i < n <= |before| == |now| && now[..i] == before[..i] && now[i + 1..n] == before[i..n - 1]
    requires next == now[i := now[i - 1]]
    ensures next[..i - 1] == before[..i - 1] && next[i..n] == before[i - 1..n - 1]
  {
    assert next[..i - 1] == now[..i][..i - 1];
    assert next[i] == now[..i][i - 1] == before[i - 1];
    assert next[i..n] == [next[i]] + now[i + 1..n] && before[i - 1..n - 1] == [before[i - 1]] + before[i..n - 1];
  }

  class UniqueStringPool {
    var buf: array<byte>
    var size: nat
    var refs: array<Ref>
    var refs_count: nat
    ghost var keys: seq<seq<byte>>            // the strings in the order of the references
    ghost var strings: map<seq<byte>, nat>

    ghost predicate BufferValid()
      reads this`buf, this`size, this`strings, buf
    {
      size <= buf.Length && (size > 0 ==> buf[size - 1] == 0) && Pooled(buf[..], size, strings)
    }

    ghost predicate RefsValid()
      reads this`refs, this`refs_count, this`keys, this`strings, refs
    {
      refs_count <= refs.Length && Sorted(keys) && RefsMatch(refs[..refs_count], keys, strings)
    }

    ghost predicate Valid()
      reads this, buf, refs
    {
      BufferValid() && RefsValid()
    }

    constructor ()
      ensures Valid() && strings == map[] && size == 0 && fresh(buf) && fresh(refs)
    {
      buf, size, refs, refs_count := new byte[0], 0, new Ref[0], 0;
      keys, strings := [], map[];
    }

    /** The bytes of a reference are its string. */
    lemma {:induction false} RefBytes(i: nat)
      requires Valid() && i < refs_count
      ensures refs[i].offset + refs[i].length <= buf.Length && |keys[i]| == refs[i].length
      ensures buf[refs[i].offset..refs[i].offset + refs[i].length] == keys[i]
      ensures keys[i] in strings && refs[i].offset == strings[keys[i]]
    {
      var s := keys[i];
      assert s in keys;
      StoredInside(buf[..], size, s, strings[s]);
      assert buf[..][strings[s]..strings[s] + |s|] == buf[strings[s]..strings[s] + |s|];
    }

    lemma {:induction false} KeysSorted()
      requires Valid()
      ensures refs_count == |keys| && refs_count <= refs.Length && Sorted(keys)
      ensures forall s :: s in keys <==> s in strings
    {}

    /** bump_unique_lower_bound: binary search for the place of a string. */
    method LowerBound(data: seq<byte>) returns (lo: nat, found: bool, found_offset: nat)
      requires Valid()
      ensures IsPlace(keys, data, lo)
      ensures found <==> data in strings
      ensures found ==> found_offset == strings[data]
    {
      hide Compare, MemCmp, UniqueStringPool.BufferValid, UniqueStringPool.RefsValid, IsPlace;
      KeysSorted();
      lo := Search(data);
      found, found_offset := false, 0;
      FoundAtPlace(keys, data, lo);
      if lo < refs_count {
        var r := refs[lo];
        RefBytes(lo);
        if r.length == |data| {
          var same := buf[r.offset..r.offset + r.length] == data;
          if same {
            found, found_offset := true, r.offset;
          }
        }
      }
    }

    /** The loop of the search. */
    method Search(data: seq<byte>) returns (lo: nat)
      requires Valid()
      ensures IsPlace(keys, data, lo)
    {
      hide Compare, MemCmp, UniqueStringPool.BufferValid, UniqueStringPool.RefsValid;
      KeysSorted();
      lo := 0;
      var hi := refs_count;
      while lo < hi
        invariant lo <= hi <= |keys|
        invariant forall i :: 0 <= i < lo ==> Compare(keys[i], data) < 0
        invariant forall i :: hi <= i < |keys| ==> Compare(keys[i], data) >= 0
      {
        var mid := lo + (hi - lo) / 2;
        var c := CompareAt(mid, data);
        BothSides(keys, mid, data);
        if c < 0 {
          lo := mid + 1;
        } else {
          hi := mid;
        }
      }
    }

    /** The comparison of the search. */
    method CompareAt(i: nat, data: seq<byte>) returns (c: int)
      requires Valid() && i < refs_count
      ensures c == Compare(keys[i], data)
    {
      hide Pooled, Compare, MemCmp, Sorted;
      RefBytes(i);
      CompareByParts(keys[i], data);
      var r := refs[i];
      var cmp_len := if r.length < |data| then r.length else |data|;
      assert buf[r.offset..r.offset + r.length][..cmp_len] == buf[r.offset..r.offset + cmp_len];
      c := MemCmp(buf[r.offset..r.offset + cmp_len], data[..cmp_len]);
      if c == 0 {
        c := if r.length < |data| then -1 else if r.length > |data| then 1 else 0;
      }
    }

    /** bump_unique_refs_reserve: double the array until one more reference fits. */
    method ReserveRefs(add: nat)
      requires refs_count <= refs.Length
      modifies this`refs
      ensures refs_count + add <= refs.Length && refs[..refs_count] == old(refs[..refs_count])
      ensures refs == old(refs) || fresh(refs)
    {
      if refs_count + add <= refs.Length {
        return;
      }
      var new_cap := if refs.Length != 0 then refs.Length * 2 else 16;
      while new_cap < refs_count + add
        invariant new_cap >= refs.Length && new_cap > 0
        decreases refs_count + add - new_cap
      {
        new_cap := new_cap * 2;
      }
      refs := new Ref[new_cap](i requires 0 <= i < new_cap reads this, refs =>
        if i < refs.Length then refs[i] else Ref(0, 0));
    }

    /** memmove by one place, then the new reference. */
    method InsertRef(at: nat, r: Ref)
      requires at <= refs_count < refs.Length
      modifies refs
      ensures refs[..refs_count + 1] == old(refs[..at]) + [r] + old(refs[at..refs_count])
    {
      ghost var before, n := refs[..], refs_count + 1;
      var i := refs_count;
      while i > at
        invariant at <= i <= refs_count && refs[..i] == before[..i] && refs[i + 1..n] == before[i..refs_count]
      {
        ghost var now := refs[..];
        refs[i] := refs[i - 1];
        ShiftOne(before, now, refs[..], i, n);
        i := i - 1;
      }
      refs[at] := r;
      assert refs[..n] == refs[..at] + [refs[at]] + refs[at + 1..n];
    }

    /** The part of bump_unique_string_pool_add for a string that is not there yet. */
    method AddNew(data: seq<byte>, at: nat) returns (offset: nat)
      requires Valid() && data != [] && data !in strings && IsPlace(keys, data, at)
      modifies this, buf, refs
      ensures Valid() && (buf == old(buf) || fresh(buf)) && (refs == old(refs) || fresh(refs))
      ensures size == old(size) + |data| + 1 && buf[..old(size)] == old(buf[..size])
      ensures offset == old(size) && strings == old(strings)[data := offset]
    {
      hide Pooled, Sorted, RefsMatch, IsPlace;
      offset := size;
      buf := Store(buf, size, data, strings);
      size := size + |data| + 1;
      InsertNew(data, at, offset);
      strings := strings[data := offset];
    }

    /** Enter a new string among the references; `strings` is brought up to date by the caller. */
    method InsertNew(data: seq<byte>, at: nat, offset: nat)
      requires RefsValid() && data !in strings && IsPlace(keys, data, at)
      modifies this`refs, this`refs_count, this`keys, refs
      ensures refs_count <= refs.Length && Sorted(keys)
      ensures RefsMatch(refs[..refs_count], keys, strings[data := offset])
      ensures refs == old(refs) || fresh(refs)
    {
      assert data !in keys && at <= refs_count;
      hide Sorted, RefsMatch, IsPlace;
      InsertSorted(keys, data, at);
      RefsInsert(refs[..refs_count], keys, strings, at, data, offset);
      ghost var before := refs[..refs_count];
      ReserveRefs(1);
      assert before[..at] == refs[..at] && before[at..] == refs[at..refs_count];
      InsertRef(at, Ref(offset, |data|));
      refs_count := refs_count + 1;
      keys := keys[..at] + [data] + keys[at..];
    }

    /**
     bump_unique_string_pool_add is a map from strings to offsets: a known string keeps its offset, a new
     one gets the end of the buffer. The empty string has no offset.
     */
    method Add(data: seq<byte>) returns (offset: nat)
      requires Valid()
      modifies this, buf, refs
      ensures Valid() && (buf == old(buf) || fresh(buf)) && (refs == old(refs) || fresh(refs))
      ensures size >= old(size) && buf[..old(size)] == old(buf[..size])
      ensures Pool(strings, size) == Apply(Pool(old(strings), old(size)), PoolHistory.Add(data))
      ensures offset == Returned(Pool(old(strings), old(size)), data)
    {
      assert size <= buf.Length;
      hide Valid, IsPlace;
      if data == [] {
        return INVALID_OFFSET;
      }
      var at, found;
      at, found, offset := LowerBound(data);
      if found {
        return;
      }
      offset := AddNew(data, at);
    }

    /** bump_unique_string_pool_clear forgets all strings. */
    method Clear()
      requires Valid()
      modifies this`size, this`refs_count, this`keys, this`strings
      ensures Valid() && strings == map[] && size == 0
    {
      size, refs_count, keys, strings := 0, 0, [], map[];
    }
  }
}
