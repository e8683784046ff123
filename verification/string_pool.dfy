/**
 The interning string pool: equal strings share one offset into a growing buffer, found
 through a hash table. Proved against a plain map from strings to offsets.
 */
module StringPool {
  import opened Bits
  import opened Ring
  import opened BitSequence
  import opened Wrappers
  import opened PoolHistory
  import opened StringBuffer
  import opened StringTable

  // ----- FNV-1a

  function HashOf(data: seq<byte>): nat {
    if data == [] then 0xcbf2_9ce4_8422_2325
    else Low(Xor(HashOf(data[..|data| - 1]), data[|data| - 1]) * 0x100_0000_01b3, 64)
  }

  method HashFnv1a(data: seq<byte>) returns (h: nat)
    ensures h == HashOf(data)
  {
    h := 0xcbf2_9ce4_8422_2325;
    for i := 0 to |data|
      invariant h == HashOf(data[..i])
    {
      assert data[..i + 1][..i] == data[..i];
      h := Xor(h, data[i]);
      h := Low(h * 0x100_0000_01b3, 64);
    }
    assert data[..|data|] == data;
  }

  /** Published values of 64-bit FNV-1a: of nothing, and of the letter a. */
  lemma {:induction false} HashVectors()
    ensures HashOf([]) == 0xcbf2_9ce4_8422_2325 && HashOf([0x61]) == 0xaf63_dc4c_8601_ec8c
  {
    hide Xor, Low;
    assert [0x61][..0] == [];
    XorOfA();
    LowWord(0xcb_f29c_e5de, 0xaf63_dc4c_8601_ec8c);
  }

  lemma {:induction false} XorOfA()
    ensures Xor(0xcbf2_9ce4_8422_2325, 0x61) == 0xcbf2_9ce4_8422_2344
  {
    XorLetters();
    hide Xor;
    XorLowByte(0xcb_f29c_e484_2223, 0x25, 0x61);
  }

  lemma {:induction false} XorLetters()
    ensures Xor(0x25, 0x61) == 0x44
  {
    assert Xor(4, 12) == 8 && Xor(9, 24) == 17;
  }

  lemma {:induction false} LowWord(q: nat, r: nat)
    requires r < 0x1_0000_0000_0000_0000
    ensures Low(q * 0x1_0000_0000_0000_0000 + r, 64) == r
  {
    Pow2Consts();
    Pow2Split(32, 32);
    ShlTimes(Pow2(32), 32);
    ShlTimes(q, 64);
    Join(q, r, 64);
  }

  lemma {:induction false} ShlTimes(x: nat, k: nat)
    ensures Shl(x, k) == x * Pow2(k)
  {
    if k > 0 {
      ShlTimes(x, k - 1);
      assert x * (2 * Pow2(k - 1)) == 2 * (x * Pow2(k - 1));
    }
  }

  lemma {:induction false} XorLowByte(h: nat, l: nat, b: nat)
    requires l < 256 && b < 256
    ensures Xor(256 * h + l, b) == 256 * h + Xor(l, b)
  {
    XorBelow(h, l, b, 8);
    ByEight(h);
    ByEight(8 * h);
    ShlShl(h, 3, 3);
    Thrice(h, 6);
    Thrice(h, 7);
    assert Pow2(8) == 256;
  }

  /** Bits above those of both operands stay. */
  lemma {:induction false} XorBelow(h: nat, l: nat, b: nat, k: nat)
    requires l < Pow2(k) && b < Pow2(k)
    ensures Xor(Shl(h, k) + l, b) == Shl(h, k) + Xor(l, b)
    decreases k
  {
    if k == 0 {
      XorZero(h);
    } else {
      XorBelow(h, l / 2, b / 2, k - 1);
      assert (Shl(h, k) + l) / 2 == Shl(h, k - 1) + l / 2 && (Shl(h, k) + l) % 2 == l % 2;
    }
  }

  lemma {:induction false} XorZero(a: nat)
    ensures Xor(a, 0) == a && Xor(0, 0) == 0
  {
    if a > 0 {
      XorZero(a / 2);
    }
  }

  // ----- the hash table of strings

  function EntryOf(s: seq<byte>, off: nat): Bucket {
    Bucket(off, |s|, HashOf(s), true)
  }

  /** The used buckets are exactly the entries of the map. */
  ghost predicate TableHolds(t: seq<Bucket>, m: map<seq<byte>, nat>) {
    && (forall s :: s in m ==> EntryOf(s, m[s]) in t)
    && (forall b :: b in t && b.used ==> exists s :: s in m && b == EntryOf(s, m[s]))
  }

  /** The comparison of sp_lookup: hash, length, bytes. */
  predicate BucketMatches(b: Bucket, buf: seq<byte>, data: seq<byte>, hash: nat) {
    && b.used && b.hash == hash && b.length == |data| && b.offset + |data| <= |buf|
    && buf[b.offset..b.offset + |data|] == data
  }

  /** None of the first `n` buckets from `home` on matches. */
  predicate NoMatchYet(t: seq<Bucket>, home: nat, n: nat, buf: seq<byte>, data: seq<byte>, hash: nat)
    requires home < |t| && n <= |t|
  {
    forall m :: 0 <= m < n ==> !BucketMatches(t[Slot(home, m, |t|)], buf, data, hash)
  }

  /** The loop of sp_lookup: from the home slot to the first match or to a free slot. */
  method Probe(table: array<Bucket>, buf: array<byte>, data: seq<byte>, hash: nat, ghost k: nat, ghost home: nat)
    returns (found: bool, offset: nat, ghost n: nat, ghost i: nat)
    requires table.Length == Pow2(k) && home == Home(hash, k) && UsedCount(table[..]) < table.Length
    requires forall i :: 0 <= i < table.Length && table[i].used ==> table[i].offset + table[i].length <= buf.Length
    ensures n < table.Length && i == Slot(home, n, table.Length)
    ensures if found then BucketMatches(table[i], buf[..], data, hash) && offset == table[i].offset else !table[i].used
    ensures NoMatchYet(table[..], home, n, buf[..], data, hash)
  {
    hide And, Pow2, Home, Slot, UsedCount;
    ghost var cap := table.Length;
    ghost var free := FreeSlot(table[..]);
    ghost var stop := Distance(home, free, cap);
    var mask := table.Length - 1;
    HomeIsMask(hash, k, mask, cap);
    var idx := And(hash, mask);
    n := 0;
    while table[idx].used
      invariant n <= stop && idx == Slot(home, n, cap)
      invariant NoMatchYet(table[..], home, n, buf[..], data, hash)
      decreases cap - n
    {
      var b := table[idx];
      assert buf[..][b.offset..b.offset + b.length] == buf[b.offset..b.offset + b.length];
      if b.hash == hash && b.length == |data| && buf[b.offset..b.offset + b.length] == data {
        return true, b.offset, n, idx;
      }
      assert n != stop;
      ghost var next := n + 1;
      NextSlot(home, n, next, k, cap, mask, idx);
      idx := And(idx + 1, mask);
      n := next;
    }
    return false, 0, n, idx;
  }

  /** A probe that passed no match is still on the used run that leads to the entry. */
  lemma {:induction false} BeforeOrAt(t: seq<Bucket>, home: nat, n: nat, d: nat, buf: seq<byte>, data: seq<byte>,
                                      hash: nat)
    requires home < |t| && n < |t| && d < |t| && UsedRun(t, home, d)
    requires BucketMatches(t[Slot(home, d, |t|)], buf, data, hash) && NoMatchYet(t, home, n, buf, data, hash)
    ensures t[Slot(home, n, |t|)].used
  {
    hide Slot;
  }

  lemma {:induction false} HoldsAfterGrow(t: seq<Bucket>, u: seq<Bucket>, m: map<seq<byte>, nat>)
    requires TableHolds(t, m) && SameBuckets(t, u)
    ensures TableHolds(u, m)
  {
    forall s | s in m ensures EntryOf(s, m[s]) in u {
      assert EntryOf(s, m[s]).used;
    }
  }

  lemma {:induction false} HoldsAfterInsert(t: seq<Bucket>, m: map<seq<byte>, nat>, at: nat, data: seq<byte>, off: nat)
    requires TableHolds(t, m) && at < |t| && !t[at].used && data !in m
    ensures TableHolds(t[at := EntryOf(data, off)], m[data := off])
  {
    hide HashOf;
    var u, m' := t[at := EntryOf(data, off)], m[data := off];
    forall s | s in m' ensures EntryOf(s, m'[s]) in u {
      if s == data {
        assert u[at] == EntryOf(data, off);
      } else {
        var i :| 0 <= i < |t| && t[i] == EntryOf(s, m[s]);
        assert u[i] == t[i];
      }
    }
    forall b | b in u && b.used ensures exists s :: s in m' && b == EntryOf(s, m'[s]) {
      if b == EntryOf(data, off) {
        assert data in m';
      } else {
        assert b in t;
        var s :| s in m && b == EntryOf(s, m[s]);
        assert s in m' && s != data;
      }
    }
  }

  class StringPool {
    var buf: array<byte>
    var size: nat
    var table: array<Bucket>
    var table_count: nat
    ghost var k: nat                          // log of the table size
    ghost var strings: map<seq<byte>, nat>    // what was added since the last clear

    /** Load factor below 7/10, so that an empty slot always ends a probe. */
    predicate Roomy(count: nat, cap: nat) {
      10 * count < 7 * cap
    }

    ghost predicate TableValid()
      reads this`table, this`table_count, this`strings, this`k, table
    {
      && TableHolds(table[..], strings) && table_count == UsedCount(table[..]) == |strings|
      && if table.Length == 0 then table_count == 0
         else WellFormed(table[..], k) && table.Length >= 64 && Roomy(table_count, table.Length)
    }

    ghost predicate BufferValid()
      reads this`buf, this`size, this`strings, buf
    {
      size <= buf.Length && (size > 0 ==> buf[size - 1] == 0) && Pooled(buf[..], size, strings)
    }

    ghost predicate Valid()
      reads this, buf, table
    {
      TableValid() && BufferValid()
    }

    constructor ()
      ensures Valid() && strings == map[] && size == 0 && fresh(buf) && fresh(table)
    {
      buf, size, table, table_count := new byte[0], 0, new Bucket[0], 0;
      k, strings := 0, map[];
    }

    /** sp_lookup finds a string exactly if it is in the pool. */
    method Lookup(data: seq<byte>, hash: nat) returns (found: bool, offset: nat)
      requires Valid() && hash == HashOf(data)
      ensures found <==> data in strings
      ensures found ==> offset == strings[data]
    {
      ghost var home := LookupFacts(data, hash);
      if table.Length == 0 {
        return false, 0;
      }
      ghost var n, i;
      found, offset, n, i := Probe(table, buf, data, hash, k, home);
    }

    /**
     Without a table there is no string. With one, a probe stays in it and finds room, every bucket points
     into the buffer, and where the probe ends decides.
     */
    lemma {:induction false} LookupFacts(data: seq<byte>, hash: nat) returns (home: nat)
      requires Valid() && hash == HashOf(data)
      ensures table.Length == 0 ==> data !in strings
      ensures table.Length > 0 ==>
        && table.Length == Pow2(k) && home == Home(hash, k) < table.Length && UsedCount(table[..]) < table.Length
        && (forall i :: 0 <= i < table.Length && table[i].used ==> table[i].offset + table[i].length <= buf.Length)
        && forall n: nat :: n < table.Length && NoMatchYet(table[..], home, n, buf[..], data, hash) ==>
             var i := Slot(home, n, table.Length);
             && (BucketMatches(table[i], buf[..], data, hash) ==> data in strings && table[i].offset == strings[data])
             && (!table[i].used ==> data !in strings)
    {
      hide Home, Pow2, UsedCount, HashOf;
      home := 0;
      if table.Length == 0 {
        NoTable();
      } else {
        home := Home(hash, k);
        RangesInside();
        forall n: nat | n < table.Length && NoMatchYet(table[..], home, n, buf[..], data, hash)
          ensures var i := Slot(home, n, table.Length);
            && (BucketMatches(table[i], buf[..], data, hash) ==> data in strings && table[i].offset == strings[data])
            && (!table[i].used ==> data !in strings)
        {
          ProbeMeaning(data, home, n, Slot(home, n, table.Length));
        }
      }
    }

    lemma {:induction false} NoTable()
      requires Valid() && table.Length == 0
      ensures strings == map[]
    {}

    lemma {:induction false} RangesInside()
      requires Valid()
      ensures forall i :: 0 <= i < table.Length && table[i].used ==> table[i].offset + table[i].length <= buf.Length
    {
      forall i | 0 <= i < table.Length && table[i].used ensures table[i].offset + table[i].length <= buf.Length {
        var s := StringOfBucket(i);
      }
    }

    /** A bucket with the right hash, length and bytes is the entry of the string. */
    lemma {:induction false} SameString(i: nat, data: seq<byte>)
      requires Valid() && i < table.Length && table[i].used && table[i].hash == HashOf(data)
      requires table[i].length == |data|
      ensures table[i].offset + |data| <= buf.Length
      ensures buf[table[i].offset..table[i].offset + |data|] == data <==>
        data in strings && table[i] == EntryOf(data, strings[data])
    {
      hide HashOf, TableHolds;
      var s := StringOfBucket(i);
      var off := table[i].offset;
      assert buf[..][off..off + |s|] == buf[off..off + |s|];
      if data in strings && table[i] == EntryOf(data, strings[data]) {
        assert Stored(buf[..], size, data, strings[data]);
        assert buf[..][off..off + |data|] == buf[off..off + |data|];
      }
    }

    /** A match is the string; a free slot before any match means that it is not in the pool. */
    lemma {:induction false} ProbeMeaning(data: seq<byte>, home: nat, n: nat, i: nat)
      requires Valid() && table.Length > 0 && home == Home(HashOf(data), k) < table.Length && n < table.Length
      requires i == Slot(home, n, table.Length) && NoMatchYet(table[..], home, n, buf[..], data, HashOf(data))
      ensures BucketMatches(table[i], buf[..], data, HashOf(data)) ==>
        data in strings && table[i].offset == strings[data]
      ensures !table[i].used ==> data !in strings
    {
      hide HashOf, TableHolds, Pooled, Home, Pow2, UsedCount;
      if BucketMatches(table[i], buf[..], data, HashOf(data)) {
        SameString(i, data);
      }
      if data in strings {
        var j := EntryIndex(data);
        var d := Distance(home, j, table.Length);
        BeforeOrAt(table[..], home, n, d, buf[..], data, HashOf(data));
      }
    }

    /** The entry of a string in the pool is reachable, and matches. */
    lemma {:induction false} EntryIndex(data: seq<byte>) returns (j: nat)
      requires Valid() && data in strings
      ensures j < table.Length && table[j].used && table.Length == Pow2(k) && table[j].hash == HashOf(data)
      ensures Reachable(table[..], k, j) && BucketMatches(table[j], buf[..], data, HashOf(data))
    {
      hide HashOf, Home, Pow2, UsedCount, UsedRun, Distance, Pooled;
      assert EntryOf(data, strings[data]) in table[..];
      j :| 0 <= j < table.Length && table[j] == EntryOf(data, strings[data]);
      SameString(j, data);
    }

    /** Every used bucket belongs to a stored string. */
    lemma {:induction false} StringOfBucket(i: nat) returns (s: seq<byte>)
      requires Valid() && i < table.Length && table[i].used
      ensures s in strings && table[i] == EntryOf(s, strings[s]) && Stored(buf[..], size, s, strings[s])
    {
      assert table[i] in table[..];
      s :| s in strings && table[i] == EntryOf(s, strings[s]);
    }

    /** Grow the table when one more string would pass the load factor. */
    method MakeRoom()
      requires Valid()
      modifies this`table, this`k
      ensures Valid() && table.Length > 0 && Roomy(table_count + 1, table.Length)
      ensures if 10 * (table_count + 1) < 7 * old(table.Length) then table == old(table) else fresh(table)
    {
      hide HashOf, BufferValid, WellFormed, UsedCount;
      if (table_count + 1) * 10 >= table.Length * 7 {
        ghost var t := table[..];
        table, k := Grow(table, k);
        HoldsAfterGrow(t, table[..], strings);
      }
    }

    /** The part of string_pool_add for a string that is not there yet. */
    method AddNew(data: seq<byte>, hash: nat) returns (offset: nat)
      requires Valid() && data != [] && data !in strings && hash == HashOf(data)
      modifies this, buf, table
      ensures Valid() && (buf == old(buf) || fresh(buf)) && (table == old(table) || fresh(table))
      ensures size == old(size) + |data| + 1 && buf[..old(size)] == old(buf[..size])
      ensures offset == old(size) && strings == old(strings)[data := offset]
    {
      hide HashOf, Pow2, UsedCount, Home, Pooled, TableHolds, WellFormed;
      MakeRoom();
      offset := size;
      buf := Store(buf, size, data, strings);
      size := size + |data| + 1;
      InsertNew(data, hash, offset);
      strings := strings[data := offset];
    }

    /**
     string_pool_add is a map from strings to offsets: a known string keeps its offset, a new one gets the
     end of the buffer, and the bytes before stay. The empty string has no offset.
     */
    method Add(data: seq<byte>) returns (offset: nat)
      requires Valid()
      modifies this, buf, table
      ensures Valid() && (buf == old(buf) || fresh(buf)) && (table == old(table) || fresh(table))
      ensures size >= old(size) && buf[..old(size)] == old(buf[..size])
      ensures Pool(strings, size) == Apply(Pool(old(strings), old(size)), PoolHistory.Add(data))
      ensures offset == Returned(Pool(old(strings), old(size)), data)
    {
      assert size <= buf.Length;
      hide Valid, HashOf;
      if data == [] {
        return INVALID_OFFSET;
      }
      var hash := HashFnv1a(data);
      var found;
      found, offset := Lookup(data, hash);
      if found {
        return;
      }
      offset := AddNew(data, hash);
    }

    /** Enter a new string in the table; `strings` is brought up to date by the caller. */
    method InsertNew(data: seq<byte>, hash: nat, offset: nat)
      requires TableValid() && table.Length > 0 && Roomy(table_count + 1, table.Length)
      requires data !in strings && hash == HashOf(data)
      modifies this`table_count, table
      ensures table_count == old(table_count) + 1 == UsedCount(table[..]) && WellFormed(table[..], k)
      ensures TableHolds(table[..], strings[data := offset])
    {
      hide HashOf, Pow2, Home, Reachable, TableHolds;
      ghost var t := table[..];
      var mask := table.Length - 1;
      ghost var at := InsertNoGrow(table, k, mask, hash, offset, |data|);
      HoldsAfterInsert(t, strings, at, data, offset);
      table_count := table_count + 1;
    }

    /** string_pool_clear forgets all strings; buffer and table keep their room. */
    method Clear()
      requires Valid()
      modifies this`size, this`table_count, this`strings, table
      ensures Valid() && strings == map[] && size == 0
    {
      for i := 0 to table.Length
        modifies table
        invariant forall j :: 0 <= j < i ==> table[j] == UNUSED
      {
        table[i] := UNUSED;
      }
      CountNone(table[..]);
      size, table_count, strings := 0, 0, map[];
    }

    /** An added string is where its offset says. */
    lemma {:induction false} AddedIsThere(s: seq<byte>)
      requires Valid() && s in strings
      ensures Stored(buf[..size], size, s, strings[s])
    {
      hide Stored, TableValid;
      assert buf[..][..size] == buf[..size];
      StoredPrefix(buf[..], size, s, strings[s]);
    }

    /** string_pool_get reads a C string: an added string comes back whole exactly if it has no NUL inside. */
    method Get(offset: nat) returns (r: Option<seq<byte>>)
      requires Valid()
      ensures r.None? <==> offset >= size
      ensures r.Some? ==> IsUpToNul(buf[..size], offset, r.value)
      ensures forall s :: s in strings && strings[s] == offset ==> r.Some? && (r.value == s <==> 0 !in s)
    {
      hide Stored, IsUpToNul, Pooled, TableValid;
      r := GetString(buf, size, offset);
      forall s | s in strings && strings[s] == offset ensures r.Some? && (r.value == s <==> 0 !in s) {
        AddedIsThere(s);
        StoredInside(buf[..size], size, s, offset);
        ReadsBack(buf[..size], size, s, offset, r.value);
      }
    }

    /** string_pool_get_n with the right length returns any added string. */
    method GetN(offset: nat, length: nat) returns (r: Option<seq<byte>>)
      requires Valid()
      ensures r == if offset + length > size then None else Some(buf[..size][offset..offset + length])
      ensures forall s :: s in strings && strings[s] == offset && |s| == length ==> r == Some(s)
    {
      hide Stored, Pooled, TableValid;
      r := GetRange(buf, size, offset, length);
      forall s | s in strings && strings[s] == offset && |s| == length ensures r == Some(s) {
        AddedIsThere(s);
        StoredInside(buf[..size], size, s, offset);
      }
    }
  }
}
