/** The deduplicating string set of stringSet.h: an insertion-ordered
    `StringArray` of distinct strings plus an open-addressing table probed
    linearly from the string's hash. */
module StringSets {
  import opened Common
  import opened StringHash
  import opened LinearProbing

  const STRING_SET_INITIAL_CAPACITY: nat := 16

  /** String `i` of `c` holds no NUL byte: it is its own C string. */
  ghost predicate CStringAt(c: seq<Str>, i: nat)
    requires i < |c|
  {
    NUL !in c[i]
  }

  /** Appending a string without a NUL keeps every stored string a C string. */
  lemma CStringsAppend(c: seq<Str>, s: Str)
    requires forall i :: 0 <= i < |c| ==> CStringAt(c, i)
    requires NUL !in s
    ensures forall i :: 0 <= i < |c| + 1 ==> CStringAt(c + [s], i)
  {
    forall i | 0 <= i < |c| + 1
      ensures CStringAt(c + [s], i)
    {
      if i < |c| {
        assert CStringAt(c, i);
      }
    }
  }

  /** stringSet.h `StringSet`. */
  class StringSet {
    var strings: StringArray
    var indicesTable: array<nat>
    var size: nat
    var capacity: nat
    /** The distinct strings, in first-insertion order. */
    ghost var Contents: seq<Str>
    /** `Slots[i]` is the table slot that holds `i + 1`. */
    ghost var Slots: seq<nat>
    ghost var Repr: set<object>

    /** The stored strings and the table's size. */
    ghost predicate Stored()
      reads this, strings, strings.Repr
    {
      && strings.Valid()
      && Contents == strings.Contents
      && indicesTable.Length == capacity
      && size == |Contents|
      && forall i :: 0 <= i < size ==> CStringAt(Contents, i)
    }

    ghost predicate Valid()
      reads this, Repr
    {
      && strings in Repr
      && Repr == {this, indicesTable} + strings.Repr
      && Stored()
      && strings.capacity > 0
      && indicesTable !in strings.Repr
      && capacity >= STRING_SET_INITIAL_CAPACITY
      && SetInv(Contents, indicesTable[..], Slots)
    }

    /** stringSetNew */
    constructor ()
      ensures Valid() && fresh(Repr)
      ensures Contents == [] && capacity == STRING_SET_INITIAL_CAPACITY
    {
      strings := new StringArray();
      size := 0;
      capacity := STRING_SET_INITIAL_CAPACITY;
      indicesTable := new nat[STRING_SET_INITIAL_CAPACITY](_ => 0);
      Contents := [];
      Slots := [];
      new;
      Repr := {this, indicesTable} + strings.Repr;
      assert IsPow2(16) by {
        assert IsPow2(8) by { assert IsPow2(4) by { assert IsPow2(2); } }
      }
      EmptyTable(indicesTable[..], HomesOf(Contents, capacity));
    }

    /** _stringSetTakeSlot: probes from `hash & (capacity - 1)` and stops at
        the slot of an equal string (`true`) or at the first empty slot
        (`false`). `n` strings are in the table, fewer than its slots, so the
        probe cannot run through the whole table; `homes` are their home
        slots, and a string equal to `str` has the same one. */
    method TakeSlot(hash: bv32, str: Str, ghost n: nat, ghost slots: seq<nat>, ghost homes: seq<nat>)
      returns (found: bool, index: nat)
      requires Stored() && n <= size && n < capacity
      requires TableInv(indicesTable[..], homes, n, slots)
      requires forall m :: 0 <= m < n && Contents[m] == CString(str) ==> homes[m] == Bucket(hash, capacity)
      ensures index < capacity
      ensures found <==> CString(str) in Contents[..n]
      ensures found ==> 0 < indicesTable[index] <= n && Contents[indicesTable[index] - 1] == CString(str)
      ensures !found ==> indicesTable[index] == 0 && Reaches(indicesTable[..], Bucket(hash, capacity), index)
    {
      ghost var t := indicesTable[..];
      ghost var cs := CString(str);
      index := Bucket(hash, capacity);
      ghost var home := index;
      for i := 0 to capacity
        invariant i < capacity ==> index == Probe(home, i, capacity)
        invariant ProbedPast(t, Contents, cs, home, i)
      {
        if indicesTable[index] == 0 {
          NotInTable(t, homes, n, slots, Contents, cs, home, i);
          return false, index;
        }
        assert SlotHolds(t, slots, index);
        var stored := strings.Get(indicesTable[index] - 1);
        assert CStringAt(Contents, indicesTable[index] - 1);
        CStringOfCString(stored);
        if CString(str) == CString(stored) {
          assert Contents[..n][indicesTable[index] - 1] == cs;
          return true, index;
        }
        ProbedPastStep(t, Contents, cs, home, i);
        if i + 1 < capacity {
          ProbeNext(home, i, capacity);
        }
        index := (index + 1) % capacity;
      }
      TableFull(t, homes, n, slots, Contents, cs, home);
      assert false;
    }

    /** _stringSetRehash: re-inserts every string into an empty table; no
        string is found already present, because the strings are distinct. */
    method Rehash() returns (ghost slots: seq<nat>)
      requires Stored() && indicesTable !in strings.Repr
      requires size < capacity && Distinct(Contents)
      requires forall j :: 0 <= j < capacity ==> indicesTable[j] == 0
      modifies indicesTable
      ensures TableInv(indicesTable[..], HomesOf(Contents, capacity), size, slots)
    {
      ghost var homes := HomesOf(Contents, capacity);
      EmptyTable(indicesTable[..], homes);
      slots := [];
      for i := 0 to strings.size
        invariant Stored()
        invariant TableInv(indicesTable[..], homes, i, slots)
      {
        slots := RehashString(i, homes, slots);
      }
    }

    /** One iteration of _stringSetRehash: string `i`, which differs from
        the `i` strings already indexed, goes into the empty slot its probe
        stops at. */
    method RehashString(i: nat, ghost homes: seq<nat>, ghost slots: seq<nat>) returns (ghost slots': seq<nat>)
      requires Stored() && indicesTable !in strings.Repr
      requires i < size < capacity && Distinct(Contents)
      requires homes == HomesOf(Contents, capacity)
      requires TableInv(indicesTable[..], homes, i, slots)
      modifies indicesTable
      ensures TableInv(indicesTable[..], homes, i + 1, slots')
    {
      var str := strings.Get(i);
      var h := HashString(str);
      assert CStringAt(Contents, i);
      CStringOfCString(str);
      HomesOfAt(Contents, capacity, i);
      SameHome(Contents, capacity, str);
      forall k | 0 <= k < i
        ensures Contents[..i][k] != str
      {
        assert Differ(Contents, k, i);
      }
      var found, index := TakeSlot(h, str, i, slots, homes);
      ghost var t := indicesTable[..];
      TableInsert(t, homes, i, slots, index);
      indicesTable[index] := i + 1;
      assert indicesTable[..] == t[index := indicesTable[index]];
      slots' := slots + [index];
    }

    /** The growth step of stringSetAdd: the table doubles and every string
        is indexed again. */
    method Grow()
      requires Valid()
      modifies this
      ensures Valid() && fresh(Repr - old(Repr))
      ensures strings == old(strings) && Contents == old(Contents)
      ensures capacity == 2 * old(capacity) && size <= capacity / 2
    {
      ghost var half := capacity;
      capacity := capacity * 2;
      assert capacity / 2 == half && capacity % 2 == 0;
      assert IsPow2(capacity);
      indicesTable := new nat[capacity](_ => 0);
      Repr := {this, indicesTable} + strings.Repr;
      Slots := Rehash();
    }

    /** stringSetAdd: returns the index of `str`'s copy in the insertion
        order, adding it at the end if it is new. The table doubles and is
        rebuilt first whenever more than half of it is in use. */
    method Add(str: Str) returns (index: nat)
      requires Valid()
      modifies Repr
      ensures Valid() && fresh(Repr - old(Repr))
      ensures capacity == if old(size) > old(capacity) / 2 then 2 * old(capacity) else old(capacity)
      ensures index < |Contents| && Contents[index] == CString(str)
      ensures CString(str) in old(Contents) ==> Contents == old(Contents)
      ensures CString(str) !in old(Contents) ==>
        Contents == old(Contents) + [CString(str)] && index == old(size)
    {
      if size > capacity / 2 {
        Grow();
      }
      index := Place(str);
    }

    /** The lookup-or-insert step of stringSetAdd, on a table at most half
        full. */
    method Place(str: Str) returns (index: nat)
      requires Valid() && size <= capacity / 2
      modifies Repr
      ensures Valid() && fresh(Repr - old(Repr))
      ensures capacity == old(capacity)
      ensures index < |Contents| && Contents[index] == CString(str)
      ensures CString(str) in old(Contents) ==> Contents == old(Contents)
      ensures CString(str) !in old(Contents) ==>
        Contents == old(Contents) + [CString(str)] && index == old(size)
    {
      var h := HashString(str);
      SameHome(Contents, capacity, str);
      var found, slot := TakeSlot(h, str, size, Slots, HomesOf(Contents, capacity));
      assert Contents[..size] == Contents;
      if !found {
        Insert(str, slot);
      }
      index := indicesTable[slot] - 1;
    }

    /** The insertion step of stringSetAdd: a copy of `str`, which is not
        stored, goes to the end of the strings and its number into the empty
        slot `slot` that the probe from its home stopped at. */
    method Insert(str: Str, slot: nat)
      requires Valid() && size <= capacity / 2 && CString(str) !in Contents
      requires slot < capacity && indicesTable[slot] == 0
      requires Reaches(indicesTable[..], Home(str, capacity), slot)
      modifies Repr
      ensures Valid() && fresh(Repr - old(Repr))
      ensures capacity == old(capacity) && indicesTable == old(indicesTable)
      ensures Contents == old(Contents) + [CString(str)]
      ensures indicesTable[slot] == old(size) + 1
    {
      ghost var t := indicesTable[..];
      InsertKeepsInv(Contents, t, Slots, str, slot);
      assert str[..|CString(str)|] == CString(str);
      size := size + 1;
      assert this !in strings.Repr && indicesTable !in strings.Repr;
      var stringIndex := strings.AddCopy(str, |CString(str)|);
      assert capacity == old(capacity) && indicesTable == old(indicesTable);
      Repr := {this, indicesTable} + strings.Repr;
      indicesTable[slot] := stringIndex + 1;
      assert indicesTable[..] == t[slot := size];
      CStringsAppend(Contents, CString(str));
      Contents := strings.Contents;
      Slots := Slots + [slot];
    }

    /** stringSetGetString */
    method GetString(i: nat) returns (s: Str)
      requires Valid() && i < size
      ensures s == Contents[i]
    {
      s := strings.Get(i);
    }
  }
}
