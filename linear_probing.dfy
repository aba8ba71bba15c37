/** The open-addressing table of stringSet.h as values: slots hold 0
    (empty) or `index + 1` into the insertion-ordered strings, and every
    string sits on the linear probe chain from its home slot. */
module LinearProbing {
  import opened Common
  import opened StringHash


  /** `hash & (capacity - 1)`, which for a power-of-two capacity is the
      remainder of the hash modulo the capacity. */
  function Bucket(hash: bv32, capacity: nat): (j: nat)
    requires capacity > 0
    ensures j < capacity
  {
    hash as int % capacity
  }

  /** The home slot of a string: the bucket of its hash. */
  function Home(s: Str, capacity: nat): (j: nat)
    requires capacity > 0
    ensures j < capacity
  {
    Bucket(Hash(s), capacity)
  }

  /** The slot visited at step `k` of a probe from `home`, wrapping around. */
  function Probe(home: nat, k: nat, capacity: nat): (j: nat)
    requires home < capacity && k < capacity
    ensures j < capacity
  {
    if home + k < capacity then home + k else home + k - capacity
  }

  /** The probe sequence is `home + k` modulo the capacity. */
  lemma ProbeIsMod(home: nat, k: nat, capacity: nat)
    requires home < capacity && k < capacity
    ensures Probe(home, k, capacity) == (home + k) % capacity
  {
  }

  /** `(index + 1) & capacityMask` moves the probe one step on. */
  lemma ProbeNext(home: nat, k: nat, capacity: nat)
    requires home < capacity && k + 1 < capacity
    ensures (Probe(home, k, capacity) + 1) % capacity == Probe(home, k + 1, capacity)
  {
  }

  /** The step at which a probe from `home` visits slot `j`. */
  function Dist(home: nat, j: nat, capacity: nat): (k: nat)
    requires home < capacity && j < capacity
    ensures k < capacity
  {
    if j >= home then j - home else j + capacity - home
  }

  /** A probe visits slot `j` at step `Dist(home, j)` and at no other step. */
  lemma DistProbe(home: nat, j: nat, capacity: nat)
    requires home < capacity && j < capacity
    ensures Probe(home, Dist(home, j, capacity), capacity) == j
    ensures forall k :: 0 <= k < capacity && Probe(home, k, capacity) == j ==> k == Dist(home, j, capacity)
  {
  }

  /** The slot `k` steps along the probe from `home` is in use. */
  ghost predicate Occupied(t: seq<nat>, home: nat, k: nat)
    requires home < |t| && k < |t|
  {
    t[Probe(home, k, |t|)] != 0
  }

  /** Every slot a probe from `home` passes before reaching `j` is in use. */
  ghost predicate Reaches(t: seq<nat>, home: nat, j: nat)
    requires home < |t| && j < |t|
  {
    forall k :: 0 <= k < Dist(home, j, |t|) ==> Occupied(t, home, k)
  }

  /** No string occurs twice in `c`. */
  ghost predicate Distinct(c: seq<Str>)
  {
    forall i, j :: 0 <= i < j < |c| ==> Differ(c, i, j)
  }

  ghost predicate Differ(c: seq<Str>, i: nat, j: nat)
    requires i < |c| && j < |c|
  {
    c[i] != c[j]
  }

  /** The home slots of the strings of `c`. */
  function HomesOf(c: seq<Str>, capacity: nat): (r: seq<nat>)
    requires capacity > 0
    ensures |r| == |c| && forall i :: 0 <= i < |c| ==> r[i] < capacity
  {
    if c == [] then [] else HomesOf(c[..|c| - 1], capacity) + [Home(c[|c| - 1], capacity)]
  }

  lemma {:induction false} HomesOfAt(c: seq<Str>, capacity: nat, i: nat)
    requires capacity > 0 && i < |c|
    ensures HomesOf(c, capacity)[i] == Home(c[i], capacity)
    decreases |c|
  {
    if i < |c| - 1 {
      HomesOfAt(c[..|c| - 1], capacity, i);
    }
  }

  /** The table `t` indexes the first `n` strings, whose home slots are
      `homes`: slot `slots[i]` holds `i + 1`, no other slot holds a value,
      and every string is on the probe chain from its home slot. */
  ghost predicate TableInv(t: seq<nat>, homes: seq<nat>, n: nat, slots: seq<nat>)
  {
    && |t| > 0 && n <= |homes| && |slots| == n
    && (forall j :: 0 <= j < |t| ==> SlotHolds(t, slots, j))
    && (forall i :: 0 <= i < n ==> Placed(t, homes, slots, i))
  }

  /** Slot `j` is empty or holds `i + 1` for the string `i` placed there. */
  ghost predicate SlotHolds(t: seq<nat>, slots: seq<nat>, j: nat)
    requires j < |t|
  {
    t[j] <= |slots| && (t[j] != 0 ==> slots[t[j] - 1] == j)
  }

  /** String `i` is numbered in slot `slots[i]`, on the probe chain from its
      home slot. */
  ghost predicate Placed(t: seq<nat>, homes: seq<nat>, slots: seq<nat>, i: nat)
    requires i < |slots| && i < |homes|
  {
    slots[i] < |t| && t[slots[i]] == i + 1 && homes[i] < |t| && Reaches(t, homes[i], slots[i])
  }

  /** An all-empty table indexes no string. */
  lemma EmptyTable(t: seq<nat>, homes: seq<nat>)
    requires |t| > 0 && forall j :: 0 <= j < |t| ==> t[j] == 0
    ensures TableInv(t, homes, 0, [])
  {
  }

  /** Filling the empty slot that a probe from string `n`'s home stopped at
      indexes one more string. */
  lemma TableInsert(t: seq<nat>, homes: seq<nat>, n: nat, slots: seq<nat>, j: nat)
    requires TableInv(t, homes, n, slots) && n < |homes| && homes[n] < |t|
    requires j < |t| && t[j] == 0 && Reaches(t, homes[n], j)
    ensures TableInv(t[j := n + 1], homes, n + 1, slots + [j])
  {
    var t', slots' := t[j := n + 1], slots + [j];
    forall x | 0 <= x < |t'|
      ensures SlotHolds(t', slots', x)
    {
      if x != j {
        assert SlotHolds(t, slots, x);
      }
    }
    forall i | 0 <= i < n + 1
      ensures Placed(t', homes, slots', i)
    {
      if i < n {
        assert Placed(t, homes, slots, i);
      }
      forall k | 0 <= k < Dist(homes[i], slots'[i], |t|)
        ensures Occupied(t', homes[i], k)
      {
        assert Occupied(t, homes[i], k);
      }
    }
  }

  /** There are never more occupied slots than stored strings: distinct
      values from 1 to `n` number at most `n`. */
  lemma {:induction false} Pigeonhole(t: seq<nat>, n: nat)
    requires forall j :: 0 <= j < |t| ==> 1 <= t[j] <= n
    requires forall j, j' :: 0 <= j < j' < |t| ==> t[j] != t[j']
    ensures |t| <= n
    decreases |t|
  {
    if t != [] {
      var v := t[|t| - 1];
      var rest := seq(|t| - 1, j requires 0 <= j < |t| - 1 => if t[j] > v then t[j] - 1 else t[j]);
      forall j | 0 <= j < |rest|
        ensures 1 <= rest[j] <= n - 1
      {
        assert t[j] != v;
      }
      forall j, j' | 0 <= j < j' < |rest|
        ensures rest[j] != rest[j']
      {
        assert t[j] != v && t[j'] != v && t[j] != t[j'];
      }
      Pigeonhole(rest, n - 1);
    }
  }

  /** The slot `k` steps along the probe from `home` holds a string other
      than `cs`. */
  ghost predicate PassedAt(t: seq<nat>, c: seq<Str>, cs: Str, home: nat, k: nat)
    requires home < |t| && k < |t|
  {
    var v := t[Probe(home, k, |t|)];
    0 < v <= |c| && c[v - 1] != cs
  }

  /** The first `i` slots of the probe from `home` hold strings other than `cs`. */
  ghost predicate ProbedPast(t: seq<nat>, c: seq<Str>, cs: Str, home: nat, i: nat)
    requires home < |t| && i <= |t|
  {
    forall k :: 0 <= k < i ==> PassedAt(t, c, cs, home, k)
  }

  lemma ProbedPastStep(t: seq<nat>, c: seq<Str>, cs: Str, home: nat, i: nat)
    requires home < |t| && i < |t|
    requires ProbedPast(t, c, cs, home, i) && PassedAt(t, c, cs, home, i)
    ensures ProbedPast(t, c, cs, home, i + 1)
  {
  }

  /** A probe that passes every slot shows that the table indexes at least
      as many strings as it has slots. */
  lemma TableFull(t: seq<nat>, homes: seq<nat>, n: nat, slots: seq<nat>, c: seq<Str>, cs: Str, home: nat)
    requires TableInv(t, homes, n, slots) && home < |t|
    requires ProbedPast(t, c, cs, home, |t|)
    ensures |t| <= n
  {
    forall j | 0 <= j < |t|
      ensures 1 <= t[j] <= n
    {
      DistProbe(home, j, |t|);
      assert PassedAt(t, c, cs, home, Dist(home, j, |t|));
      assert SlotHolds(t, slots, j);
    }
    forall j, j' | 0 <= j < j' < |t|
      ensures t[j] != t[j']
    {
      assert SlotHolds(t, slots, j) && SlotHolds(t, slots, j');
    }
    Pigeonhole(t, n);
  }

  /** A probe from `home` that met an empty slot after `i` slots holding
      strings other than `cs`: no string equal to `cs` and homed at `home`
      is indexed, and the probe chain reaches the empty slot. */
  lemma NotInTable(t: seq<nat>, homes: seq<nat>, n: nat, slots: seq<nat>,
                   c: seq<Str>, cs: Str, home: nat, i: nat)
    requires TableInv(t, homes, n, slots) && n <= |c| && home < |t| && i < |t|
    requires forall m :: 0 <= m < n && c[m] == cs ==> homes[m] == home
    requires !Occupied(t, home, i) && ProbedPast(t, c, cs, home, i)
    ensures cs !in c[..n]
    ensures Reaches(t, home, Probe(home, i, |t|))
  {
    forall m | 0 <= m < n
      ensures c[m] != cs
    {
      NotStoredAt(t, homes, n, slots, c, cs, home, i, m);
    }
    DistProbe(home, Probe(home, i, |t|), |t|);
    forall k | 0 <= k < i
      ensures Occupied(t, home, k)
    {
      assert PassedAt(t, c, cs, home, k);
    }
  }

  /** The probe passed the slot of string `m`, which therefore differs from
      `cs`, or `m` is homed elsewhere. */
  lemma NotStoredAt(t: seq<nat>, homes: seq<nat>, n: nat, slots: seq<nat>,
                    c: seq<Str>, cs: Str, home: nat, i: nat, m: nat)
    requires TableInv(t, homes, n, slots) && n <= |c| && home < |t| && i < |t| && m < n
    requires c[m] == cs ==> homes[m] == home
    requires !Occupied(t, home, i) && ProbedPast(t, c, cs, home, i)
    ensures c[m] != cs
  {
    if homes[m] == home {
      assert Placed(t, homes, slots, m);
      var d := Dist(home, slots[m], |t|);
      DistProbe(home, slots[m], |t|);
      assert d < i;
      assert PassedAt(t, c, cs, home, d);
    }
  }

  predicate IsPow2(n: nat)
  {
    n == 1 || (n > 1 && n % 2 == 0 && IsPow2(n / 2))
  }

  /** The set's invariant on values: `t` is a power-of-two table, at most
      half of it in use before the latest insertion, indexing the distinct
      strings `c` by the slots `slots`. */
  ghost predicate SetInv(c: seq<Str>, t: seq<nat>, slots: seq<nat>)
  {
    && IsPow2(|t|)
    && |c| <= |t| / 2 + 1
    && Distinct(c)
    && TableInv(t, HomesOf(c, |t|), |c|, slots)
  }

  /** Indexing a new string in the empty slot its probe stopped at keeps
      the invariant. */
  lemma InsertKeepsInv(c: seq<Str>, t: seq<nat>, slots: seq<nat>, str: Str, slot: nat)
    requires SetInv(c, t, slots) && |c| <= |t| / 2 && CString(str) !in c
    requires slot < |t| && t[slot] == 0 && Reaches(t, Home(str, |t|), slot)
    ensures SetInv(c + [CString(str)], t[slot := |c| + 1], slots + [slot])
  {
    var cs := CString(str);
    var homes := HomesOf(c + [cs], |t|);
    HomesAppend(c, |t|, cs, str);
    TableInvHomes(t, HomesOf(c, |t|), homes, |c|, slots);
    TableInsert(t, homes, |c|, slots, slot);
    DistinctAppend(c, cs);
  }

  lemma DistinctAppend(c: seq<Str>, x: Str)
    requires Distinct(c) && x !in c
    ensures Distinct(c + [x])
  {
    forall i, j | 0 <= i < j < |c| + 1
      ensures Differ(c + [x], i, j)
    {
      if j < |c| {
        assert Differ(c, i, j);
      } else {
        assert c[i] in c;
      }
    }
  }

  /** A string equal to `str` as a C string has `str`'s home slot. */
  lemma SameHome(c: seq<Str>, capacity: nat, str: Str)
    requires capacity > 0
    ensures forall m :: 0 <= m < |c| && c[m] == CString(str) ==> HomesOf(c, capacity)[m] == Home(str, capacity)
  {
    forall m | 0 <= m < |c| && c[m] == CString(str)
      ensures HomesOf(c, capacity)[m] == Home(str, capacity)
    {
      HomesOfAt(c, capacity, m);
      HashOfCString(str);
    }
  }

  /** Appending `cs`, the C string of `str`, extends the home slots by
      `str`'s home. */
  lemma HomesAppend(c: seq<Str>, capacity: nat, cs: Str, str: Str)
    requires capacity > 0 && cs == CString(str)
    ensures HomesOf(c + [cs], capacity) == HomesOf(c, capacity) + [Home(str, capacity)]
  {
    assert (c + [cs])[..|c|] == c;
    HashOfCString(str);
  }

  /** A table only depends on the home slots of the strings it indexes. */
  lemma TableInvHomes(t: seq<nat>, homes: seq<nat>, homes': seq<nat>, n: nat, slots: seq<nat>)
    requires TableInv(t, homes, n, slots) && n <= |homes'|
    requires forall i :: 0 <= i < n ==> homes'[i] == homes[i]
    ensures TableInv(t, homes', n, slots)
  {
    forall i | 0 <= i < n
      ensures Placed(t, homes', slots, i)
    {
      assert Placed(t, homes, slots, i);
    }
  }
}
