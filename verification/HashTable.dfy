/** The open-addressing hash table of the counter benchmarks: linear probing over
    a table of 2^bits slots, filled with the keys of the generator `Lcg.KNUTH`.
    A slot holding 0 is empty. */
module HashTable {
  import opened Finite
  import opened Words
  import opened Lcg

  // ---- Slots around a ring -------------------------------------------------

  /** Steps forward from slot `from` to slot `to`, wrapping at `size`. */
  function Distance(from: nat, to: nat, size: nat): (d: nat)
    requires from < size && to < size
    ensures d < size
  {
    if from <= to then to - from else to + size - from
  }

  function Slot(from: nat, steps: nat, size: nat): (slot: nat)
    requires from < size && steps < size
    ensures slot < size && Distance(from, slot, size) == steps
    ensures slot == (from + steps) % size
  {
    if from + steps < size then from + steps else from + steps - size
  }

  function Home(x: u64, size: nat): (slot: nat)
    requires size > 0
    ensures slot < size
  {
    Shr(x, 17) % size
  }

  /** In a table of 2^bits slots the home of a key is its binary digits 17 to 16 + bits. */
  lemma HomeDigits(x: u64, bits: nat)
    ensures Home(x, Pow2(bits)) == x / 0x2_0000 % Pow2(bits)
  {
    hide Shr, Pow2;
    ShrIsDivision(x, 17);
    Seventeen();
  }

  lemma Seventeen()
    ensures Pow2(17) == 0x2_0000
  {
    Pow2Small();
  }

  // ---- What the table stores -----------------------------------------------

  function Contents(s: seq<u64>): set<u64> {
    set x | x in s && x != 0
  }

  function OccupiedSlots(s: seq<u64>): set<nat> {
    set i: nat | i < |s| && s[i] != 0
  }

  ghost predicate Distinct(s: seq<u64>) {
    forall i, j :: 0 <= i < j < |s| && s[i] != 0 ==> s[i] != s[j]
  }

  /** No empty slot lies between the home of the key in slot `i` and `i` itself. */
  ghost predicate Reached(s: seq<u64>, i: nat)
    requires i < |s|
  {
    forall d :: 0 <= d < Distance(Home(s[i], |s|), i, |s|) ==> s[Slot(Home(s[i], |s|), d, |s|)] != 0
  }

  /** The linear-probing invariant. */
  ghost predicate Probed(s: seq<u64>) {
    Distinct(s) && forall i :: 0 <= i < |s| && s[i] != 0 ==> Reached(s, i)
  }

  /** Probing for `x` stops at slot `h`: it is empty or holds `x`, and no slot before it does. */
  ghost predicate StopsAt(s: seq<u64>, x: u64, h: nat)
    requires h < |s|
  {
    (s[h] == 0 || s[h] == x) &&
    forall d :: 0 <= d < Distance(Home(x, |s|), h, |s|) ==>
      s[Slot(Home(x, |s|), d, |s|)] != 0 && s[Slot(Home(x, |s|), d, |s|)] != x
  }

  /** A probe can stop at one slot only. */
  lemma StopIsUnique(s: seq<u64>, x: u64, g: nat, h: nat)
    requires g < |s| && h < |s| && StopsAt(s, x, g) && StopsAt(s, x, h)
    ensures g == h
  {
    var home := Home(x, |s|);
    var dg, dh := Distance(home, g, |s|), Distance(home, h, |s|);
    assert Slot(home, dg, |s|) == g && Slot(home, dh, |s|) == h;
  }

  /** A probe finds exactly the stored keys. */
  lemma ProbeFinds(s: seq<u64>, x: u64, h: nat)
    requires Probed(s) && h < |s| && StopsAt(s, x, h) && x != 0
    ensures s[h] == x <==> x in Contents(s)
  {
    if x in s {
      var i :| 0 <= i < |s| && s[i] == x;
      assert Reached(s, i);
      var home := Home(x, |s|);
      var di, dh := Distance(home, i, |s|), Distance(home, h, |s|);
      assert Slot(home, di, |s|) == i && Slot(home, dh, |s|) == h;
      assert di == dh;
    }
  }

  /** Storing a key where its probe stops keeps the invariant and adds just that key. */
  lemma StoreKeepsInvariant(s: seq<u64>, x: u64, h: nat)
    requires Probed(s) && h < |s| && StopsAt(s, x, h)
    ensures Probed(s[h := x])
    ensures Contents(s[h := x]) == Contents(s) + {x} - {0}
    ensures |OccupiedSlots(s[h := x])| <= |OccupiedSlots(s)| + if x == 0 then 0 else 1
  {
    var s' := s[h := x];
    if s[h] == x {
      assert s' == s;
    } else {
      ProbeFinds(s, x, h);
      forall i, j | 0 <= i < j < |s'| && s'[i] != 0
        ensures s'[i] != s'[j]
      {
        assert s[i] in s && s[j] in s;
      }
      forall i | 0 <= i < |s'| && s'[i] != 0
        ensures Reached(s', i)
      {
        if i != h { assert Reached(s, i); }
      }
      forall y ensures y in Contents(s') <==> y in Contents(s) + {x} - {0} {
        if y in s && y != 0 {
          var i :| 0 <= i < |s| && s[i] == y;
          assert s'[i] == y;
        }
        assert s'[h] == x;
      }
      assert OccupiedSlots(s') == OccupiedSlots(s) + {h};
    }
  }

  /** A table with fewer occupied slots than slots has an empty one. */
  lemma EmptySlot(s: seq<u64>) returns (g: nat)
    requires |OccupiedSlots(s)| < |s|
    ensures g < |s| && s[g] == 0
  {
    if Below(|s|) <= OccupiedSlots(s) {
      SubsetSize(Below(|s|), OccupiedSlots(s));
      assert false;
    }
    assert exists g: nat :: g in Below(|s|) && g !in OccupiedSlots(s);
    g :| g < |s| && s[g] == 0;
  }

  lemma ContentsAppend(t: seq<u64>, x: u64)
    ensures Contents(t + [x]) == Contents(t) + (if x == 0 then {} else {x})
  {}

  lemma OccupiedAppend(t: seq<u64>, x: u64)
    ensures OccupiedSlots(t + [x]) == OccupiedSlots(t) + (if x == 0 then {} else {|t|})
  {}

  lemma DistinctAppend(t: seq<u64>, x: u64)
    requires Distinct(t + [x])
    ensures Distinct(t) && (x != 0 ==> x !in Contents(t))
  {
    var s := t + [x];
    forall i, j | 0 <= i < j < |t| && t[i] != 0 ensures t[i] != t[j] {
      assert s[i] == t[i] && s[j] == t[j];
    }
    if i :| 0 <= i < |t| && t[i] == x {
      assert s[i] == s[|t|];
    }
  }

  /** Under the invariant every occupied slot stores a key of its own. */
  lemma {:induction false} OccupiedIsContents(s: seq<u64>)
    requires Distinct(s)
    ensures |OccupiedSlots(s)| == |Contents(s)|
  {
    if s == [] {
      assert OccupiedSlots(s) == {} && Contents(s) == {};
    } else {
      hide *;
      var t, x := s[..|s| - 1], s[|s| - 1];
      assert s == t + [x];
      DistinctAppend(t, x);
      OccupiedIsContents(t);
      ContentsAppend(t, x);
      OccupiedAppend(t, x);
      SlotsInRange(t);
    }
  }

  lemma SlotsInRange(s: seq<u64>)
    ensures |s| !in OccupiedSlots(s)
  {}

  /** After clearing and one run of `n` keys, `n` slots are taken, or one fewer when key 0 was drawn. */
  lemma FreshRunOccupancy(s: seq<u64>, g: Generator, seed: nat, n: nat)
    requires Probed(s) && g.Valid() && seed < g.Modulus() && n <= g.Modulus()
    requires Contents(s) == Keys(g, seed, n) - {0}
    ensures |OccupiedSlots(s)| == n - (if 0 in Keys(g, seed, n) then 1 else 0)
  {
    OccupiedIsContents(s);
    KeysDistinct(g, seed, n);
    var keys := Keys(g, seed, n);
    if 0 in keys {
      assert keys == (keys - {0}) + {0};
    } else {
      assert keys == keys - {0};
    }
  }

  // ---- When probes stop ------------------------------------------------------

  /** The `i`-th key drawn after `seed`. */
  function Key(seed: u64, i: nat): (x: u64)
    ensures x == Iterate(KNUTH, seed, i)
  {
    KeyIsWord(seed, i);
    Iterate(KNUTH, seed, i)
  }

  lemma KeyIsWord(seed: u64, i: nat)
    ensures Iterate(KNUTH, seed, i) < TWO_64
  {
    Pow2Known();
  }

  ghost predicate CanStop(s: seq<u64>, x: u64) {
    exists h: nat :: h < |s| && StopsAt(s, x, h)
  }

  /** Walking from the home of `x`, with the first `d` slots all taken by other keys. */
  lemma {:induction false} FirstStop(s: seq<u64>, x: u64, g: nat, d: nat)
    requires g < |s| && (s[g] == 0 || s[g] == x) && d <= Distance(Home(x, |s|), g, |s|)
    requires forall e :: 0 <= e < d ==> s[Slot(Home(x, |s|), e, |s|)] != 0 && s[Slot(Home(x, |s|), e, |s|)] != x
    ensures CanStop(s, x)
    decreases Distance(Home(x, |s|), g, |s|) - d
  {
    var home := Home(x, |s|);
    var h := Slot(home, d, |s|);
    if s[h] == 0 || s[h] == x {
      assert StopsAt(s, x, h);
    } else {
      assert Slot(home, Distance(home, g, |s|), |s|) == g;
      FirstStop(s, x, g, d + 1);
    }
  }

  /** A probe stops exactly when some slot is empty or holds its key. */
  lemma StopsExactly(s: seq<u64>, x: u64)
    ensures CanStop(s, x) <==> exists g :: 0 <= g < |s| && (s[g] == 0 || s[g] == x)
  {
    if g :| 0 <= g < |s| && (s[g] == 0 || s[g] == x) {
      FirstStop(s, x, g, 0);
    }
  }

  /** On a valid table: exactly when the key is stored, or there is an empty slot. */
  lemma StopsOrFull(s: seq<u64>, x: u64)
    requires Distinct(s)
    ensures CanStop(s, x) <==> x in Contents(s) || |Contents(s)| < |s|
  {
    StopsExactly(s, x);
    OccupiedIsContents(s);
    if |OccupiedSlots(s)| < |s| {
      var g := EmptySlot(s);
    } else if g :| 0 <= g < |s| && s[g] == 0 {
      NoEmptySlot(s, g);
    }
  }

  lemma NoEmptySlot(s: seq<u64>, g: nat)
    requires g < |s| && s[g] == 0
    ensures |OccupiedSlots(s)| < |s|
  {
    SizeBelow(OccupiedSlots(s), |s|);
    assert g in Below(|s|) && g !in OccupiedSlots(s);
  }

  /** The table with `x` stored where its probe stops. */
  ghost function Stored(s: seq<u64>, x: u64): (t: seq<u64>)
    requires CanStop(s, x)
    ensures |t| == |s|
  {
    var h: nat :| h < |s| && StopsAt(s, x, h);
    s[h := x]
  }

  /** The probes of the first `n` keys stop, each storing its key before the next. */
  ghost predicate FirstPassStops(s: seq<u64>, seed: u64, n: nat)
    decreases n, 0
  {
    n > 0 ==> FirstPassStops(s, seed, n - 1) && CanStop(Filled(s, seed, n - 1), Key(seed, n))
  }

  /** The table after the first `n` keys. */
  ghost function Filled(s: seq<u64>, seed: u64, n: nat): (t: seq<u64>)
    requires FirstPassStops(s, seed, n)
    ensures |t| == |s|
    decreases n, 1
  {
    if n == 0 then s else Stored(Filled(s, seed, n - 1), Key(seed, n))
  }

  /** The probes of the first `n` keys all stop on a table that no longer changes. */
  ghost predicate SecondPassStops(s: seq<u64>, seed: u64, n: nat) {
    forall i :: 1 <= i <= n ==> KeyStops(s, seed, i)
  }

  ghost predicate KeyStops(s: seq<u64>, seed: u64, i: nat) {
    CanStop(s, Key(seed, i))
  }

  /** Every probe of a run of `n` keys stops. */
  ghost predicate RunStops(s: seq<u64>, seed: u64, n: nat) {
    FirstPassStops(s, seed, n) && SecondPassStops(Filled(s, seed, n), seed, n)
  }

  lemma {:induction false} FilledContents(s: seq<u64>, seed: u64, n: nat)
    requires Probed(s) && FirstPassStops(s, seed, n)
    ensures Probed(Filled(s, seed, n))
    ensures Contents(Filled(s, seed, n)) == Contents(s) + Keys(KNUTH, seed, n) - {0}
  {
    if n == 0 {
      NoZero(s);
    } else {
      hide Probed, StopsAt, Contents, Key, Keys;
      KeysNext(seed, n);
      PassNext(s, seed, n);
      FilledContents(s, seed, n - 1);
      var t, x := Filled(s, seed, n - 1), Key(seed, n);
      var h: nat :| h < |t| && StopsAt(t, x, h) && Stored(t, x) == t[h := x];
      StoreKeepsInvariant(t, x, h);
    }
  }

  lemma KeysNext(seed: u64, n: nat)
    requires n > 0
    ensures Keys(KNUTH, seed, n) == Keys(KNUTH, seed, n - 1) + {Key(seed, n)}
  {}

  lemma PassNext(s: seq<u64>, seed: u64, n: nat)
    requires n > 0
    ensures FirstPassStops(s, seed, n) <==>
      (FirstPassStops(s, seed, n - 1) && CanStop(Filled(s, seed, n - 1), Key(seed, n)))
    ensures FirstPassStops(s, seed, n) ==> Filled(s, seed, n) == Stored(Filled(s, seed, n - 1), Key(seed, n))
  {
    hide Key, CanStop, Stored;
  }

  lemma PassStart(s: seq<u64>, seed: u64)
    ensures FirstPassStops(s, seed, 0) && Filled(s, seed, 0) == s
  {}

  lemma NoZero(s: seq<u64>)
    ensures Contents(s) == Contents(s) - {0}
  {}

  /** A key that is stored, or for which there is room, stops. */
  lemma RoomToStop(s: seq<u64>, x: u64, all: set<int>)
    requires Probed(s) && Contents(s) + {x} <= all && |all| <= |s|
    ensures CanStop(s, x)
  {
    hide CanStop, Reached;
    if x !in Contents(s) {
      SubsetSize(Contents(s) + {x}, all);
    }
    StopsOrFull(s, x);
  }

  lemma {:induction false} FirstPassHasRoom(s: seq<u64>, seed: u64, n: nat, all: set<int>)
    requires Probed(s) && Contents(s) + Keys(KNUTH, seed, n) <= all && |all| <= |s|
    ensures FirstPassStops(s, seed, n)
  {
    if n > 0 {
      hide Probed, Contents, CanStop, Key;
      FirstPassHasRoom(s, seed, n - 1, all);
      FilledContents(s, seed, n - 1);
      RoomToStop(Filled(s, seed, n - 1), Key(seed, n), all);
    }
  }

  lemma SecondPassHasRoom(s: seq<u64>, seed: u64, n: nat, all: set<int>)
    requires Probed(s) && Contents(s) + Keys(KNUTH, seed, n) <= all && |all| <= |s|
    ensures SecondPassStops(s, seed, n)
  {
    hide Probed, Contents, CanStop, Key;
    forall i | 1 <= i <= n
      ensures KeyStops(s, seed, i)
    {
      DrawnKey(seed, n, i);
      RoomToStop(s, Key(seed, i), all);
    }
  }

  lemma DrawnKey(seed: u64, n: nat, i: nat)
    requires 1 <= i <= n
    ensures Key(seed, i) in Keys(KNUTH, seed, n)
  {
    hide Key;
    assert DrawnAt(KNUTH, seed, i, Key(seed, i));
    KeysMembers(KNUTH, seed, n, Key(seed, i));
  }

  /** On a valid table every probe of both passes stops exactly when the table has a slot
      for each key it then holds, and one to spare if key 0, which is never stored, is drawn. */
  lemma RunStopsExactly(s: seq<u64>, seed: u64, n: nat)
    requires Probed(s)
    ensures RunStops(s, seed, n) <==> |Contents(s) + Keys(KNUTH, seed, n)| <= |s|
  {
    hide Probed, Contents, CanStop, Key, Keys, FirstPassStops, Filled, SecondPassStops;
    var all := Contents(s) + Keys(KNUTH, seed, n);
    if |all| <= |s| {
      FirstPassHasRoom(s, seed, n, all);
      FilledContents(s, seed, n);
      SecondPassHasRoom(Filled(s, seed, n), seed, n, all);
    }
    if RunStops(s, seed, n) {
      FilledContents(s, seed, n);
      NoZero(s);
      StoppedHasRoom(Filled(s, seed, n), seed, n, all);
    }
  }

  /** Otherwise the probe of some key, in the table as the first pass has it by then or in the
      one it leaves, goes round for ever: every slot is taken by another key. */
  lemma SomeProbeHangs(s: seq<u64>, seed: u64, n: nat) returns (i: nat, t: seq<u64>)
    requires Probed(s) && |Contents(s) + Keys(KNUTH, seed, n)| > |s|
    ensures 1 <= i <= n
    ensures (FirstPassStops(s, seed, i - 1) && t == Filled(s, seed, i - 1))
         || (FirstPassStops(s, seed, n) && t == Filled(s, seed, n))
    ensures forall h :: 0 <= h < |t| ==> t[h] != 0 && t[h] != Key(seed, i)
  {
    hide Probed, Contents, Key, Keys, FirstPassStops, Filled, CanStop;
    RunStopsExactly(s, seed, n);
    if FirstPassStops(s, seed, n) {
      t := Filled(s, seed, n);
      i :| 1 <= i <= n && !KeyStops(t, seed, i);
    } else {
      i := FirstHang(s, seed, n);
      t := Filled(s, seed, i - 1);
    }
    StopsExactly(t, Key(seed, i));
  }

  lemma {:induction false} FirstHang(s: seq<u64>, seed: u64, n: nat) returns (i: nat)
    requires !FirstPassStops(s, seed, n)
    ensures 1 <= i <= n && FirstPassStops(s, seed, i - 1) && !CanStop(Filled(s, seed, i - 1), Key(seed, i))
  {
    hide Filled, Key, CanStop;
    PassStart(s, seed);
    PassNext(s, seed, n);
    i := n;
    if !FirstPassStops(s, seed, n - 1) { i := FirstHang(s, seed, n - 1); }
  }

  lemma StoppedHasRoom(t: seq<u64>, seed: u64, n: nat, all: set<int>)
    requires Probed(t) && SecondPassStops(t, seed, n) && Contents(t) == all - {0}
    requires 0 in all ==> 0 in Keys(KNUTH, seed, n)
    ensures |all| <= |t|
  {
    hide CanStop, Key, Keys, Reached;
    OccupiedIsContents(t);
    SizeBelow(OccupiedSlots(t), |t|);
    if 0 in all {
      KeysMembers(KNUTH, seed, n, 0);
      var i :| 1 <= i <= n && DrawnAt(KNUTH, seed, i, 0);
      assert KeyStops(t, seed, i);
      StopsOrFull(t, 0);
      assert all == (all - {0}) + {0};
    } else {
      assert all == all - {0};
    }
  }

  // ---- The table itself ----------------------------------------------------

  class Table {
    const bits: nat
    const slots: array<u64>

    ghost predicate Valid()
      reads this, slots
    {
      slots.Length == Pow2(bits) && Probed(slots[..])
    }

    constructor (bits: nat)
      ensures Valid() && fresh(slots) && this.bits == bits
      ensures Contents(slots[..]) == {}
    {
      this.bits := bits;
      slots := new u64[Pow2(bits)](_ => 0);
    }

    method Clear()
      requires slots.Length == Pow2(bits)
      modifies slots
      ensures Valid() && Contents(slots[..]) == {} && OccupiedSlots(slots[..]) == {}
    {
      for i := 0 to slots.Length
        invariant forall j :: 0 <= j < i ==> slots[j] == 0
      {
        slots[i] := 0;
      }
    }

    /** The probe loop, which both passes of `Work` run for every key. */
    method Probe(x: u64, ghost g: nat) returns (h: nat)
      requires Valid()
      requires g < slots.Length && (slots[g] == 0 || slots[g] == x)
      ensures h < slots.Length && StopsAt(slots[..], x, h)
    {
      hide And, Shr, Pow2;
      var mask := Pow2(bits) - 1;
      h := And(Shr(x, 17), mask);
      MaskIsModulo(Shr(x, 17), bits);
      ghost var size := slots.Length;
      ghost var home := Home(x, size);
      ghost var d := 0;
      assert Slot(home, Distance(home, g, size), size) == g;
      while slots[h] != 0 && slots[h] != x
        invariant d < size && h == Slot(home, d, size)
        invariant forall e :: 0 <= e < d ==>
          slots[Slot(home, e, size)] != 0 && slots[Slot(home, e, size)] != x
        decreases Distance(home, g, size) - d
      {
        NextSlot(h, bits);
        h := And(h + 1, mask);
        d := d + 1;
      }
    }

    /** First pass: draws `n` keys and stores each. */
    method Fill(n: nat, seed: u64)
      requires Valid() && FirstPassStops(slots[..], seed, n)
      modifies slots
      ensures Valid() && slots[..] == Filled(old(slots[..]), seed, n)
      ensures Contents(slots[..]) == old(Contents(slots[..])) + Keys(KNUTH, seed, n) - {0}
    {
      hide Shr, Pow2, Iterate, Probed, Contents, StopsAt, Filled, FirstPassStops;
      IterateZero(KNUTH, seed);
      var x := seed;
      ghost var before := slots[..];
      PassStart(before, seed);
      for i := 0 to n
        invariant Valid() && x == Iterate(KNUTH, seed, i)
        invariant FirstPassStops(before, seed, i) && slots[..] == Filled(before, seed, i)
      {
        PassPrefix(before, seed, n, i + 1);
        PassNext(before, seed, i + 1);
        x := Draw(x, seed, i);
        ghost var g := StopExists(slots[..], x);
        var h := Probe(x, g);
        StoredAt(slots[..], x, h);
        ghost var was := slots[..];
        slots[h] := x;
        assert slots[..] == was[h := x];
        FilledContents(before, seed, i + 1);
      }
      FilledContents(before, seed, n);
    }

    /** Second pass: draws the same keys again and counts those it finds. */
    method LookUp(n: nat, seed: u64) returns (found: nat)
      requires Valid() && SecondPassStops(slots[..], seed, n)
      requires Keys(KNUTH, seed, n) - {0} <= Contents(slots[..])
      ensures found == n
    {
      hide Shr, Pow2, Iterate, Probed, Contents, CanStop;
      IterateZero(KNUTH, seed);
      var x := seed;
      found := 0;
      for i := 0 to n
        invariant x == Iterate(KNUTH, seed, i) && found == i
      {
        x := Draw(x, seed, i);
        assert KeyStops(slots[..], seed, i + 1);
        ghost var g := StopExists(slots[..], x);
        var h := Probe(x, g);
        DrawnKey(seed, n, i + 1);
        if x != 0 { ProbeFinds(slots[..], x, h); }
        found := found + if slots[h] == x then 1 else 0;
      }
    }

    /** Inserts `n` keys, then looks them all up. */
    method Work(n: nat, seed: u64) returns (found: nat)
      requires Valid()
      requires |Contents(slots[..]) + Keys(KNUTH, seed, n)| <= slots.Length
      modifies slots
      ensures Valid()
      ensures Contents(slots[..]) == old(Contents(slots[..])) + Keys(KNUTH, seed, n) - {0}
      ensures found == n
    {
      hide Probed, Pow2, Contents, SecondPassStops, FirstPassStops, Filled;
      RunStopsExactly(slots[..], seed, n);
      Fill(n, seed);
      found := LookUp(n, seed);
    }

    /** As the benchmark runs it: clear the table, then one timed run. */
    method FreshRun(n: nat, seed: u64) returns (found: nat)
      requires slots.Length == Pow2(bits) && n <= slots.Length && n <= TWO_64
      modifies slots
      ensures Valid() && found == n
      ensures |OccupiedSlots(slots[..])| == n - (if 0 in Keys(KNUTH, seed, n) then 1 else 0)
    {
      hide Probed, Pow2, Filled;
      Clear();
      KnuthStep(seed);
      KeysDistinct(KNUTH, seed, n);
      assert Contents(slots[..]) + Keys(KNUTH, seed, n) == Keys(KNUTH, seed, n);
      found := Work(n, seed);
      FreshRunOccupancy(slots[..], KNUTH, seed, n);
    }
  }

  lemma {:induction false} PassPrefix(s: seq<u64>, seed: u64, n: nat, i: nat)
    requires i <= n && FirstPassStops(s, seed, n)
    ensures FirstPassStops(s, seed, i)
  {
    if i < n {
      hide *;
      PassNext(s, seed, n);
      PassPrefix(s, seed, n - 1, i);
    }
  }

  /** Storing happens at the one slot where the probe stops. */
  lemma StoredAt(s: seq<u64>, x: u64, h: nat)
    requires h < |s| && StopsAt(s, x, h)
    ensures CanStop(s, x) && Stored(s, x) == s[h := x]
  {
    hide StopsAt;
    var g: nat :| g < |s| && StopsAt(s, x, g) && Stored(s, x) == s[g := x];
    StopIsUnique(s, x, g, h);
  }

  lemma StopExists(s: seq<u64>, x: u64) returns (g: nat)
    requires CanStop(s, x)
    ensures g < |s| && (s[g] == 0 || s[g] == x)
  {
    var h: nat :| h < |s| && StopsAt(s, x, h);
    g := h;
  }

  lemma NextSlot(h: nat, bits: nat)
    requires h < Pow2(bits)
    ensures And(h + 1, Pow2(bits) - 1) == if h + 1 < Pow2(bits) then h + 1 else 0
  {
    MaskIsModulo(h + 1, bits);
    if h + 1 < Pow2(bits) {
      DivUnique(h + 1, Pow2(bits), 0, h + 1);
    } else {
      DivUnique(h + 1, Pow2(bits), 1, 0);
    }
  }

  /** One step of the key stream, inlined in both passes of `work`. */
  method Draw(x: u64, ghost seed: u64, ghost i: nat) returns (y: u64)
    requires x == Iterate(KNUTH, seed, i)
    ensures y == Iterate(KNUTH, seed, i + 1)
    ensures Keys(KNUTH, seed, i + 1) == Keys(KNUTH, seed, i) + {y}
  {
    KnuthStep(x);
    y := Wrap64(x * MULTIPLIER + INCREMENT);
  }
}
