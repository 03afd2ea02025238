/** The hash spreads the ephemeral ports evenly: all table entries it reaches at
    all are reached by equally many ports. */
module Fibres {
  import opened Finite
  import opened Words
  import opened Toeplitz
  import opened Steering

  /** The table entry of the `i`-th ephemeral port. */
  function EntryOf(rss: Rss, flow: Flow, i: nat): nat
    requires rss.reta != [] && i < EPH_LEN
  {
    Entry(Hash(rss.key, Tuple(flow, EPH_BASE + i)), |rss.reta|)
  }

  /** The ephemeral ports whose return traffic uses table entry `e`. */
  function Fibre(rss: Rss, flow: Flow, e: nat): set<nat>
    requires rss.reta != []
  {
    set i: nat | i < EPH_LEN && EntryOf(rss, flow, i) == e
  }

  // ---- Moving a port by an exclusive-or moves its entry by a fixed one ------

  function Zeros(n: nat): (z: seq<byte>)
    ensures |z| == n
  {
    seq(n, _ => 0)
  }

  function MaskTuple(m: u16): (t: seq<byte>)
    ensures |t| == 12
  {
    Zeros(10) + Be16(m)
  }

  lemma XorLow16(a: u16, b: u16)
    ensures Xor(a, b) < 0x1_0000
    ensures Xor(a, b) / 256 == Xor(a / 256, b / 256)
    ensures Xor(a, b) % 256 == Xor(a % 256, b % 256)
  {
    hide Xor, Shr, Low, Pow2;
    Pow2Known();
    XorBound(a, b, 16);
    ShrXor(a, b, 8);
    ShrIsDivision(Xor(a, b), 8);
    ShrIsDivision(a, 8);
    ShrIsDivision(b, 8);
    LowXor(a, b, 8);
    LowIsRemainder(Xor(a, b), 8);
    LowIsRemainder(a, 8);
    LowIsRemainder(b, 8);
  }

  lemma TupleShift(flow: Flow, port: u16, m: u16)
    ensures Xor(port, m) < 0x1_0000
    ensures Tuple(flow, Xor(port, m)) == XorBytes(Tuple(flow, port), MaskTuple(m))
  {
    hide Xor;
    XorLow16(port, m);
    var t, z := Tuple(flow, port), MaskTuple(m);
    forall i | 0 <= i < 12
      ensures Tuple(flow, Xor(port, m))[i] == XorBytes(t, z)[i]
    {
      XorZero(t[i]);
    }
  }

  /** Positions below 2^14 are closed under exclusive-or, which acts on ports as on positions. */
  lemma PortShift(i: nat, m: nat)
    requires i < EPH_LEN && m < EPH_LEN
    ensures Xor(i, m) < EPH_LEN
    ensures EPH_BASE + Xor(i, m) == Xor(EPH_BASE + i, m)
  {
    hide Xor, Pow2;
    Pow2Known();
    XorBound(i, m, 14);
    assert HalvesEvenly(14, EPH_BASE);
    AddIsXor(EPH_BASE, i, 14);
    AddIsXor(EPH_BASE, Xor(i, m), 14);
    XorAssoc(EPH_BASE, i, m);
  }

  /** By how much the entry moves when the port moves by `m`. */
  function EntryShift(rss: Rss, m: u16): nat
    requires rss.reta != []
  {
    Entry(Hash(rss.key, MaskTuple(m)), |rss.reta|)
  }

  lemma EntryMoves(rss: Rss, flow: Flow, i: nat, m: nat)
    requires rss.reta != [] && i < EPH_LEN && m < EPH_LEN
    ensures Xor(i, m) < EPH_LEN
    ensures EntryOf(rss, flow, Xor(i, m)) == Xor(EntryOf(rss, flow, i), EntryShift(rss, m))
  {
    hide Xor, Hash, And, Tuple, MaskTuple, XorBytes;
    PortShift(i, m);
    TupleShift(flow, EPH_BASE + i, m);
    var t, z := Tuple(flow, EPH_BASE + i), MaskTuple(m);
    HashLinear(rss.key, t, z);
    AndXor(Hash(rss.key, t), Hash(rss.key, z), |rss.reta| - 1);
  }

  lemma XorCancel(a: nat, b: nat)
    ensures Xor(Xor(a, b), b) == a && Xor(a, Xor(a, b)) == b
  {
    XorAssoc(a, b, b);
    XorZero(b);
    XorZero(a);
    XorAssoc(a, a, b);
  }

  /** A port that reaches `e` and one that reaches `f` carry every port of the
      first fibre into the second. */
  lemma FibreInto(rss: Rss, flow: Flow, i0: nat, i1: nat, i: nat)
    requires rss.reta != [] && i0 < EPH_LEN && i1 < EPH_LEN
    requires i in Fibre(rss, flow, EntryOf(rss, flow, i0))
    ensures Xor(i, Xor(i0, i1)) in Fibre(rss, flow, EntryOf(rss, flow, i1))
  {
    hide Xor, EntryOf, EntryShift;
    PortShift(i0, i1);
    var m := Xor(i0, i1);
    EntryMoves(rss, flow, i0, m);
    EntryMoves(rss, flow, i, m);
    XorCancel(i0, i1);
  }

  lemma {:induction false} ShiftInjects(a: set<nat>, b: set<nat>, m: nat)
    requires forall i :: i in a ==> Xor(i, m) in b
    ensures |a| <= |b|
  {
    hide Xor;
    if a != {} {
      var x :| x in a;
      forall i | i in a - {x}
        ensures Xor(i, m) in b - {Xor(x, m)}
      {
        XorCancel(i, m);
        XorCancel(x, m);
      }
      ShiftInjects(a - {x}, b - {Xor(x, m)}, m);
    }
  }

  /** Any two entries that some ephemeral port reaches are reached by equally many. */
  lemma EqualFibres(rss: Rss, flow: Flow, e: nat, f: nat)
    requires rss.reta != []
    requires Fibre(rss, flow, e) != {} && Fibre(rss, flow, f) != {}
    ensures |Fibre(rss, flow, e)| == |Fibre(rss, flow, f)|
  {
    hide Xor, EntryOf;
    var i :| i in Fibre(rss, flow, e);
    var j :| j in Fibre(rss, flow, f);
    FibreAtMost(rss, flow, i, j);
    FibreAtMost(rss, flow, j, i);
  }

  lemma FibreAtMost(rss: Rss, flow: Flow, i0: nat, i1: nat)
    requires rss.reta != [] && i0 < EPH_LEN && i1 < EPH_LEN
    ensures |Fibre(rss, flow, EntryOf(rss, flow, i0))| <= |Fibre(rss, flow, EntryOf(rss, flow, i1))|
  {
    hide Xor, EntryOf;
    var a := Fibre(rss, flow, EntryOf(rss, flow, i0));
    var b := Fibre(rss, flow, EntryOf(rss, flow, i1));
    forall i | i in a
      ensures Xor(i, Xor(i0, i1)) in b
    {
      FibreInto(rss, flow, i0, i1, i);
    }
    ShiftInjects(a, b, Xor(i0, i1));
  }

  // ---- Counting through the table ------------------------------------------

  /** The entries among `es` that some ephemeral port reaches. */
  function Hit(rss: Rss, flow: Flow, es: set<nat>): set<nat>
    requires rss.reta != []
  {
    set e | e in es && Fibre(rss, flow, e) != {}
  }

  /** The ephemeral ports that reach one of the entries `es`. */
  function Reaching(rss: Rss, flow: Flow, es: set<nat>): set<nat>
    requires rss.reta != []
  {
    set i: nat | i < EPH_LEN && EntryOf(rss, flow, i) in es
  }

  /** The common size of all reached fibres. */
  function FibreSize(rss: Rss, flow: Flow): nat
    requires rss.reta != []
  {
    |Fibre(rss, flow, EntryOf(rss, flow, 0))|
  }

  lemma ReachingAdd(rss: Rss, flow: Flow, es: set<nat>, e: nat)
    requires rss.reta != [] && e !in es
    ensures |Reaching(rss, flow, es + {e})| == |Reaching(rss, flow, es)| + |Fibre(rss, flow, e)|
  {
    hide EntryOf;
    assert Reaching(rss, flow, es + {e}) == Reaching(rss, flow, es) + Fibre(rss, flow, e);
    DisjointUnionSize(Reaching(rss, flow, es), Fibre(rss, flow, e));
  }

  lemma HitAdd(rss: Rss, flow: Flow, es: set<nat>, e: nat)
    requires rss.reta != [] && e !in es
    ensures |Hit(rss, flow, es + {e})|
         == |Hit(rss, flow, es)| + if Fibre(rss, flow, e) == {} then 0 else 1
  {
    hide Fibre;
    assert Hit(rss, flow, es + {e})
        == Hit(rss, flow, es) + if Fibre(rss, flow, e) == {} then {} else {e};
  }

  lemma FibreIsCommon(rss: Rss, flow: Flow, e: nat)
    requires rss.reta != [] && Fibre(rss, flow, e) != {}
    ensures |Fibre(rss, flow, e)| == FibreSize(rss, flow)
  {
    hide EntryOf;
    assert 0 in Fibre(rss, flow, EntryOf(rss, flow, 0));
    EqualFibres(rss, flow, e, EntryOf(rss, flow, 0));
  }

  lemma ReachingNone(rss: Rss, flow: Flow)
    requires rss.reta != []
    ensures Reaching(rss, flow, {}) == {} && Hit(rss, flow, {}) == {}
  {
    hide EntryOf, Fibre;
  }

  lemma {:induction false} ReachingCount(rss: Rss, flow: Flow, es: set<nat>)
    requires rss.reta != []
    ensures |Reaching(rss, flow, es)| == FibreSize(rss, flow) * |Hit(rss, flow, es)|
  {
    hide *;
    if es == {} {
      ReachingNone(rss, flow);
    } else {
      var e :| e in es;
      var rest := es - {e};
      assert es == rest + {e};
      ReachingCount(rss, flow, rest);
      ReachingAdd(rss, flow, rest, e);
      HitAdd(rss, flow, rest, e);
      if Fibre(rss, flow, e) != {} {
        FibreIsCommon(rss, flow, e);
        OneMore(FibreSize(rss, flow), |Hit(rss, flow, rest)|);
      }
    }
  }

  lemma OneMore(f: nat, h: nat)
    ensures f * (h + 1) == f * h + f
  {}

  /** The entries the table assigns to `queue`. */
  function EntriesFor(rss: Rss, queue: u16): set<nat> {
    set e: nat | e < |rss.reta| && rss.reta[e] == queue
  }

  /** Hashing over several queues, every worker owns a multiple of one common number of
      ports, and that number times the entries reached is the whole ephemeral range. */
  lemma OwnedIsMultiple(rss: Rss, flow: Flow, queue: u16)
    requires rss.Loaded() && !rss.single
    ensures |Steered(rss, flow, queue, EPH_LEN)|
         == FibreSize(rss, flow) * |Hit(rss, flow, EntriesFor(rss, queue))|
    ensures FibreSize(rss, flow) * |Hit(rss, flow, Below(|rss.reta|))| == EPH_LEN
  {
    hide Hash, Tuple, Entry;
    assert Steered(rss, flow, queue, EPH_LEN) == Reaching(rss, flow, EntriesFor(rss, queue)) by {
      forall i: nat | i < EPH_LEN
        ensures QueueOf(rss, flow, i) == rss.reta[EntryOf(rss, flow, i)]
      {}
    }
    ReachingCount(rss, flow, EntriesFor(rss, queue));
    assert Reaching(rss, flow, Below(|rss.reta|)) == Below(EPH_LEN);
    ReachingCount(rss, flow, Below(|rss.reta|));
  }

  lemma {:induction false} DividesPower(f: nat, h: nat, n: nat)
    requires f * h == Pow2(n)
    ensures IsPowerOfTwo(f)
    decreases f + h
  {
    hide IsPowerOfTwo;
    PowerFactor(f, h, n);
    if n == 0 {
      OneIsPower();
    } else if f % 2 == 0 {
      assert f * h == 2 * (f / 2 * h);
      DividesPower(f / 2, h, n - 1);
      DoublePower(f / 2);
    } else {
      assert f * h == 2 * (f * (h / 2));
      DividesPower(f, h / 2, n - 1);
    }
  }

  lemma PowerFactor(f: nat, h: nat, n: nat)
    requires f * h == Pow2(n)
    ensures f > 0 && h > 0
    ensures if n == 0 then f == 1 else f % 2 == 0 || h % 2 == 0
  {
    if n == 0 {
      if f > 1 { MulGe(f, h); }
    } else if f % 2 == 1 {
      OddTimes(h, f);
    }
  }

  lemma OneIsPower()
    ensures IsPowerOfTwo(1)
  {
    assert Pow2(0) == 1;
  }

  lemma DoublePower(f: nat)
    requires IsPowerOfTwo(f)
    ensures IsPowerOfTwo(2 * f)
  {
    var k: nat :| f == Pow2(k);
    assert Pow2(k + 1) == 2 * f;
  }

  /** The common number is a power of two. */
  lemma FibreSizeIsPower(rss: Rss, flow: Flow)
    requires rss.Loaded() && !rss.single
    ensures IsPowerOfTwo(FibreSize(rss, flow))
  {
    hide FibreSize, Hit, IsPowerOfTwo;
    OwnedIsMultiple(rss, flow, 0);
    Pow2Known();
    DividesPower(FibreSize(rss, flow), |Hit(rss, flow, Below(|rss.reta|))|, 14);
  }
}
