/**
 The per-channel ring of config.cpp, used by one producer and one consumer.  Each of them looks at the
 number of frames before it takes the lock, so their steps interleave: a test, and later the locked part.
 */
module RingFifo {

  const NMAX := 32

  /** What is stored in a slot. */
  datatype Frame = Frame(frame_type: int, size: int, buffer: seq<int>)

  /** A producer that has found room holds the frame it is about to store. */
  datatype Producer = Outside | Ready(f: Frame)

  /** The ring, where the two threads are, and what has been put and got so far. */
  datatype State = State(iput: nat, iget: nat, n: int, slots: seq<Frame>, producer: Producer, consumer: bool,
                         put: seq<Frame>, got: seq<Frame>)

  datatype Action = TestPut(f: Frame) | Put | TestGet | Get

  /** The index after i. */
  function AddRing(i: nat): nat {
    if i + 1 == NMAX then 0 else i + 1
  }

  /** A thread takes its steps in turn. */
  predicate Enabled(s: State, a: Action) {
    match a
    case TestPut(_) => s.producer.Outside?
    case Put => s.producer.Ready?
    case TestGet => !s.consumer
    case Get => s.consumer
  }

  /** The effect of a step.  A test that fails leaves its thread outside. */
  function Next(s: State, a: Action): State
    requires Enabled(s, a) && s.iput < |s.slots| && s.iget < |s.slots|
  {
    match a
    case TestPut(f) => if s.n < NMAX then s.(producer := Ready(f)) else s
    case Put =>
      s.(slots := s.slots[s.iput := s.producer.f], iput := AddRing(s.iput), n := s.n + 1, producer := Outside,
         put := s.put + [s.producer.f])
    case TestGet => if s.n > 0 then s.(consumer := true) else s
    case Get => s.(iget := AddRing(s.iget), n := s.n - 1, consumer := false, got := s.got + [s.slots[s.iget]])
  }

  /** The place k after i. */
  function Place(i: nat, k: nat): nat {
    (i + k) % NMAX
  }

  /** Frame k in the ring is the one put k after those got. */
  ghost predicate Stored(s: State, k: nat)
    requires s.iget < NMAX == |s.slots|
  {
    |s.got| + k < |s.put| && s.slots[Place(s.iget, k)] == s.put[|s.got| + k]
  }

  /** What every step keeps. */
  ghost predicate Inv(s: State) {
    && s.iput < NMAX && s.iget < NMAX == |s.slots| && 0 <= s.n <= NMAX
    && s.iput == Place(s.iget, s.n) && |s.put| == |s.got| + s.n && s.got <= s.put
    && (s.producer.Ready? ==> s.n < NMAX) && (s.consumer ==> s.n > 0)
    && forall k :: 0 <= k < s.n ==> Stored(s, k)
  }

  lemma {:induction false} PlaceNext(i: nat, k: nat)
    requires i < NMAX
    ensures AddRing(i) == Place(i, 1) && AddRing(Place(i, k)) == Place(i, k + 1)
    ensures Place(AddRing(i), k) == Place(i, k + 1)
  {
  }

  lemma {:induction false} PlaceDistinct(i: nat, k: nat, m: nat)
    requires k < m < NMAX
    ensures Place(i, k) != Place(i, m)
  {
  }

  lemma {:induction false} NextKeeps(s: State, a: Action)
    requires Inv(s) && Enabled(s, a)
    ensures Inv(Next(s, a))
  {
    match a
    case Put => PutKeeps(s);
    case Get => GetKeeps(s);
    case _ => TestKeeps(s, a);
  }

  lemma {:induction false} TestKeeps(s: State, a: Action)
    requires Inv(s) && Enabled(s, a) && (a.TestPut? || a.TestGet?)
    ensures Inv(Next(s, a))
  {
    var t := Next(s, a);
    forall k | 0 <= k < t.n
      ensures Stored(t, k)
    {
      assert Stored(s, k);
    }
  }

  lemma {:induction false} PutKeeps(s: State)
    requires Inv(s) && s.producer.Ready?
    ensures Inv(Next(s, Put))
  {
    var t := Next(s, Put);
    PlaceNext(s.iget, s.n);
    forall k | 0 <= k < t.n
      ensures Stored(t, k)
    {
      if k < s.n {
        assert Stored(s, k);
        PlaceDistinct(s.iget, k, s.n);
      }
    }
  }

  lemma {:induction false} GetKeeps(s: State)
    requires Inv(s) && s.consumer
    ensures Inv(Next(s, Get)) && Next(s, Get).got == s.put[..|s.got| + 1]
  {
    var t := Next(s, Get);
    assert Stored(s, 0);
    PlaceNext(s.iget, s.n - 1);
    forall k | 0 <= k < t.n
      ensures Stored(t, k)
    {
      assert Stored(s, k + 1);
      PlaceNext(s.iget, k);
    }
  }

  // ---------- whole runs ----------

  function Initial(slots: seq<Frame>): State {
    State(0, 0, 0, slots, Outside, false, [], [])
  }

  /** The steps can be taken one after the other. */
  ghost predicate Runs(s: State, run: seq<Action>)
    decreases |run|
  {
    run == [] || (s.iput < |s.slots| && s.iget < |s.slots| && Enabled(s, run[0]) && Runs(Next(s, run[0]), run[1..]))
  }

  ghost function After(s: State, run: seq<Action>): State
    requires Runs(s, run)
    decreases |run|
  {
    if run == [] then s else After(Next(s, run[0]), run[1..])
  }

  /** The invariant holds after every run. */
  lemma {:induction false} RunKeeps(s: State, run: seq<Action>)
    requires Inv(s) && Runs(s, run)
    ensures Inv(After(s, run))
    decreases |run|
  {
    if run != [] {
      NextKeeps(s, run[0]);
      RunKeeps(Next(s, run[0]), run[1..]);
    }
  }

  /** First in, first out, under every interleaving: what was got is a prefix of what was put. */
  lemma {:induction false} FirstInFirstOut(slots: seq<Frame>, run: seq<Action>)
    requires |slots| == NMAX && Runs(Initial(slots), run)
    ensures var s := After(Initial(slots), run);
            s.got <= s.put && |s.put| - |s.got| == s.n && 0 <= s.n <= NMAX
  {
    RunKeeps(Initial(slots), run);
  }

  // ---------- how long a slot stays valid after it was got ----------

  function Puts(run: seq<Action>): nat {
    if run == [] then 0 else (if run[0].Put? then 1 else 0) + Puts(run[1..])
  }

  /** How many frames can be put before the slot is the next to be written. */
  function Until(s: State, slot: nat): nat
    requires s.iput < NMAX && slot < NMAX
  {
    if s.iput <= slot then slot - s.iput else slot + NMAX - s.iput
  }

  /** A slot keeps its contents until that many frames have been put. */
  lemma {:induction false} SlotKept(s: State, slot: nat, run: seq<Action>)
    requires Inv(s) && Runs(s, run) && slot < NMAX && Puts(run) <= Until(s, slot)
    ensures Inv(After(s, run)) && After(s, run).slots[slot] == s.slots[slot]
    ensures Until(After(s, run), slot) == Until(s, slot) - Puts(run)
    decreases |run|
  {
    if run != [] {
      NextKeeps(s, run[0]);
      SlotKept(Next(s, run[0]), slot, run[1..]);
    }
  }

  /** After a get that leaves n frames, the slot it returned survives the next 31 - n puts, and not one more. */
  lemma {:induction false} GotSlotKept(s: State, run: seq<Action>)
    requires Inv(s) && s.consumer && Runs(Next(s, Get), run)
    requires Puts(run) <= NMAX - 1 - Next(s, Get).n
    ensures var t := After(Next(s, Get), run);
            && Inv(t) && t.slots[s.iget] == s.slots[s.iget]
            && (Puts(run) == NMAX - 1 - Next(s, Get).n ==> t.iput == s.iget)
  {
    var t := Next(s, Get);
    GetKeeps(s);
    GetLeaves(s);
    SlotKept(t, s.iget, run);
  }

  lemma {:induction false} GetLeaves(s: State)
    requires Inv(s) && s.consumer
    ensures Until(Next(s, Get), s.iget) == NMAX - 1 - (s.n - 1)
  {
  }

  // ---------- the ring itself ----------

  class Ring {
    var iput: nat
    var iget: nat
    var n: int
    const slots: array<Frame>
    ghost var producer: Producer
    ghost var consumer: bool
    ghost var put: seq<Frame>
    ghost var got: seq<Frame>

    constructor ()
      ensures slots.Length == NMAX && View() == Initial(slots[..]) && fresh(slots) && Inv(View())
    {
      iput, iget, n, producer, consumer, put, got := 0, 0, 0, Outside, false, [], [];
      slots := new Frame[NMAX](_ => Frame(0, 0, []));
    }

    ghost function View(): State
      reads this, slots
    {
      State(iput, iget, n, slots[..], producer, consumer, put, got)
    }

    /** The producer's test, without the lock. */
    method TryPut(f: Frame) returns (ok: bool)
      requires Inv(View()) && Enabled(View(), TestPut(f))
      modifies this`producer
      ensures View() == Next(old(View()), TestPut(f)) && (ok <==> Enabled(View(), Put))
    {
      ok := n < NMAX;
      if ok {
        producer := Ready(f);
      }
    }

    /** The locked part of ringput_fifochn. */
    method LockedPut(f: Frame) returns (size: int)
      requires Inv(View()) && Enabled(View(), Put) && producer == Ready(f)
      modifies this, slots
      ensures View() == Next(old(View()), Put) && size == f.size
    {
      slots[iput] := f;
      iput := AddRing(iput);
      n := n + 1;
      producer, put := Outside, put + [f];
      size := f.size;
    }

    /** The consumer's test, without the lock. */
    method TryGet() returns (ok: bool)
      requires Inv(View()) && Enabled(View(), TestGet)
      modifies this`consumer
      ensures View() == Next(old(View()), TestGet) && (ok <==> Enabled(View(), Get))
    {
      ok := n > 0;
      if ok {
        consumer := true;
      }
    }

    /** The locked part of ringget_fifochn; the frame returned is the oldest not yet got. */
    method LockedGet() returns (f: Frame)
      requires Inv(View()) && Enabled(View(), Get)
      modifies this
      ensures View() == Next(old(View()), Get)
      ensures |old(got)| < |put| && f == put[|old(got)|] && got == old(got) + [f]
    {
      assert Stored(View(), 0);
      var pos := iget;
      iget := AddRing(iget);
      n := n - 1;
      f := slots[pos];
      consumer, got := false, got + [f];
    }
  }
}
