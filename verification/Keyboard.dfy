/** The keyboard driver (src/kernel/kbd.c): a ring of 256 bytes that an interrupt handler fills and a
    reader empties. */
module KeyboardDriver {
  import opened Bytes

  // ----- scan codes (set 1) -----

  /** Characters by scan code without Shift; 0 for none. */
  function LowerMap(sc: byte): byte {
    // 1 2 3 4 5 6 7 8 9 0 - = backspace tab q w e r t y u i o p [ ] enter
    if 0x02 <= sc <= 0x1C then
      [0x31, 0x32, 0x33, 0x34, 0x35, 0x36, 0x37, 0x38, 0x39, 0x30, 0x2D, 0x3D, 0x08, 0x09,
       0x71, 0x77, 0x65, 0x72, 0x74, 0x79, 0x75, 0x69, 0x6F, 0x70, 0x5B, 0x5D, 0x0A][sc - 0x02]
    // a s d f g h j k l ; ' `
    else if 0x1E <= sc <= 0x29 then
      [0x61, 0x73, 0x64, 0x66, 0x67, 0x68, 0x6A, 0x6B, 0x6C, 0x3B, 0x27, 0x60][sc - 0x1E]
    // \ z x c v b n m , . /
    else if 0x2B <= sc <= 0x35 then
      [0x5C, 0x7A, 0x78, 0x63, 0x76, 0x62, 0x6E, 0x6D, 0x2C, 0x2E, 0x2F][sc - 0x2B]
    else if sc == 0x39 then 0x20
    else 0
  }

  /** Characters by scan code with Shift; 0 for none. */
  function UpperMap(sc: byte): byte {
    // ! @ # $ % ^ & * ( ) _ +
    if 0x02 <= sc <= 0x0D then
      [0x21, 0x40, 0x23, 0x24, 0x25, 0x5E, 0x26, 0x2A, 0x28, 0x29, 0x5F, 0x2B][sc - 0x02]
    // { }
    else if 0x1A <= sc <= 0x1B then [0x7B, 0x7D][sc - 0x1A]
    // A S D F G H J K L : " ~
    else if 0x1E <= sc <= 0x29 then
      [0x41, 0x53, 0x44, 0x46, 0x47, 0x48, 0x4A, 0x4B, 0x4C, 0x3A, 0x22, 0x7E][sc - 0x1E]
    // | Z X C V B N M < > ?
    else if 0x2B <= sc <= 0x35 then
      [0x7C, 0x5A, 0x58, 0x43, 0x56, 0x42, 0x4E, 0x4D, 0x3C, 0x3E, 0x3F][sc - 0x2B]
    else if sc == 0x39 then 0x20
    else 0
  }

  predicate ShiftDown(sc: byte) { sc == 0x2A || sc == 0x36 }
  predicate ShiftUp(sc: byte) { sc == 0xAA || sc == 0xB6 }

  function NextShift(shift: bool, sc: byte): bool {
    if ShiftDown(sc) then true else if ShiftUp(sc) then false else shift
  }

  /** The character that a scan code stands for; 0 for none. */
  function Decode(shift: bool, sc: byte): byte {
    if ShiftDown(sc) || ShiftUp(sc) || sc >= 0x80 then 0
    else if shift then UpperMap(sc) else LowerMap(sc)
  }

  /** Shift swallows a key that types something without it exactly for backspace (0x0E), tab (0x0F),
      the letters of the top row (0x10 .. 0x19) and Enter (0x1C); never the other way round. */
  lemma ShiftSwallowsIff(sc: byte)
    ensures Decode(false, sc) != 0 && Decode(true, sc) == 0 <==> 0x0E <= sc <= 0x19 || sc == 0x1C
    ensures Decode(true, sc) != 0 ==> Decode(false, sc) != 0
  {
    assert 0x02 <= sc <= 0x1C ==> LowerMap(sc) != 0;
  }

  /** The rows of keys by what they type, without Shift ... */
  lemma TypedPlain(sc: byte)
    ensures 0x02 <= sc <= 0x0D ==> Decode(false, sc) == "1234567890-="[sc - 0x02] as int
    ensures 0x10 <= sc <= 0x1B ==> Decode(false, sc) == "qwertyuiop[]"[sc - 0x10] as int
    ensures 0x1E <= sc <= 0x29 ==> Decode(false, sc) == "asdfghjkl;'`"[sc - 0x1E] as int
    ensures 0x2B <= sc <= 0x35 ==> Decode(false, sc) == "\\zxcvbnm,./"[sc - 0x2B] as int
    ensures Decode(false, 0x0E) == 0x08 && Decode(false, 0x0F) == 0x09 && Decode(false, 0x1C) == 0x0A
    ensures Decode(false, 0x39) == ' ' as int
    ensures sc < 0x02 || sc == 0x1D || sc == 0x2A || 0x36 <= sc <= 0x38 || 0x39 < sc ==> Decode(false, sc) == 0
  {
  }

  /** ... and with it. */
  lemma TypedWithShift(sc: byte)
    ensures 0x02 <= sc <= 0x0D ==> Decode(true, sc) == "!@#$%^&*()_+"[sc - 0x02] as int
    ensures 0x1A <= sc <= 0x1B ==> Decode(true, sc) == "{}"[sc - 0x1A] as int
    ensures 0x1E <= sc <= 0x29 ==> Decode(true, sc) == "ASDFGHJKL:\"~"[sc - 0x1E] as int
    ensures 0x2B <= sc <= 0x35 ==> Decode(true, sc) == "|ZXCVBNM<>?"[sc - 0x2B] as int
    ensures Decode(true, 0x39) == ' ' as int
    ensures sc < 0x02 || 0x0E <= sc <= 0x19 || 0x1C <= sc <= 0x1D || sc == 0x2A || 0x36 <= sc <= 0x38 || 0x39 < sc ==>
      Decode(true, sc) == 0
  {
  }

  predicate SmallLetter(c: byte) { 'a' as int <= c <= 'z' as int }
  predicate Capital(c: byte) { 'A' as int <= c <= 'Z' as int }

  lemma MiddleRow(sc: byte)
    requires 0x1E <= sc <= 0x29
    ensures if sc <= 0x26 then SmallLetter(LowerMap(sc)) && UpperMap(sc) == LowerMap(sc) - 0x20
            else !SmallLetter(LowerMap(sc)) && !SmallLetter(UpperMap(sc)) && !Capital(UpperMap(sc))
  {
  }

  lemma BottomRow(sc: byte)
    requires 0x2B <= sc <= 0x35
    ensures if 0x2C <= sc <= 0x32 then SmallLetter(LowerMap(sc)) && UpperMap(sc) == LowerMap(sc) - 0x20
            else !SmallLetter(LowerMap(sc)) && !SmallLetter(UpperMap(sc)) && !Capital(UpperMap(sc))
  {
  }

  lemma TopRows(sc: byte)
    requires 0x02 <= sc <= 0x1C
    ensures SmallLetter(LowerMap(sc)) <==> 0x10 <= sc <= 0x19
    ensures !SmallLetter(UpperMap(sc)) && !Capital(UpperMap(sc)) && (0x10 <= sc <= 0x19 ==> UpperMap(sc) == 0)
  {
  }

  /** With Shift a key that types a letter types the capital, or nothing if it is in the top row; any
      other key does not type a letter. */
  lemma ShiftTypesCapitals(sc: byte)
    ensures var plain, shifted := Decode(false, sc), Decode(true, sc);
      if SmallLetter(plain) then shifted == if 0x10 <= sc <= 0x19 then 0 else plain - 0x20
      else !Capital(shifted) && !SmallLetter(shifted)
  {
    if 0x02 <= sc <= 0x1C {
      TopRows(sc);
    } else if 0x1E <= sc <= 0x29 {
      MiddleRow(sc);
    } else if 0x2B <= sc <= 0x35 {
      BottomRow(sc);
    }
  }

  // ----- the ring -----

  datatype Ring = Ring(buf: seq<byte>, head: nat, tail: nat, shift: bool)

  ghost predicate ValidRing(r: Ring) {
    |r.buf| == 256 && r.head < 256 && r.tail < 256
  }

  /** Number of characters that are waiting. */
  function Count(r: Ring): nat
    requires r.head < 256
  {
    if r.head <= r.tail then r.tail - r.head else r.tail + 256 - r.head
  }

  /** The waiting characters, oldest first. */
  function Queue(r: Ring): (q: seq<byte>)
    requires ValidRing(r)
    ensures |q| == Count(r) <= 255
    ensures forall k :: 0 <= k < |q| ==> q[k] == r.buf[(r.head + k) % 256]
  {
    seq(Count(r), k requires 0 <= k < Count(r) => r.buf[(r.head + k) % 256])
  }

  /** What the handler does with one scan code. */
  function Handled(r: Ring, sc: byte): (t: Ring)
    requires ValidRing(r)
    ensures ValidRing(t) && t.head == r.head
  {
    var s := r.(shift := NextShift(r.shift, sc));
    var c, next := Decode(r.shift, sc), (r.tail + 1) % 256;
    if c != 0 && next != r.head then s.(buf := Stored(r.buf, r.tail, c), tail := next) else s
  }

  function Stored(buf: seq<byte>, i: nat, c: byte): (b: seq<byte>)
    requires i < |buf|
    ensures |b| == |buf| && b[i] == c && forall k :: 0 <= k < |b| && k != i ==> b[k] == buf[k]
  {
    buf[i := c]
  }

  function Popped(r: Ring): Ring { r.(head := (r.head + 1) % 256) }

  /** A bounded queue: a character is dropped only when 255 are waiting. */
  function Offered(q: seq<byte>, c: byte): seq<byte> {
    if c != 0 && |q| < 255 then q + [c] else q
  }

  lemma HandledQueue(r: Ring, sc: byte)
    requires ValidRing(r)
    ensures Queue(Handled(r, sc)) == Offered(Queue(r), Decode(r.shift, sc))
  {
    var c := Decode(r.shift, sc);
    if c != 0 && (r.tail + 1) % 256 != r.head {
      StoredQueue(r, c, NextShift(r.shift, sc));
    } else {
      SameQueue(r, Handled(r, sc));
    }
  }

  lemma SameQueue(r: Ring, t: Ring)
    requires ValidRing(r) && ValidRing(t) && t.buf == r.buf && t.head == r.head && t.tail == r.tail
    ensures Queue(t) == Queue(r)
  {
  }

  lemma StoredQueue(r: Ring, c: byte, shift: bool)
    requires ValidRing(r) && (r.tail + 1) % 256 != r.head
    ensures var t := Ring(Stored(r.buf, r.tail, c), r.head, (r.tail + 1) % 256, shift);
      |Queue(r)| < 255 && Queue(t) == Queue(r) + [c]
  {
    var t := Ring(Stored(r.buf, r.tail, c), r.head, (r.tail + 1) % 256, shift);
    assert Count(t) == Count(r) + 1;
    forall k | 0 <= k < Count(t) ensures Queue(t)[k] == (Queue(r) + [c])[k] {
      assert (r.head + k) % 256 == r.tail <==> k == Count(r);
    }
  }

  lemma PoppedQueue(r: Ring)
    requires ValidRing(r) && r.head != r.tail
    ensures ValidRing(Popped(r)) && Queue(r) != [] && Queue(Popped(r)) == Queue(r)[1..]
  {
    var t, q := Popped(r), Queue(r);
    forall k | 0 <= k < Count(t) ensures Queue(t)[k] == q[1..][k] {
      assert (t.head + k) % 256 == (r.head + (k + 1)) % 256;
    }
  }

  function HandledAll(r: Ring, scs: seq<byte>): (t: Ring)
    requires ValidRing(r)
    ensures ValidRing(t)
    decreases |scs|
  {
    if scs == [] then r else HandledAll(Handled(r, scs[0]), scs[1..])
  }

  lemma {:induction false} HandledAllSnoc(r: Ring, scs: seq<byte>, sc: byte)
    requires ValidRing(r)
    ensures HandledAll(r, scs + [sc]) == Handled(HandledAll(r, scs), sc)
    decreases |scs|
  {
    if scs != [] {
      assert (scs + [sc])[1..] == scs[1..] + [sc];
      HandledAllSnoc(Handled(r, scs[0]), scs[1..], sc);
    } else {
      assert [sc][1..] == [];
      assert scs + [sc] == [sc];
    }
  }

  /** Whether Shift counts as held after a series of scan codes is decided by the last press (0x2A,
      0x36) or release (0xAA, 0xB6) of a Shift key among them. */
  lemma {:induction false} LastShiftKeyDecides(r: Ring, scs: seq<byte>, i: nat)
    requires ValidRing(r) && i < |scs| && (scs[i] == 0x2A || scs[i] == 0x36 || scs[i] == 0xAA || scs[i] == 0xB6)
    requires forall j :: i < j < |scs| ==>
      scs[j] != 0x2A && scs[j] != 0x36 && scs[j] != 0xAA && scs[j] != 0xB6
    ensures HandledAll(r, scs).shift <==> scs[i] == 0x2A || scs[i] == 0x36
    decreases |scs|
  {
    if i > 0 {
      LastShiftKeyDecides(Handled(r, scs[0]), scs[1..], i - 1);
    } else {
      NoShiftKeyKeeps(Handled(r, scs[0]), scs[1..]);
    }
  }

  lemma {:induction false} NoShiftKeyKeeps(r: Ring, scs: seq<byte>)
    requires ValidRing(r)
    requires forall j :: 0 <= j < |scs| ==>
      scs[j] != 0x2A && scs[j] != 0x36 && scs[j] != 0xAA && scs[j] != 0xB6
    ensures HandledAll(r, scs).shift == r.shift
    decreases |scs|
  {
    if scs != [] {
      NoShiftKeyKeeps(Handled(r, scs[0]), scs[1..]);
    }
  }

  /** So a key behind a Shift release types what it types without Shift, and behind a press what it
      types with it. */
  lemma TypedBehindShiftKey(r: Ring, key: byte, sc: byte)
    requires ValidRing(r) && (key == 0x2A || key == 0x36 || key == 0xAA || key == 0xB6)
    ensures Queue(Handled(Handled(r, key), sc)) == Offered(Queue(r), Decode(key < 0x80, sc))
  {
    HandledQueue(r, key);
    HandledQueue(Handled(r, key), sc);
  }

  // ----- the driver's own code -----

  class Kbd {
    var buf: array<byte>
    var head: nat
    var tail: nat
    var shift: bool

    ghost predicate Valid()
      reads this, buf
    {
      buf.Length == 256 && head < 256 && tail < 256
    }

    ghost function State(): (r: Ring)
      reads this, buf
      requires Valid()
      ensures ValidRing(r)
    {
      Ring(buf[..], head, tail, shift)
    }

    constructor ()
      ensures Valid() && fresh(buf) && Queue(State()) == [] && !shift
    {
      buf := new byte[256];
      head, tail, shift := 0, 0, false;
    }

    method HandleScancode(sc: byte)
      requires Valid()
      modifies this`tail, this`shift, buf
      ensures Valid() && State() == Handled(old(State()), sc)
      ensures shift == if sc == 0x2A || sc == 0x36 then true else if sc == 0xAA || sc == 0xB6 then false else old(shift)
    {
      if sc == 0x2A || sc == 0x36 {
        shift := true;
        return;
      }
      if sc == 0xAA || sc == 0xB6 {
        shift := false;
        return;
      }
      if sc >= 0x80 {
        return;
      }
      var c := if shift then UpperMap(sc) else LowerMap(sc);
      if c != 0 {
        var next := (tail + 1) % 256;
        if next != head {
          buf[tail] := c;
          tail := next;
        }
      }
    }

    method HasChar() returns (b: bool)
      requires Valid()
      ensures b == (Queue(State()) != [])
    {
      b := head != tail;
    }

    /** The reader, waiting while the ring is empty.  `arriving` are the scan codes that come in while
        it waits; if they run out, it waits on.  Interrupts during the rest are the subject of the
        steps below. */
    method Getc(arriving: seq<byte>) returns (got: bool, c: byte, used: nat)
      requires Valid()
      modifies this`head, this`tail, this`shift, buf
      ensures Valid() && used <= |arriving|
      ensures var r := HandledAll(old(State()), arriving[..used]);
        if got then Queue(r) != [] && c == Queue(r)[0] && State() == Popped(r)
        else used == |arriving| && Queue(r) == [] && State() == r
    {
      ghost var start := State();
      used, got, c := 0, false, 0;
      assert arriving[..0] == [];
      while head == tail
        invariant used <= |arriving| && Valid() && State() == HandledAll(start, arriving[..used])
        decreases |arriving| - used
      {
        if used == |arriving| {
          return;
        }
        HandledAllSnoc(start, arriving[..used], arriving[used]);
        assert arriving[..used + 1] == arriving[..used] + [arriving[used]];
        HandleScancode(arriving[used]);
        used := used + 1;
      }
      got := true;
      c := TakeFront();
    }

    /** The two statements of kbd_getc behind its loop. */
    method TakeFront() returns (c: byte)
      requires Valid() && head != tail
      modifies this`head
      ensures Valid() && State() == Popped(old(State()))
      ensures old(Queue(State())) != [] && c == old(Queue(State()))[0]
    {
      PoppedQueue(State());
      c := buf[head];
      head := (head + 1) % 256;
    }
  }

  // ----- reader and interrupt handler interleaved -----

  /** Where the reader stands in kbd_getc, with what it has read so far.  Every access to a shared
      variable is a step of its own. */
  datatype Pc =
    | Test                          // about to read g_head for the emptiness test
    | Compare(h: nat)               // about to read g_tail
    | Wait                          // empty: about to halt and poll
    | Index                         // not empty: about to read g_head
    | Slot(i: nat)                  // about to read g_buf[i]
    | Advance(c: byte)              // about to read g_head again
    | Store(c: byte, h: nat)        // about to write g_head

  datatype World = World(ring: Ring, pc: Pc, delivered: seq<byte>)

  /** An interrupt may arrive between any two steps of the reader.  A poll brings a scan code or none. */
  datatype Event = Irq(sc: byte) | Reader | Poll(sc: byte)

  predicate Enabled(w: World, e: Event) { e.Poll? ==> w.pc.Wait? }

  /** What the reader has read is still true when it acts on it. */
  ghost predicate Coherent(w: World) {
    && ValidRing(w.ring)
    && match w.pc
       case Compare(h) => h == w.ring.head
       case Index => Queue(w.ring) != []
       case Slot(i) => i == w.ring.head && Queue(w.ring) != []
       case Advance(c) => Queue(w.ring) != [] && c == Queue(w.ring)[0]
       case Store(c, h) => h == w.ring.head && Queue(w.ring) != [] && c == Queue(w.ring)[0]
       case _ => true
  }

  ghost function Step(w: World, e: Event): (v: World)
    requires Coherent(w) && Enabled(w, e)
    ensures ValidRing(v.ring)
  {
    match e
    case Irq(sc) => w.(ring := Handled(w.ring, sc))
    case Poll(sc) => w.(ring := Handled(w.ring, sc), pc := Test)
    case Reader =>
      match w.pc
      case Test => w.(pc := Compare(w.ring.head))
      case Compare(h) => w.(pc := if h == w.ring.tail then Wait else Index)
      case Wait => w.(pc := Test)
      case Index => w.(pc := Slot(w.ring.head))
      case Slot(i) => w.(pc := Advance(w.ring.buf[i]))
      case Advance(c) => w.(pc := Store(c, w.ring.head))
      case Store(c, h) => World(w.ring.(head := (h + 1) % 256), Test, w.delivered + [c])
  }

  /** The bounded queue that reader and handler together implement. */
  datatype Fifo = Fifo(queue: seq<byte>, shift: bool, delivered: seq<byte>)

  function AbsWorld(w: World): Fifo
    requires ValidRing(w.ring)
  {
    Fifo(Queue(w.ring), w.ring.shift, w.delivered)
  }

  /** On the queue an arriving scan code is one step, a delivery is one step, and all other steps of
      the reader are none. */
  function AbsStep(f: Fifo, e: Event, delivers: bool): Fifo {
    match e
    case Reader =>
      if delivers && f.queue != [] then f.(queue := f.queue[1..], delivered := f.delivered + [f.queue[0]])
      else f
    case _ => f.(queue := Offered(f.queue, Decode(f.shift, e.sc)), shift := NextShift(f.shift, e.sc))
  }

  lemma ArrivalKeepsFront(r: Ring, sc: byte)
    requires ValidRing(r)
    ensures Queue(r) != [] ==> Queue(Handled(r, sc)) != [] && Queue(Handled(r, sc))[0] == Queue(r)[0]
    ensures Handled(r, sc).shift == NextShift(r.shift, sc)
  {
    HandledQueue(r, sc);
  }

  /** Wherever interrupts strike, reader and handler refine the queue. */
  lemma StepRefines(w: World, e: Event)
    requires Coherent(w) && Enabled(w, e)
    ensures Coherent(Step(w, e))
    ensures AbsWorld(Step(w, e)) == AbsStep(AbsWorld(w), e, w.pc.Store?)
  {
    if !e.Reader? {
      HandledQueue(w.ring, e.sc);
      ArrivalKeepsFront(w.ring, e.sc);
    } else if w.pc.Store? {
      PoppedQueue(w.ring);
      assert Step(w, e).ring == Popped(w.ring);
    }
  }

  // ----- runs -----

  ghost predicate CanRun(w: World, es: seq<Event>)
    requires Coherent(w)
    decreases |es|
  {
    es == [] || (Enabled(w, es[0]) && (StepRefines(w, es[0]); CanRun(Step(w, es[0]), es[1..])))
  }

  ghost function Run(w: World, es: seq<Event>): World
    requires Coherent(w) && CanRun(w, es)
    decreases |es|
  {
    if es == [] then w else
      StepRefines(w, es[0]);
      Run(Step(w, es[0]), es[1..])
  }

  /** The character that an event adds to the queue. */
  function Accepted(w: World, e: Event): seq<byte>
    requires ValidRing(w.ring)
  {
    if e.Reader? then []
    else
      var c := Decode(w.ring.shift, e.sc);
      if c != 0 && |Queue(w.ring)| < 255 then [c] else []
  }

  ghost function AcceptedIn(w: World, es: seq<Event>): seq<byte>
    requires Coherent(w) && CanRun(w, es)
    decreases |es|
  {
    if es == [] then [] else
      StepRefines(w, es[0]);
      Accepted(w, es[0]) + AcceptedIn(Step(w, es[0]), es[1..])
  }

  lemma Associative(a: seq<byte>, b: seq<byte>, c: seq<byte>)
    ensures (a + b) + c == a + (b + c)
  {
  }

  /** Under every interleaving: what was delivered, followed by what is waiting, is exactly what was
      accepted, in order; and never more than 255 characters wait. */
  lemma {:induction false} FifoUnderInterleaving(w: World, es: seq<Event>)
    requires Coherent(w) && CanRun(w, es)
    ensures var v := Run(w, es);
      && Coherent(v) && |Queue(v.ring)| <= 255
      && v.delivered + Queue(v.ring) == w.delivered + Queue(w.ring) + AcceptedIn(w, es)
    decreases |es|
  {
    if es == [] {
      assert w.delivered + Queue(w.ring) + [] == w.delivered + Queue(w.ring);
    } else {
      StepRefines(w, es[0]);
      var v := Step(w, es[0]);
      FifoUnderInterleaving(v, es[1..]);
      StepConserves(w, es[0]);
      Associative(w.delivered + Queue(w.ring), Accepted(w, es[0]), AcceptedIn(v, es[1..]));
    }
  }

  lemma StepConserves(w: World, e: Event)
    requires Coherent(w) && Enabled(w, e)
    ensures var v := Step(w, e);
      ValidRing(v.ring) && v.delivered + Queue(v.ring) == w.delivered + Queue(w.ring) + Accepted(w, e)
  {
    StepRefines(w, e);
    var v, q := Step(w, e), Queue(w.ring);
    if e.Reader? && w.pc.Store? {
      assert w.delivered + [q[0]] + q[1..] == w.delivered + q;
    } else {
      assert w.delivered + (q + Accepted(w, e)) == w.delivered + q + Accepted(w, e);
    }
  }
}
