/** The console input buffer of console.c: a ring of 512 bytes between device input and readers. */
module InputRing {
  import opened Machine

  const CONSBUFSIZE := 512

  // ----- what the ring does -----

  /** A byte more: the 512th pending byte makes the ring look empty. */
  function Push(q: seq<byte>, c: byte): (r: seq<byte>)
    requires |q| < CONSBUFSIZE
    ensures |r| < CONSBUFSIZE
  {
    if |q| == CONSBUFSIZE - 1 then [] else q + [c]
  }

  /** What a device delivers up to -1: zeros are dropped, the rest stored as bytes. */
  function Feed(q: seq<byte>, input: seq<int>): (r: seq<byte>)
    requires |q| < CONSBUFSIZE
    ensures |r| < CONSBUFSIZE
    decreases |input|
  {
    if input == [] || input[0] == -1 then q
    else Feed(if input[0] == 0 then q else Push(q, input[0] % 256), input[1..])
  }

  class Cons {
    const buf: array<byte>
    var rpos: nat
    var wpos: nat

    /** The bytes taken out so far. */
    ghost var taken: seq<byte>

    ghost predicate Valid()
      reads this
    {
      buf.Length == CONSBUFSIZE && rpos < CONSBUFSIZE && wpos < CONSBUFSIZE
    }

    /** The bytes waiting, in the order they will be read. */
    ghost function Pending(): (q: seq<byte>)
      requires Valid()
      reads this, buf
      ensures |q| < CONSBUFSIZE
    {
      if rpos <= wpos then buf[rpos..wpos] else buf[rpos..] + buf[..wpos]
    }

    ghost function Now(): Served
      requires Valid()
      reads this, buf
    {
      Served(taken, Pending())
    }

    constructor (buf: array<byte>)
      requires buf.Length == CONSBUFSIZE
      ensures Valid() && this.buf == buf && Now() == Served([], [])
    {
      this.buf, rpos, wpos, taken := buf, 0, 0, [];
    }

    /** `cons_intr`, the calls of the device given by what they return; -1, or no more calls, ends it. */
    method ConsIntr(input: seq<int>)
      requires Valid()
      modifies this, buf
      ensures Valid() && Pending() == Feed(old(Pending()), input)
      ensures Now() == Serve(old(Now()), Intr(input))
    {
      ghost var goal := Feed(Pending(), input);
      var i := 0;
      while i < |input| && input[i] != -1
        invariant 0 <= i <= |input| && Valid() && taken == old(taken)
        invariant Feed(Pending(), input[i..]) == goal
      {
        var c := input[i];
        if c != 0 {
          Store(c % 256);
        }
        assert input[i..][1..] == input[i + 1..];
        i := i + 1;
      }
    }

    method Store(c: byte)
      requires Valid()
      modifies this, buf
      ensures Valid() && Pending() == Push(old(Pending()), c) && taken == old(taken)
    {
      buf[wpos] := c;
      wpos := wpos + 1;
      if wpos == CONSBUFSIZE {
        wpos := 0;
      }
    }

    /** `cons_getc`: poll both devices, then take the oldest byte, or return 0. */
    method ConsGetc(serial: seq<int>, kbd: seq<int>) returns (c: int)
      requires Valid()
      modifies this, buf
      ensures Valid()
      ensures var q := Feed(Feed(old(Pending()), serial), kbd);
        if q == [] then c == 0 && Pending() == [] else c == q[0] && Pending() == q[1..]
      ensures Now() == Serve(old(Now()), GetcCall(serial, kbd))
    {
      hide Feed;
      ConsIntr(serial);
      ConsIntr(kbd);
      c := Take();
    }

    /** The oldest byte, or 0. */
    method Take() returns (c: int)
      requires Valid()
      modifies `rpos, `taken
      ensures Valid()
      ensures var q := old(Pending());
        if q == [] then c == 0 && Now() == old(Now()) else c == q[0] && Now() == Served(old(taken) + [q[0]], q[1..])
    {
      if rpos != wpos {
        c := buf[rpos];
        taken := taken + [buf[rpos]];
        rpos := rpos + 1;
        if rpos == CONSBUFSIZE {
          rpos := 0;
        }
        return;
      }
      c := 0;
    }
  }

  // ----- any interleaving of input and reading -----

  /** What a device routine returned, or a character taken out. */
  datatype Event = Input(c: int) | Getc

  /** A zero is dropped, and -1 stands for no character; any other number is stored as a byte. */
  predicate Stored(e: Event) {
    e.Input? && e.c != 0 && e.c != -1
  }

  /** What has been delivered, what is pending, and how often the ring overflowed. */
  datatype Run = Run(delivered: seq<byte>, pending: seq<byte>, overflows: nat)

  function Step(r: Run, e: Event): (s: Run)
    requires |r.pending| < CONSBUFSIZE
    ensures |s.pending| < CONSBUFSIZE
  {
    match e
    case Input(c) =>
      if !Stored(e) then r
      else Run(r.delivered, Push(r.pending, c % 256), r.overflows + if |r.pending| == CONSBUFSIZE - 1 then 1 else 0)
    case Getc => if r.pending == [] then r else Run(r.delivered + [r.pending[0]], r.pending[1..], r.overflows)
  }

  function RunAll(es: seq<Event>): (r: Run)
    ensures |r.pending| < CONSBUFSIZE
  {
    if es == [] then Run([], [], 0) else Step(RunAll(es[..|es| - 1]), es[|es| - 1])
  }

  /** The bytes that came in. */
  function Inputs(es: seq<Event>): seq<byte> {
    if es == [] then []
    else
      var before, e := Inputs(es[..|es| - 1]), es[|es| - 1];
      if Stored(e) then before + [e.c % 256] else before
  }

  /** Each overflow loses exactly 512 bytes: no byte is lost otherwise, and none is made up. */
  lemma {:induction false} Conservation(es: seq<Event>)
    ensures var r := RunAll(es); |r.delivered| + |r.pending| + CONSBUFSIZE * r.overflows == |Inputs(es)|
    decreases |es|
  {
    if es != [] {
      Conservation(es[..|es| - 1]);
    }
  }

  lemma {:induction false} InOrder(es: seq<Event>)
    requires RunAll(es).overflows == 0
    ensures RunAll(es).delivered + RunAll(es).pending == Inputs(es)
    decreases |es|
  {
    if es != [] {
      var r, e := RunAll(es[..|es| - 1]), es[|es| - 1];
      InOrder(es[..|es| - 1]);
      if Stored(e) {
        var c := e.c % 256;
        assert r.delivered + (r.pending + [c]) == r.delivered + r.pending + [c];
      } else if e.Getc? && r.pending != [] {
        assert r.delivered + [r.pending[0]] + r.pending[1..] == r.delivered + r.pending;
      }
    }
  }

  /** Readers get the input first in, first out, the rest still pending, exactly when never more
      than 511 bytes were pending. */
  lemma FifoIffNoOverflow(es: seq<Event>)
    ensures RunAll(es).delivered + RunAll(es).pending == Inputs(es) <==> RunAll(es).overflows == 0
  {
    Conservation(es);
    if RunAll(es).overflows == 0 {
      InOrder(es);
    }
  }

  /** What a device returns up to -1, as events. */
  function Events(input: seq<int>): seq<Event> {
    if input == [] || input[0] == -1 then [] else [Input(input[0])] + Events(input[1..])
  }

  lemma RunNext(es: seq<Event>, e: Event)
    ensures RunAll(es + [e]) == Step(RunAll(es), e)
  {
    assert (es + [e])[..|es|] == es;
  }

  /** `cons_intr` is that many input events, whatever the device returns. */
  lemma {:induction false} FeedIsEvents(es: seq<Event>, input: seq<int>)
    ensures RunAll(es + Events(input)).pending == Feed(RunAll(es).pending, input)
    ensures RunAll(es + Events(input)).delivered == RunAll(es).delivered
    decreases |input|
  {
    hide Push, RunAll;
    if input == [] || input[0] == -1 {
      assert es + [] == es;
    } else {
      var e := Input(input[0]);
      RunNext(es, e);
      FeedIsEvents(es + [e], input[1..]);
      assert es + Events(input) == es + [e] + Events(input[1..]);
    }
  }

  // ----- whole runs of the routines -----

  /** A call of `cons_intr` by a device, or of `cons_getc`, which polls both devices first. */
  datatype Call = Intr(input: seq<int>) | GetcCall(serial: seq<int>, kbd: seq<int>)

  /** The bytes that calls of `cons_getc` took out so far, and those waiting. */
  datatype Served = Served(taken: seq<byte>, pending: seq<byte>)

  /** What one call does: the contracts of `ConsIntr` and `ConsGetc`. */
  function Serve(s: Served, call: Call): (r: Served)
    requires |s.pending| < CONSBUFSIZE
    ensures |r.pending| < CONSBUFSIZE
  {
    match call
    case Intr(input) => s.(pending := Feed(s.pending, input))
    case GetcCall(serial, kbd) =>
      var q := Feed(Feed(s.pending, serial), kbd);
      if q == [] then s.(pending := []) else Served(s.taken + [q[0]], q[1..])
  }

  function ServeAll(calls: seq<Call>): (r: Served)
    ensures |r.pending| < CONSBUFSIZE
  {
    if calls == [] then Served([], []) else Serve(ServeAll(calls[..|calls| - 1]), calls[|calls| - 1])
  }

  function CallEvents(call: Call): seq<Event> {
    match call
    case Intr(input) => Events(input)
    case GetcCall(serial, kbd) => Events(serial) + Events(kbd) + [Getc]
  }

  function AllEvents(calls: seq<Call>): seq<Event> {
    if calls == [] then [] else AllEvents(calls[..|calls| - 1]) + CallEvents(calls[|calls| - 1])
  }

  lemma CallIsEvents(es: seq<Event>, call: Call)
    ensures var r, s := RunAll(es), RunAll(es + CallEvents(call));
      Served(s.delivered, s.pending) == Serve(Served(r.delivered, r.pending), call)
  {
    hide Feed, Events, RunAll;
    match call
    case Intr(input) => FeedIsEvents(es, input);
    case GetcCall(serial, kbd) =>
      FeedIsEvents(es, serial);
      FeedIsEvents(es + Events(serial), kbd);
      RunNext(es + Events(serial) + Events(kbd), Getc);
      assert es + CallEvents(call) == es + Events(serial) + Events(kbd) + [Getc];
  }

  /** Any run of calls is the run of their events: what `cons_getc` took out is what was delivered. */
  lemma {:induction false} CallsAreEvents(calls: seq<Call>)
    ensures var r := RunAll(AllEvents(calls)); ServeAll(calls) == Served(r.delivered, r.pending)
  {
    hide Serve, CallEvents;
    if calls != [] {
      CallsAreEvents(calls[..|calls| - 1]);
      CallIsEvents(AllEvents(calls[..|calls| - 1]), calls[|calls| - 1]);
    }
  }

  /** So over any run of calls the bytes taken out and those waiting are, in order, the bytes that came in,
      exactly when the ring never overflowed. */
  lemma ServedInOrder(calls: seq<Call>)
    ensures ServeAll(calls).taken + ServeAll(calls).pending == Inputs(AllEvents(calls))
       <==> RunAll(AllEvents(calls)).overflows == 0
  {
    CallsAreEvents(calls);
    FifoIffNoOverflow(AllEvents(calls));
  }
}
