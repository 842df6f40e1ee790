/** `src/drivers/ldisc.c` and `src/drivers/tty.c` in place, on the ring buffer's array. */
module TtyObject {
  import opened Queues
  import opened Bytes
  import opened Semaphores
  import opened Errno
  import opened Tty

  const DRIVER_DEV_CAPACITY: nat := 8

  class Terminal {
    const rxBuf: array<byte>
    var head: nat
    var tail: nat
    var cursor: nat
    var sem: Sem
    var woken: seq<nat>
    ghost var calls: map<nat, Call>
    ghost var editor: Editor
    ghost var delivered: seq<byte>
    ghost var owners: seq<nat>

    ghost function View(): Device
      reads this, rxBuf
    {
      Device(rxBuf[..], head, tail, cursor, sem, woken, calls, editor, delivered, owners)
    }

    constructor ()
      ensures fresh(rxBuf) && Initial(View()) && Valid(View())
    {
      rxBuf := new byte[SIZE](_ => 0);
      head, tail, cursor := 0, 0, 0;
      sem, woken := Sem(0, []), [];
      calls, editor, delivered, owners := map[], Editor([], []), [], [];
      new;
      assert Window(rxBuf[..], 0, 0) == [];
    }

    method SignalN(n: nat)
      requires Consistent(sem)
      modifies this`sem, this`woken
      ensures (sem, woken) == Signalled(old(sem), old(woken), n)
    {
      ghost var goal := Signalled(sem, woken, n);
      var i := 0;
      while i < n
        invariant i <= n && Consistent(sem) && Signalled(sem, woken, n - i) == goal
      {
        if sem.val < 0 {
          woken := woken + [sem.queue[0]];
        }
        sem := Up(sem);
        i := i + 1;
      }
    }

    method RecvByte(typed: byte)
      requires Valid(View())
      modifies this, rxBuf
      ensures View() == Received(old(View()), typed) && Valid(View())
    {
      hide Signalled, Window, Mine, EndsWith, NoDup, Feed;
      ReceivedValid(View(), typed);
      ghost var fed := Feed(editor, |delivered|, typed);
      var b := typed;
      if b == CR {
        b := LF;
      }
      if b == DEL {
        if cursor > 0 {
          if tail == 0 {
            tail := SIZE;
          }
          tail := tail - 1;
          cursor := cursor - 1;
        }
      } else {
        var nextTail := (tail + 1) % SIZE;
        if nextTail != head {
          rxBuf[tail] := b;
          assert rxBuf[..] == old(rxBuf[..])[tail := b];
          tail := nextTail;
          cursor := cursor + 1;
          if b == LF {
            SignalN(cursor);
            cursor := 0;
          }
        }
      }
      editor := fed;
    }

    /** A call of `read`, up to its end or the first time it blocks. */
    method Read(p: nat, out: array<byte>, size: nat) returns (i: nat, blocked: bool)
      requires Valid(View()) && p !in calls && size <= out.Length && out != rxBuf
      modifies this, out
      ensures size == 0 ==> i == 0 && !blocked && View() == old(View())
      ensures size > 0 ==> i <= size && Stretch(Started(old(View()), p, size), View(), p, Call(size, []), out[..i], blocked)
      ensures !blocked ==> calls == old(calls)
    {
      hide Valid, Stretch;
      i, blocked := 0, false;
      if size > 0 {
        StartedValid(View(), p, size);
        NotWaiting(View(), p);
        calls := calls[p := Call(size, [])];
        assert out[..0] == [];
        i, blocked := Loop(p, out, size, 0);
        assert out[0..i] == out[..i];
        StretchCalls(Started(old(View()), p, size), View(), p, Call(size, []), out[..i], blocked);
      }
    }

    /** A reader released from the semaphore takes its byte, and goes on with its loop
        unless that was the last. */
    method Resume(p: nat, out: array<byte>, size: nat, from: nat) returns (i: nat, blocked: bool)
      requires Valid(View()) && p in woken && from < size <= out.Length && out != rxBuf
      requires p in calls && calls[p] == Call(size, out[..from])
      modifies this, out
      ensures from < i <= size && out[..from] == old(out[..from]) && Tty.Resumed.requires(old(View()), p)
      ensures
        var d := Tty.Resumed(old(View()), p);
        && out[from] == old(rxBuf[head]) && (p in d.calls <==> out[from] != LF && from + 1 < size)
        && if p in d.calls then Stretch(d, View(), p, d.calls[p], out[from + 1..i], blocked)
           else i == from + 1 && !blocked && View() == d && Valid(View())
    {
      hide Valid, Stretch, Without;
      ResumedRuns(View(), p);
      ghost var d := Tty.Resumed(View(), p);
      woken := Without(woken, p);
      var b := Take(p, out, from);
      i, blocked := from + 1, false;
      if b != LF && i < size {
        i, blocked := Loop(p, out, size, i);
      }
    }

    /** The loop of `read` by a running reader that has `from` bytes already. */
    method Loop(p: nat, out: array<byte>, size: nat, from: nat) returns (i: nat, blocked: bool)
      requires Valid(View()) && p !in woken && p !in sem.queue && from < size <= out.Length && out != rxBuf
      requires p in calls && calls[p] == Call(size, out[..from])
      modifies this, out
      ensures from <= i <= size && out[..from] == old(out[..from])
      ensures Stretch(old(View()), View(), p, Call(size, out[..from]), out[from..i], blocked)
    {
      hide Valid;
      i, blocked := from, false;
      ghost var d0, got := View(), out[..from];
      UnderWayStarts(d0, p);
      assert out[from..from] == [];
      while i < size
        invariant from <= i < size && out[..from] == got
        invariant UnderWay(d0, View(), p, Call(size, got), out[from..i])
        decreases size - i
      {
        assert out[..i] == got + out[from..i];
        ghost var d, taken := View(), out[from..i];
        UnderWayRuns(d0, d, p, Call(size, got), taken);
        blocked := sem.val - 1 < 0;
        if blocked {
          sem := Down(sem, p);
          StretchBlocks(d0, d, p, Call(size, got), taken);
          return;
        }
        sem := Down(sem, p);
        var b := Take(p, out, i);
        i := i + 1;
        assert out[from..i] == taken + [b] && out[..from] == got;
        StretchTakes(d0, d, p, Call(size, got), taken);
        if b == LF {
          return;
        }
        if i == size {
          return;
        }
      }
    }

    /** The byte at the head goes to the reader's buffer. */
    method Take(p: nat, out: array<byte>, i: nat) returns (b: byte)
      requires rxBuf.Length == SIZE && head < SIZE && p in calls && i < out.Length && out != rxBuf
      modifies this`head, this`calls, this`delivered, this`owners, out
      ensures View() == Taken(old(View()), p) && b == old(rxBuf[head]) && out[..] == old(out[..])[i := b]
    {
      ghost var d := Taken(View(), p);
      b := rxBuf[head];
      out[i] := b;
      assert out[..] == old(out[..])[i := b];
      head := head + 1;
      head := head % SIZE;
      calls, delivered, owners := d.calls, d.delivered, d.owners;
    }
  }

  /** The driver: one terminal per device number. */
  class TtyDriver {
    const ctrlBlks: array<Terminal?>

    constructor ()
      ensures fresh(ctrlBlks) && ctrlBlks.Length == 8 && forall n :: 0 <= n < 8 ==> ctrlBlks[n] == null
    {
      ctrlBlks := new Terminal?[DRIVER_DEV_CAPACITY](_ => null);
    }

    predicate Present(num: nat)
      reads ctrlBlks
    {
      num < ctrlBlks.Length && ctrlBlks[num] != null
    }

    /** `read` of device `num`, up to its end or the first time it blocks. */
    method Read(num: nat, p: nat, out: array<byte>, size: nat) returns (r: int, blocked: bool)
      requires ctrlBlks.Length == DRIVER_DEV_CAPACITY && size <= out.Length
      requires Present(num) ==>
        Valid(ctrlBlks[num].View()) && p !in ctrlBlks[num].calls && out != ctrlBlks[num].rxBuf
      modifies if Present(num) then {ctrlBlks[num], out} else {}
      ensures ctrlBlks[..] == old(ctrlBlks[..])
      ensures !Present(num) ==> r == -6 && !blocked
      ensures Present(num) && size == 0 ==> r == 0 && !blocked && ctrlBlks[num].View() == old(ctrlBlks[num].View())
      ensures Present(num) && size > 0 ==>
        && 0 <= r <= size
        && Stretch(Started(old(ctrlBlks[num].View()), p, size), ctrlBlks[num].View(), p, Call(size, []), out[..r], blocked)
    {
      if num >= DRIVER_DEV_CAPACITY || ctrlBlks[num] == null {
        return ENXIO, false;
      }
      hide Valid, Stretch;
      r, blocked := ctrlBlks[num].Read(p, out, size);
    }
  }

  /** What a running reader `p` with the call `c` changes until it blocks or is done, having
      taken the bytes `taken`: it stops at the first newline or when its buffer is full, it
      blocks only when the count has run out, and it does not block when final text is there
      that no other reader was woken for. */
  ghost predicate Stretch(d: Device, d': Device, p: nat, c: Call, taken: seq<byte>, blocked: bool) {
    && Between(d, d', p, taken) && Valid(d')
    && |c.got| + |taken| <= c.size
    && if blocked then
         && |taken| == Pos(d.sem.val) && LF !in taken && |c.got| + |taken| < c.size
         && d'.sem == Down(d.sem.(val := d.sem.val - |taken|), p)
         && d'.calls == d.calls[p := c.(got := c.got + taken)]
         && (d.woken == [] ==> d.sem.val <= 0)
       else
         && taken != [] && LF !in taken[..|taken| - 1]
         && (taken[|taken| - 1] == LF || |c.got| + |taken| == c.size)
         && d'.sem == d.sem.(val := d.sem.val - |taken|)
         && d'.calls == d.calls - {p}
  }

  /** Only the bytes taken from the ring make a difference. */
  ghost predicate Between(d: Device, d': Device, p: nat, taken: seq<byte>) {
    && d'.buf == d.buf && d'.tail == d.tail && d'.cursor == d.cursor && d'.woken == d.woken && d'.editor == d.editor
    && d'.delivered == d.delivered + taken && d'.delivered <= d'.editor.committed
    && d'.owners == d.owners + seq(|taken|, _ => p)
    && |taken| <= Pos(d.sem.val)
  }

  /** The same in the middle of the loop. */
  ghost predicate UnderWay(d: Device, d': Device, p: nat, c: Call, taken: seq<byte>) {
    && Between(d, d', p, taken) && Valid(d')
    && LF !in taken && |c.got| + |taken| < c.size
    && p !in d'.woken && p !in d'.sem.queue
    && d'.sem == d.sem.(val := d.sem.val - |taken|)
    && d'.calls == d.calls[p := c.(got := c.got + taken)]
    && (d.woken == [] && d.sem.val > 0 ==> d'.sem.val > 0)
  }

  lemma UnderWayRuns(d: Device, d': Device, p: nat, c: Call, taken: seq<byte>)
    requires UnderWay(d, d', p, c, taken)
    ensures Iterated.requires(d', p) && |d'.buf| == SIZE && d'.head < SIZE && p in d'.calls
  {
  }

  lemma StretchBlocks(d: Device, d': Device, p: nat, c: Call, taken: seq<byte>)
    requires UnderWay(d, d', p, c, taken) && d'.sem.val - 1 < 0
    ensures Stretch(d, d'.(sem := Down(d'.sem, p)), p, c, taken, true)
  {
    hide Valid;
    BlockedValid(d', p);
  }

  lemma StretchTakes(d: Device, d': Device, p: nat, c: Call, taken: seq<byte>)
    requires UnderWay(d, d', p, c, taken) && d'.sem.val > 0
    requires |d'.buf| == SIZE && d'.head < SIZE
    ensures
      var b, d1 := d'.buf[d'.head], Taken(d'.(sem := Down(d'.sem, p)), p);
      if b == LF || |c.got| + |taken| + 1 == c.size then Stretch(d, d1, p, c, taken + [b], false)
      else UnderWay(d, d1, p, c, taken + [b])
  {
    hide Valid, Between, Taken, Down;
    TakeFacts(d', p);
    BetweenTakes(d, d', p, taken);
    TakenCall(d', p);
    var b := d'.buf[d'.head];
    if b == LF || |c.got| + |taken| + 1 == c.size {
      assert (taken + [b])[..|taken|] == taken;
      assert d'.calls - {p} == d.calls - {p};
    } else {
      assert c.got + (taken + [b]) == c.got + taken + [b];
      assert LF !in taken + [b];
    }
  }

  /** What taking a byte does to the semaphore and the call. */
  lemma TakenCall(d: Device, p: nat)
    requires |d.buf| == SIZE && d.head < SIZE && p in d.calls && d.sem.val > 0
    ensures
      var d', b, c := Taken(d.(sem := Down(d.sem, p)), p), d.buf[d.head], d.calls[p];
      && d'.sem == d.sem.(val := d.sem.val - 1) && d'.woken == d.woken
      && d'.calls == (if b == LF || |c.got| + 1 == c.size then d.calls - {p} else d.calls[p := c.(got := c.got + [b])])
  {
  }

  lemma BetweenTakes(d: Device, d': Device, p: nat, taken: seq<byte>)
    requires Between(d, d', p, taken) && p in d'.calls && |d'.buf| == SIZE && d'.head < SIZE
    requires |taken| < d.sem.val && |d'.delivered| < |d'.editor.committed|
    requires d'.buf[d'.head] == d'.editor.committed[|d'.delivered|]
    ensures Between(d, Taken(d'.(sem := Down(d'.sem, p)), p), p, taken + [d'.buf[d'.head]])
  {
    var b := d'.buf[d'.head];
    assert d.delivered + (taken + [b]) == d.delivered + taken + [b];
    assert seq(|taken| + 1, _ => p) == seq(|taken|, _ => p) + [p];
  }

  /** Final text ends in a newline, so a byte that is not one leaves more to read. */
  lemma TakeFacts(d: Device, p: nat)
    requires Valid(d) && p in d.calls && p !in d.woken && p !in d.sem.queue && d.sem.val > 0
    ensures |d.buf| == SIZE && d.head < SIZE && d.sem.queue == []
    ensures Valid(Taken(d.(sem := Down(d.sem, p)), p))
    ensures |d.delivered| < |d.editor.committed| && d.buf[d.head] == d.editor.committed[|d.delivered|]
    ensures d.buf[d.head] != LF && d.woken == [] ==> d.sem.val > 1
  {
    hide Window, Mine, EndsWith, NoDup;
    TakenBuffer(d, p);
    IteratedValid(d, p);
  }

  lemma UnderWayStarts(d: Device, p: nat)
    requires Valid(d) && p in d.calls && p !in d.woken && p !in d.sem.queue
    ensures UnderWay(d, d, p, d.calls[p], [])
  {
    hide Window, Mine, EndsWith, NoDup;
    assert d.calls[p].got + [] == d.calls[p].got;
  }

  lemma StretchCalls(d: Device, d': Device, p: nat, c: Call, taken: seq<byte>, blocked: bool)
    requires Stretch(d, d', p, c, taken, blocked)
    ensures !blocked ==> d'.calls == d.calls - {p}
  {
  }

  lemma NotWaiting(d: Device, p: nat)
    requires Valid(d) && p !in d.calls
    ensures p !in d.woken && p !in d.sem.queue
  {
  }

  lemma ResumedRuns(d: Device, p: nat)
    requires Valid(d) && p in d.woken
    ensures Tty.Resumed.requires(d, p) && Valid(Tty.Resumed(d, p))
    ensures p !in Tty.Resumed(d, p).woken && p !in d.sem.queue
  {
    NoDupParts(d.woken, d.sem.queue);
    WithoutMembers(d.woken, p);
    ResumedValid(d, p);
  }
}
