/** The terminal input path: `ldisc_recv_byte` of `src/drivers/ldisc.c` fills a ring
    buffer whose tail can still be edited, `read` of `src/drivers/tty.c` empties its
    committed part, and a counting semaphore tells the readers how much there is. */
module Tty {
  import opened Queues
  import opened Bytes
  import opened Semaphores

  const SIZE: nat := 128
  const CR: byte := 13
  const LF: byte := 10
  const DEL: byte := 127

  // ---- the reference: a line editor without a buffer ----

  /** Lines that are final, and the line being edited. */
  datatype Editor = Editor(committed: seq<byte>, edit: seq<byte>)

  function Translate(b: byte): byte {
    if b == CR then LF else b
  }

  /** One typed byte, when the readers have taken `taken` bytes so far: delete the last
      byte of the line, or drop the byte if 127 are held, or append it; a newline makes
      the line final. */
  function Feed(e: Editor, taken: nat, typed: byte): Editor {
    var b := Translate(typed);
    if b == DEL then e.(edit := if e.edit == [] then [] else e.edit[..|e.edit| - 1])
    else if |e.committed| + |e.edit| - taken == SIZE - 1 then e
    else if b == LF then Editor(e.committed + e.edit + [b], [])
    else e.(edit := e.edit + [b])
  }

  // ---- the device ----

  /** A `read` call in progress. */
  datatype Call = Call(size: nat, got: seq<byte>)

  /** `woken` are the readers released from the semaphore that have not run yet.
      `editor`, `delivered` and `owners` are history: the reference editor fed with the same bytes,
      the bytes handed to readers so far, and who took each. */
  datatype Device = Device(
    buf: seq<byte>, head: nat, tail: nat, cursor: nat,
    sem: Sem, woken: seq<nat>,
    calls: map<nat, Call>,
    editor: Editor, delivered: seq<byte>, owners: seq<nat>)

  /** The `n` bytes of the ring from `head` on. */
  function Window(buf: seq<byte>, head: nat, n: nat): seq<byte>
    requires |buf| == SIZE
  {
    seq(n, i requires 0 <= i < n => buf[(head + i) % SIZE])
  }

  function Held(d: Device): nat {
    (d.tail - d.head) % SIZE
  }

  function Pos(val: int): nat {
    if val > 0 then val else 0
  }

  /** `sem_signaln`. */
  function Signalled(m: Sem, woken: seq<nat>, n: nat): (Sem, seq<nat>)
    requires Consistent(m)
    decreases n
  {
    if n == 0 then (m, woken)
    else if m.val < 0 then Signalled(Up(m), woken + [m.queue[0]], n - 1)
    else Signalled(Up(m), woken, n - 1)
  }

  /** `ldisc_recv_byte`. */
  function Received(d: Device, typed: byte): Device
    requires |d.buf| == SIZE && d.tail < SIZE && Consistent(d.sem)
  {
    var b := Translate(typed);
    var d1 := d.(editor := Feed(d.editor, |d.delivered|, typed));
    if b == DEL then
      if d.cursor > 0 then d1.(tail := (if d.tail == 0 then SIZE else d.tail) - 1, cursor := d.cursor - 1) else d1
    else if (d.tail + 1) % SIZE == d.head then d1
    else Appended(d1, b)
  }

  /** The byte goes into the ring; a newline makes the line available to readers. */
  function Appended(d: Device, b: byte): Device
    requires |d.buf| == SIZE && d.tail < SIZE && Consistent(d.sem)
  {
    var d1 := d.(buf := d.buf[d.tail := b], tail := (d.tail + 1) % SIZE, cursor := d.cursor + 1);
    if b == LF then
      var (m, w) := Signalled(d.sem, d.woken, d.cursor + 1);
      d1.(sem := m, woken := w, cursor := 0)
    else d1
  }

  /** A reader with permission takes the byte at the head; its call ends at a newline or
      when its buffer is full. */
  function Taken(d: Device, p: nat): Device
    requires |d.buf| == SIZE && d.head < SIZE && p in d.calls
  {
    var b := d.buf[d.head];
    var c := d.calls[p].(got := d.calls[p].got + [b]);
    d.(head := (d.head + 1) % SIZE,
       delivered := d.delivered + [b],
       owners := d.owners + [p],
       calls := if b == LF || |c.got| == c.size then d.calls - {p} else d.calls[p := c])
  }

  /** One pass of the reader's loop: down the semaphore, then block or take a byte. */
  function Iterated(d: Device, p: nat): Device
    requires |d.buf| == SIZE && d.head < SIZE && p in d.calls
  {
    var d1 := d.(sem := Down(d.sem, p));
    if d.sem.val - 1 < 0 then d1 else Taken(d1, p)
  }

  /** A released reader runs again and takes its byte. */
  function Resumed(d: Device, p: nat): Device
    requires |d.buf| == SIZE && d.head < SIZE && p in d.calls
  {
    Taken(d.(woken := Without(d.woken, p)), p)
  }

  // ---- the invariant ----

  ghost predicate BufferOk(d: Device) {
    && |d.buf| == SIZE && d.head < SIZE && d.tail < SIZE
    && |d.delivered| <= |d.editor.committed|
    && Window(d.buf, d.head, Held(d)) == d.editor.committed[|d.delivered|..] + d.editor.edit
    && d.cursor == |d.editor.edit|
    && (d.editor.committed != [] ==> d.editor.committed[|d.editor.committed| - 1] == LF)
  }

  /** What readers got is a prefix of what the reference editor made final. */
  ghost predicate PrefixOk(d: Device) {
    d.delivered <= d.editor.committed
  }

  /** Final unread bytes are exactly the semaphore's positive count plus the wake-ups
      granted but not yet used. */
  ghost predicate CountOk(d: Device) {
    && Consistent(d.sem)
    && |d.editor.committed| - |d.delivered| == Pos(d.sem.val) + |d.woken|
  }

  /** Every blocked or released reader is one call in progress. */
  ghost predicate ReadersOk(d: Device) {
    && NoDup(d.woken + d.sem.queue)
    && (forall p :: p in d.woken || p in d.sem.queue ==> p in d.calls)
    && (forall p :: p in d.calls ==> |d.calls[p].got| < d.calls[p].size && LF !in d.calls[p].got)
  }

  /** The bytes taken by `p`, in order. */
  function Mine(bytes: seq<byte>, owners: seq<nat>, p: nat): seq<byte>
    requires |bytes| == |owners|
  {
    if bytes == [] then []
    else
      var n := |bytes| - 1;
      Mine(bytes[..n], owners[..n], p) + (if owners[n] == p then [bytes[n]] else [])
  }

  ghost predicate EndsWith(s: seq<byte>, t: seq<byte>) {
    |t| <= |s| && s[|s| - |t|..] == t
  }

  /** What a call in progress has in its buffer is exactly what its reader took last. */
  ghost predicate GotOk(d: Device) {
    && |d.owners| == |d.delivered|
    && forall p :: p in d.calls ==> EndsWith(Mine(d.delivered, d.owners, p), d.calls[p].got)
  }

  ghost predicate Valid(d: Device) {
    BufferOk(d) && PrefixOk(d) && CountOk(d) && ReadersOk(d) && GotOk(d)
  }

  // ---- ring lemmas ----

  lemma WindowPush(buf: seq<byte>, head: nat, n: nat, b: byte)
    requires |buf| == SIZE && head < SIZE && n < SIZE
    ensures Window(buf[(head + n) % SIZE := b], head, n + 1) == Window(buf, head, n) + [b]
  {
    var r := Window(buf[(head + n) % SIZE := b], head, n + 1);
    forall i | 0 <= i < n + 1 ensures r[i] == (Window(buf, head, n) + [b])[i] {
      if i < n {
        RingApart(head, i, n);
      }
    }
  }

  lemma RingApart(head: nat, i: nat, n: nat)
    requires head < SIZE && i < n < SIZE
    ensures (head + i) % SIZE != (head + n) % SIZE
  {
    assert (head + i) % SIZE == if head + i < SIZE then head + i else head + i - SIZE;
    assert (head + n) % SIZE == if head + n < SIZE then head + n else head + n - SIZE;
  }

  lemma WindowPop(buf: seq<byte>, head: nat, n: nat)
    requires |buf| == SIZE && head < SIZE && 0 < n <= SIZE
    ensures Window(buf, head, n)[1..] == Window(buf, (head + 1) % SIZE, n - 1)
    ensures Window(buf, head, n)[0] == buf[head]
  {
    var r := Window(buf, (head + 1) % SIZE, n - 1);
    forall i | 0 <= i < n - 1 ensures r[i] == Window(buf, head, n)[i + 1] {
      assert ((head + 1) % SIZE + i) % SIZE == (head + (i + 1)) % SIZE;
    }
  }

  lemma WindowBack(buf: seq<byte>, head: nat, n: nat)
    requires |buf| == SIZE && n > 0
    ensures Window(buf, head, n - 1) == Window(buf, head, n)[..n - 1]
  {
  }

  lemma {:induction false} SignalledCount(m: Sem, woken: seq<nat>, n: nat)
    requires Consistent(m)
    ensures
      var (m', w) := Signalled(m, woken, n);
      && Consistent(m')
      && Pos(m'.val) + |w| == Pos(m.val) + |woken| + n
      && w + m'.queue == woken + m.queue
    decreases n
  {
    if n > 0 {
      if m.val < 0 {
        SignalledCount(Up(m), woken + [m.queue[0]], n - 1);
        assert woken + [m.queue[0]] + m.queue[1..] == woken + m.queue;
      } else {
        SignalledCount(Up(m), woken, n - 1);
      }
    }
  }

  // ---- every step keeps the invariant ----

  lemma WindowSize(d: Device)
    requires BufferOk(d)
    ensures Held(d) == |d.editor.committed| - |d.delivered| + d.cursor
  {
    assert |Window(d.buf, d.head, Held(d))| == Held(d);
  }

  lemma DeleteBuffer(d: Device, typed: byte)
    requires BufferOk(d) && PrefixOk(d) && Consistent(d.sem) && Translate(typed) == DEL && d.cursor > 0
    ensures BufferOk(Received(d, typed))
  {
    hide Signalled, Window, Translate;
    var n, unread := Held(d), d.editor.committed[|d.delivered|..];
    WindowSize(d);
    RingBack(d.head, d.tail);
    WindowBack(d.buf, d.head, n);
    assert (unread + d.editor.edit)[..n - 1] == unread + d.editor.edit[..d.cursor - 1];
  }

  lemma RingEnd(head: nat, tail: nat)
    requires head < SIZE && tail < SIZE
    ensures tail == (head + (tail - head) % SIZE) % SIZE
    ensures (tail + 1) % SIZE != head ==> ((tail + 1) % SIZE - head) % SIZE == (tail - head) % SIZE + 1
  {
  }

  lemma RingBack(head: nat, tail: nat)
    requires head < SIZE && tail < SIZE && (tail - head) % SIZE > 0
    ensures ((if tail == 0 then SIZE else tail) - 1 - head) % SIZE == (tail - head) % SIZE - 1
  {
  }

  lemma RingStart(head: nat, tail: nat)
    requires head < SIZE && tail < SIZE && (tail - head) % SIZE > 0
    ensures (tail - (head + 1) % SIZE) % SIZE == (tail - head) % SIZE - 1
  {
  }

  /** A byte put behind the last one held. */
  lemma RingPush(d: Device, b: byte)
    requires BufferOk(d) && (d.tail + 1) % SIZE != d.head
    ensures ((d.tail + 1) % SIZE - d.head) % SIZE == Held(d) + 1
    ensures Window(d.buf[d.tail := b], d.head, Held(d) + 1) == d.editor.committed[|d.delivered|..] + d.editor.edit + [b]
  {
    hide Window;
    RingEnd(d.head, d.tail);
    HeldSize(d.head, d.tail);
    WindowPush(d.buf, d.head, Held(d), b);
  }

  lemma HeldSize(head: nat, tail: nat)
    ensures 0 <= (tail - head) % SIZE < SIZE
  {
  }

  lemma AppendBuffer(d: Device, typed: byte)
    requires BufferOk(d) && PrefixOk(d) && Consistent(d.sem) && Translate(typed) != DEL && (d.tail + 1) % SIZE != d.head
    ensures BufferOk(Received(d, typed)) && PrefixOk(Received(d, typed))
  {
    hide Signalled, Window, Translate;
    var b, unread, edit := Translate(typed), d.editor.committed[|d.delivered|..], d.editor.edit;
    DropIsFull(d);
    RingPush(d, b);
    assert (d.editor.committed + edit + [b])[|d.delivered|..] == unread + edit + [b];
    assert unread + edit + [b] == unread + (edit + [b]);
  }

  lemma ReceivedBuffer(d: Device, typed: byte)
    requires BufferOk(d) && PrefixOk(d) && Consistent(d.sem)
    ensures BufferOk(Received(d, typed)) && PrefixOk(Received(d, typed))
  {
    if Translate(typed) == DEL {
      if d.cursor > 0 {
        DeleteBuffer(d, typed);
      }
    } else if (d.tail + 1) % SIZE == d.head {
      DropIsFull(d);
    } else {
      AppendBuffer(d, typed);
    }
  }

  /** The count and the readers after a byte has gone into the ring. */
  lemma AppendedReaders(d: Device, fed: Editor, b: byte)
    requires |d.buf| == SIZE && d.tail < SIZE && CountOk(d) && ReadersOk(d) && GotOk(d) && d.cursor == |d.editor.edit|
    requires |fed.committed| == |d.editor.committed| + if b == LF then d.cursor + 1 else 0
    ensures
      var d' := Appended(d.(editor := fed), b);
      CountOk(d') && ReadersOk(d') && GotOk(d')
  {
    hide Mine, EndsWith, Signalled, ReadersOk;
    var d' := Appended(d.(editor := fed), b);
    if b == LF {
      SignalledCount(d.sem, d.woken, d.cursor + 1);
    }
    SameReaders(d, d');
  }

  lemma ReceivedValid(d: Device, typed: byte)
    requires Valid(d)
    ensures Valid(Received(d, typed))
  {
    hide Window, Mine, EndsWith, NoDup, Received, BufferOk, CountOk, ReadersOk, GotOk;
    BufferFacts(d);
    ReceivedBuffer(d, typed);
    ReceivedReaders(d, typed);
  }

  lemma BufferFacts(d: Device)
    requires BufferOk(d) && CountOk(d)
    ensures Consistent(d.sem) && |d.buf| == SIZE && d.tail < SIZE && d.cursor == |d.editor.edit|
    ensures (d.tail + 1) % SIZE == d.head <==> |d.editor.committed| + |d.editor.edit| - |d.delivered| == SIZE - 1
  {
    DropIsFull(d);
  }

  /** The count and the readers after a byte, in or dropped. */
  lemma ReceivedReaders(d: Device, typed: byte)
    requires |d.buf| == SIZE && d.tail < SIZE && CountOk(d) && ReadersOk(d) && GotOk(d) && d.cursor == |d.editor.edit|
    requires (d.tail + 1) % SIZE == d.head <==> |d.editor.committed| + |d.editor.edit| - |d.delivered| == SIZE - 1
    ensures
      var d' := Received(d, typed);
      CountOk(d') && ReadersOk(d') && GotOk(d')
  {
    hide Mine, EndsWith, Signalled, NoDup, Appended;
    var fed := Feed(d.editor, |d.delivered|, typed);
    if Translate(typed) != DEL && (d.tail + 1) % SIZE != d.head {
      AppendedReaders(d, fed, Translate(typed));
    }
  }

  /** The ring is full exactly when the reference editor holds 127 bytes. */
  lemma DropIsFull(d: Device)
    requires BufferOk(d)
    ensures (d.tail + 1) % SIZE == d.head <==> |d.editor.committed| + |d.editor.edit| - |d.delivered| == SIZE - 1
  {
    assert |Window(d.buf, d.head, Held(d))| == Held(d);
  }

  lemma SameReaders(d: Device, d': Device)
    requires ReadersOk(d) && d'.calls == d.calls && d'.woken + d'.sem.queue == d.woken + d.sem.queue
    ensures ReadersOk(d')
  {
    forall p | p in d'.woken || p in d'.sem.queue ensures p in d.calls {
      assert p in d'.woken + d'.sem.queue;
    }
  }

  lemma TakenBuffer(d: Device, p: nat)
    requires BufferOk(d) && PrefixOk(d) && p in d.calls && |d.delivered| < |d.editor.committed|
    ensures BufferOk(Taken(d, p)) && PrefixOk(Taken(d, p))
    ensures d.buf[d.head] == d.editor.committed[|d.delivered|]
  {
    hide Window;
    var n, k := Held(d), |d.delivered|;
    WindowSize(d);
    WindowPop(d.buf, d.head, n);
    RingStart(d.head, d.tail);
    assert d.editor.committed[k..] == [d.editor.committed[k]] + d.editor.committed[k + 1..];
    assert ([d.editor.committed[k]] + d.editor.committed[k + 1..] + d.editor.edit)[1..]
        == d.editor.committed[k + 1..] + d.editor.edit;
  }

  lemma MineAppend(bytes: seq<byte>, owners: seq<nat>, p: nat, b: byte, o: nat)
    requires |bytes| == |owners|
    ensures Mine(bytes + [b], owners + [o], p) == Mine(bytes, owners, p) + (if o == p then [b] else [])
  {
    assert (bytes + [b])[..|bytes|] == bytes && (owners + [o])[..|owners|] == owners;
  }

  lemma TakenGot(d: Device, p: nat)
    requires GotOk(d) && |d.buf| == SIZE && d.head < SIZE && p in d.calls
    ensures GotOk(Taken(d, p))
  {
    hide Mine;
    var d', b := Taken(d, p), d.buf[d.head];
    forall q | q in d'.calls ensures EndsWith(Mine(d'.delivered, d'.owners, q), d'.calls[q].got) {
      MineAppend(d.delivered, d.owners, q, b, p);
      assert EndsWith(Mine(d.delivered, d.owners, q), d.calls[q].got);
      if q == p {
        var m, got := Mine(d.delivered, d.owners, q), d.calls[q].got;
        assert (m + [b])[|m| - |got|..] == m[|m| - |got|..] + [b];
      }
    }
  }

  lemma BlockedValid(d: Device, p: nat)
    requires Valid(d) && p in d.calls && p !in d.woken && p !in d.sem.queue && d.sem.val - 1 < 0
    ensures Valid(d.(sem := Down(d.sem, p)))
  {
    hide Window, Mine, EndsWith;
    var q, q' := d.woken + d.sem.queue, d.woken + (d.sem.queue + [p]);
    assert q' == q + [p];
    assert p !in q;
  }

  /** A pass of a running reader's loop. */
  lemma IteratedValid(d: Device, p: nat)
    requires Valid(d) && p in d.calls && p !in d.woken && p !in d.sem.queue
    ensures Valid(Iterated(d, p))
  {
    if d.sem.val - 1 < 0 {
      hide Valid;
      BlockedValid(d, p);
    } else {
      hide Window, Mine, EndsWith, NoDup;
      PassReaders(d, p);
      TakenBuffer(d.(sem := Down(d.sem, p)), p);
      TakenGot(d.(sem := Down(d.sem, p)), p);
      hide Taken, BufferOk, CountOk, ReadersOk, GotOk, PrefixOk;
    }
  }

  /** The count and the readers when a running reader takes a byte. */
  lemma PassReaders(d: Device, p: nat)
    requires CountOk(d) && ReadersOk(d) && |d.buf| == SIZE && d.head < SIZE && |d.delivered| <= |d.editor.committed|
    requires p in d.calls && p !in d.woken && p !in d.sem.queue && d.sem.val > 0
    ensures |d.delivered| < |d.editor.committed|
    ensures CountOk(Iterated(d, p)) && ReadersOk(Iterated(d, p))
  {
    hide NoDup;
  }

  lemma ResumedValid(d: Device, p: nat)
    requires Valid(d) && p in d.woken
    ensures Valid(Resumed(d, p))
  {
    var w := Without(d.woken, p);
    NoDupParts(d.woken, d.sem.queue);
    WithoutMembers(d.woken, p);
    assert p !in d.sem.queue;
    TakenBuffer(d.(woken := w), p);
    TakenGot(d.(woken := w), p);
    NoDupConcat(w, d.sem.queue);
  }

  // ---- all runs ----

  datatype Label = Recv(typed: byte) | Start(proc: nat, size: nat) | Iterate(proc: nat) | Resume(proc: nat)

  predicate Enabled(d: Device, l: Label) {
    match l
    case Recv(_) => true
    case Start(p, _) => p !in d.calls
    case Iterate(p) => p in d.calls && p !in d.woken && p !in d.sem.queue
    case Resume(p) => p in d.woken
  }

  /** A read of no bytes returns at once; any other becomes a call in progress. */
  function Started(d: Device, p: nat, size: nat): Device {
    if size == 0 then d else d.(calls := d.calls[p := Call(size, [])])
  }

  ghost predicate Step(d: Device, l: Label, d': Device) {
    && Valid(d) && Enabled(d, l)
    && match l
       case Recv(b) => d' == Received(d, b)
       case Start(p, size) => d' == Started(d, p, size)
       case Iterate(p) => d' == Iterated(d, p)
       case Resume(p) => d' == Resumed(d, p)
  }

  /** `tty_init_ctrl_blk` and the line discipline's part of the control block. */
  ghost predicate Initial(d: Device) {
    |d.buf| == SIZE && d == Device(d.buf, 0, 0, 0, Sem(0, []), [], map[], Editor([], []), [], [])
  }

  ghost predicate Run(ds: seq<Device>, ls: seq<Label>) {
    && |ds| == |ls| + 1 && Initial(ds[0])
    && forall i :: 0 <= i < |ls| ==> Enabled(ds[i], ls[i]) && (Valid(ds[i]) ==> Step(ds[i], ls[i], ds[i + 1]))
  }

  lemma StartedValid(d: Device, p: nat, size: nat)
    requires Valid(d) && p !in d.calls && size > 0
    ensures Valid(d.(calls := d.calls[p := Call(size, [])]))
  {
    hide Window, Mine;
  }

  lemma StepValid(d: Device, l: Label, d': Device)
    requires Step(d, l, d')
    ensures Valid(d')
    ensures d.editor.committed <= d'.editor.committed && d.delivered <= d'.delivered
  {
    hide Valid, Signalled;
    match l {
      case Recv(b) => ReceivedValid(d, b);
      case Start(p, size) => if size > 0 { StartedValid(d, p, size); }
      case Iterate(p) => IteratedValid(d, p);
      case Resume(p) => ResumedValid(d, p);
    }
  }

  /** For every interleaving of typed bytes and readers: what the readers got so far is a
      prefix of the reference editor's final text, and the final bytes still unread are
      the semaphore's positive count plus the wake-ups granted but not yet used, and each
      reader's buffer holds exactly the bytes it took last. */
  lemma {:induction false} DeliveredIsCommittedPrefix(ds: seq<Device>, ls: seq<Label>, i: nat)
    requires Run(ds, ls) && i <= |ls|
    ensures Valid(ds[i])
    ensures ds[i].delivered <= ds[i].editor.committed
    ensures |ds[i].editor.committed| - |ds[i].delivered| == Pos(ds[i].sem.val) + |ds[i].woken|
    ensures GotOk(ds[i])
  {
    if i > 0 {
      DeliveredIsCommittedPrefix(ds, ls, i - 1);
      assert Step(ds[i - 1], ls[i - 1], ds[i]);
      StepValid(ds[i - 1], ls[i - 1], ds[i]);
    } else {
      assert Window(ds[0].buf, 0, 0) == [];
    }
  }

  /** The byte a reader takes is final: it is the next of the reference editor's text and
      no later typing changes it. */
  lemma TakenByteIsFinal(d: Device, p: nat)
    requires Valid(d) && (p in d.woken || (p in d.calls && p !in d.sem.queue && d.sem.val > 0))
    ensures |d.delivered| < |d.editor.committed| && d.buf[d.head] == d.editor.committed[|d.delivered|]
    ensures forall typed :: d.editor.committed <= Feed(d.editor, |d.delivered|, typed).committed
  {
    TakenBuffer(d, p);
  }

  /** The semaphore's value stays between minus the number of readers and 127, so the
      machine integer that holds it never overflows. */
  lemma CountFits(d: Device)
    requires Valid(d)
    ensures -|d.calls.Keys| <= d.sem.val < SIZE
  {
    hide Mine, EndsWith;
    NoDupParts(d.woken, d.sem.queue);
    NoDupSize(d.sem.queue, d.calls.Keys);
    WindowSize(d);
  }

  /** 127 bytes are in the ring: every slot but one. */
  ghost predicate Full(d: Device) {
    |d.editor.committed| + |d.editor.edit| - |d.delivered| == SIZE - 1
  }

  /** Typing has no effect exactly when there is nothing to delete, or no room to store:
      a full ring drops everything, newlines too, whatever the readers have taken. */
  lemma FullLineStuck(d: Device, typed: byte)
    requires Valid(d)
    ensures Received(d, typed) == d <==> if Translate(typed) == DEL then d.editor.edit == [] else Full(d)
  {
    hide Window, Mine, EndsWith, Signalled, ReadersOk, GotOk;
    DropIsFull(d);
    if Translate(typed) != DEL && !Full(d) {
      assert Received(d, typed).editor != d.editor;
    }
  }

  /** What each key does, by its code. Carriage return (13) is newline (10). Unless 127 bytes
      are held, a newline makes the line final, and exactly its bytes available to readers, in
      the order in which they wait; any other key but delete (127) goes to the end of the line
      as it is. Delete takes the last byte of the line off. Nothing else about the device or
      its readers changes. */
  lemma Keys(d: Device, b: byte)
    requires Valid(d)
    ensures Received(d, 13) == Received(d, 10)
    ensures
      var d', e := Received(d, b), d.editor;
      var full := |e.committed| + |e.edit| - |d.delivered| == 127;
      && d'.head == d.head && d'.calls == d.calls && d'.delivered == d.delivered && d'.owners == d.owners
      && (b == 127 ==>
            d'.editor == Editor(e.committed, if e.edit == [] then [] else e.edit[..|e.edit| - 1])
            && d'.sem == d.sem && d'.woken == d.woken)
      && (b != 127 && full ==> d' == d)
      && ((b == 10 || b == 13) && !full ==>
            && d'.editor == Editor(e.committed + e.edit + [10], [])
            && Pos(d'.sem.val) + |d'.woken| == Pos(d.sem.val) + |d.woken| + |e.edit| + 1
            && d'.woken + d'.sem.queue == d.woken + d.sem.queue)
      && (b != 10 && b != 13 && b != 127 && !full ==>
            d'.editor == Editor(e.committed, e.edit + [b]) && d'.sem == d.sem && d'.woken == d.woken)
  {
    hide Window, Mine, EndsWith, Signalled, ReadersOk, GotOk;
    DropIsFull(d);
    SignalledCount(d.sem, d.woken, d.cursor + 1);
  }

  /** The device after the bytes `s`, typed with no reader about. */
  function TypedAll(d: Device, s: seq<byte>): (d': Device)
    requires Valid(d)
    ensures Valid(d')
  {
    if s == [] then d
    else
      var n := |s| - 1;
      ReceivedValid(TypedAll(d, s[..n]), s[n]);
      Received(TypedAll(d, s[..n]), s[n])
  }

  lemma InitialValid(d: Device)
    requires Initial(d)
    ensures Valid(d)
  {
    assert Window(d.buf, 0, 0) == [];
  }

  /** Stored as typed: neither a newline nor a deletion. */
  predicate Plain(b: byte) {
    b != CR && b != LF && b != DEL
  }

  lemma ReceivedFeeds(d: Device, typed: byte)
    requires |d.buf| == SIZE && d.tail < SIZE && Consistent(d.sem)
    ensures Received(d, typed).editor == Feed(d.editor, |d.delivered|, typed) && Received(d, typed).delivered == d.delivered
  {
    hide Signalled;
  }

  lemma {:induction false} TypedLine(d: Device, s: seq<byte>)
    requires Initial(d) && Valid(d) && |s| < SIZE && forall i :: 0 <= i < |s| ==> Plain(s[i])
    ensures TypedAll(d, s).editor == Editor([], s) && TypedAll(d, s).delivered == []
  {
    hide Received;
    if s != [] {
      var n := |s| - 1;
      assert s == s[..n] + [s[n]];
      TypedLine(d, s[..n]);
      ReceivedFeeds(TypedAll(d, s[..n]), s[n]);
    }
  }

  /** A first line of 127 bytes never reaches a reader: its newline is lost, and so is
      everything typed after it, until something is deleted. */
  lemma LongLineLost(d: Device, s: seq<byte>, typed: byte)
    requires Initial(d) && |s| == SIZE - 1 && forall i :: 0 <= i < |s| ==> Plain(s[i])
    requires Translate(typed) != DEL
    ensures Valid(d) && Received(TypedAll(d, s), typed) == TypedAll(d, s)
    ensures TypedAll(d, s).editor.committed == []
  {
    InitialValid(d);
    hide Valid;
    TypedLine(d, s);
    FullLineStuck(TypedAll(d, s), typed);
  }
}
