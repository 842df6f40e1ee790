/** The two stacks of a new process: the argument vector that `init_stacks` of `src/proc.c`
    lays out below the top of the user stack page, and the seven words that `proc_fill_stack`
    of `src/arch/riscv/proc.c` then stores on the kernel stack page. */
module Argv {
  import opened Bytes

  const WORD: nat := 8
  const FRAME: nat := 38 * WORD

  /** The bytes the first `i` arguments take, each with its terminator. */
  function Room(argv: seq<seq<byte>>, i: nat): nat
    requires i <= |argv|
  {
    if i == 0 then 0 else Room(argv, i - 1) + |argv[i - 1]| + 1
  }

  /** All bytes laid out: the vector with its null slot, and the arguments. */
  function Size(argv: seq<seq<byte>>): nat {
    WORD * (|argv| + 1) + Room(argv, |argv|)
  }

  /** The address of the vector, when the stack page ends at `top`. */
  function Vec(argv: seq<seq<byte>>, top: nat): int {
    top - WORD * (|argv| + 1)
  }

  /** Argument `i` lies below the vector and below the arguments before it. */
  function Addr(argv: seq<seq<byte>>, top: nat, i: nat): int
    requires i < |argv|
  {
    Vec(argv, top) - Room(argv, i + 1)
  }

  lemma {:induction false} RoomGrows(argv: seq<seq<byte>>, i: nat, j: nat)
    requires i < j <= |argv|
    ensures Room(argv, i) + |argv[i]| + 1 <= Room(argv, j)
    decreases j
  {
    if i + 1 < j {
      RoomGrows(argv, i, j - 1);
    }
  }

  /** Argument `i` lies between the lowest byte laid out and the vector. */
  lemma Inside(argv: seq<seq<byte>>, top: nat, i: nat)
    requires i < |argv|
    ensures top - Size(argv) <= Addr(argv, top, i)
    ensures Addr(argv, top, i) + |argv[i]| + 1 == Vec(argv, top) - Room(argv, i) <= Vec(argv, top)
  {
    if i + 1 < |argv| {
      RoomGrows(argv, i + 1, |argv|);
    }
  }

  /** The strings do not overlap one another. */
  lemma StringsDisjoint(argv: seq<seq<byte>>, top: nat, i: nat, j: nat)
    requires i < j < |argv|
    ensures Addr(argv, top, j) + |argv[j]| + 1 <= Addr(argv, top, i)
  {
    Inside(argv, top, j);
    if i + 1 < j {
      RoomGrows(argv, i + 1, j);
    }
  }

  /** Argument `i` is an exact terminated copy where its slot says. */
  ghost predicate Placed(mem: seq<byte>, top: nat, argv: seq<seq<byte>>, i: nat)
    requires Size(argv) <= top <= |mem| && i < |argv|
  {
    Inside(argv, top, i);
    && Le(mem, Vec(argv, top) + WORD * i, WORD) == Addr(argv, top, i)
    && mem[Addr(argv, top, i)..Addr(argv, top, i) + |argv[i]| + 1] == argv[i] + [0]
  }

  /** The first `n` arguments are in place. */
  ghost predicate AllPlaced(mem: seq<byte>, top: nat, argv: seq<seq<byte>>, n: nat)
    requires Size(argv) <= top <= |mem| && n <= |argv|
  {
    forall i :: 0 <= i < n ==> Placed(mem, top, argv, i)
  }

  /** The whole vector is in place: every slot points to its argument, the last is null. */
  ghost predicate InPlace(mem: seq<byte>, top: nat, argv: seq<seq<byte>>)
    requires Size(argv) <= top <= |mem|
  {
    AllPlaced(mem, top, argv, |argv|) && Le(mem, top - WORD, WORD) == 0
  }

  /** Overwriting the bytes from `at` on. */
  function Patched(mem: seq<byte>, at: nat, s: seq<byte>): (r: seq<byte>)
    requires at + |s| <= |mem|
    ensures |r| == |mem| && r[at..at + |s|] == s
  {
    mem[..at] + s + mem[at + |s|..]
  }

  lemma PatchedByte(mem: seq<byte>, at: nat, s: seq<byte>, i: nat)
    requires at + |s| <= |mem| && i < |mem| && (i < at || at + |s| <= i)
    ensures Patched(mem, at, s)[i] == mem[i]
  {
  }

  lemma PatchedFrame(mem: seq<byte>, at: nat, s: seq<byte>, lo: nat, hi: nat)
    requires at + |s| <= |mem| && lo <= hi <= |mem| && (hi <= at || at + |s| <= lo)
    ensures Patched(mem, at, s)[lo..hi] == mem[lo..hi]
  {
    forall i | lo <= i < hi ensures Patched(mem, at, s)[i] == mem[i] {
      PatchedByte(mem, at, s, i);
    }
    hide Patched;
    var r := Patched(mem, at, s);
    assert |r| == |mem|;
  }

  /** Memory after one pass of the loop: the slot, then the string. */
  function Next(mem: seq<byte>, top: nat, argv: seq<seq<byte>>, i: nat): (r: seq<byte>)
    requires Size(argv) <= top <= |mem| && i < |argv|
    ensures |r| == |mem|
  {
    Inside(argv, top, i);
    Patched(
      Patched(mem, Vec(argv, top) + WORD * i, LeBytes(Addr(argv, top, i), WORD)),
      Addr(argv, top, i), argv[i] + [0])
  }

  /** A pass writes its slot and its string only. */
  lemma NextFrame(mem: seq<byte>, top: nat, argv: seq<seq<byte>>, i: nat, lo: nat, hi: nat)
    requires Size(argv) <= top <= |mem| && i < |argv| && lo <= hi <= |mem|
    requires hi <= Vec(argv, top) + WORD * i || Vec(argv, top) + WORD * (i + 1) <= lo
    requires hi <= Addr(argv, top, i) || Addr(argv, top, i) + |argv[i]| + 1 <= lo
    ensures Next(mem, top, argv, i)[lo..hi] == mem[lo..hi]
  {
    hide LeBytes, Patched, Room;
    Inside(argv, top, i);
    var slot, w, at := Vec(argv, top) + WORD * i, LeBytes(Addr(argv, top, i), WORD), Addr(argv, top, i);
    PatchedFrame(mem, slot, w, lo, hi);
    PatchedFrame(Patched(mem, slot, w), at, argv[i] + [0], lo, hi);
  }

  /** Placing the next argument leaves the earlier ones in place. */
  lemma PlacedKept(mem: seq<byte>, top: nat, argv: seq<seq<byte>>, i: nat, j: nat)
    requires Size(argv) <= top <= |mem| && j < i < |argv| && Placed(mem, top, argv, j)
    ensures Placed(Next(mem, top, argv, i), top, argv, j)
  {
    hide Le, Next, Room;
    Inside(argv, top, i);
    Inside(argv, top, j);
    StringsDisjoint(argv, top, j, i);
    var slot, o := Vec(argv, top) + WORD * j, Addr(argv, top, j);
    NextFrame(mem, top, argv, i, o, o + |argv[j]| + 1);
    NextFrame(mem, top, argv, i, slot, slot + WORD);
    LeFrame(Next(mem, top, argv, i), mem, slot, WORD);
  }

  lemma PlacedNew(mem: seq<byte>, top: nat, argv: seq<seq<byte>>, i: nat)
    requires Size(argv) <= top <= |mem| && i < |argv| && top <= Pow256(WORD)
    ensures Placed(Next(mem, top, argv, i), top, argv, i)
  {
    hide Le, LeBytes, Patched, Room, Pow256;
    Inside(argv, top, i);
    var slot, at := Vec(argv, top) + WORD * i, Addr(argv, top, i);
    var m1 := Patched(mem, slot, LeBytes(at, WORD));
    PatchedFrame(m1, at, argv[i] + [0], slot, slot + WORD);
    LeRoundTrip(Next(mem, top, argv, i), slot, at, WORD);
  }

  /** The final null slot is not disturbed, nor is anything outside the layout. */
  lemma OutsideKept(mem: seq<byte>, top: nat, argv: seq<seq<byte>>, i: nat)
    requires Size(argv) <= top <= |mem| && i < |argv|
    ensures
      var m := Next(mem, top, argv, i);
      && Le(m, top - WORD, WORD) == Le(mem, top - WORD, WORD)
      && m[..top - Size(argv)] == mem[..top - Size(argv)] && m[top..] == mem[top..]
  {
    hide Le, Next, Room;
    Inside(argv, top, i);
    var m := Next(mem, top, argv, i);
    NextFrame(mem, top, argv, i, top - WORD, top);
    LeFrame(m, mem, top - WORD, WORD);
    NextFrame(mem, top, argv, i, 0, top - Size(argv));
    NextFrame(mem, top, argv, i, top, |mem|);
    assert m[0..top - Size(argv)] == m[..top - Size(argv)] && mem[0..top - Size(argv)] == mem[..top - Size(argv)];
  }

  // ---- all passes of the loop ----

  /** What the loop has reached: `i` arguments placed, the vector's end null, and nothing
      outside the layout written. */
  ghost predicate Reached(before: seq<byte>, mem: seq<byte>, top: nat, argv: seq<seq<byte>>, i: nat)
    requires Size(argv) <= top <= |mem| && |before| == |mem| && i <= |argv|
  {
    && AllPlaced(mem, top, argv, i)
    && Le(mem, top - WORD, WORD) == 0
    && mem[..top - Size(argv)] == before[..top - Size(argv)] && mem[top..] == before[top..]
  }

  lemma ReachedNext(before: seq<byte>, mem: seq<byte>, top: nat, argv: seq<seq<byte>>, i: nat)
    requires Size(argv) <= top <= |mem| && |before| == |mem| && i < |argv| && top <= Pow256(WORD)
    requires Reached(before, mem, top, argv, i)
    ensures Reached(before, Next(mem, top, argv, i), top, argv, i + 1)
  {
    hide Le, Next, Placed, Room, Pow256, Size;
    forall j | 0 <= j < i + 1 ensures Placed(Next(mem, top, argv, i), top, argv, j) {
      if j < i {
        PlacedKept(mem, top, argv, i, j);
      } else {
        PlacedNew(mem, top, argv, i);
      }
    }
    OutsideKept(mem, top, argv, i);
  }

  lemma ReachedStart(before: seq<byte>, top: nat, argv: seq<seq<byte>>)
    requires Size(argv) <= top <= |before|
    ensures Reached(before, Patched(before, top - WORD, LeBytes(0, WORD)), top, argv, 0)
  {
    hide Le, LeBytes, Patched, Room;
    ZeroWord();
    var m := Patched(before, top - WORD, LeBytes(0, WORD));
    LeRoundTrip(m, top - WORD, 0, WORD);
    PatchedFrame(before, top - WORD, LeBytes(0, WORD), 0, top - Size(argv));
    PatchedFrame(before, top - WORD, LeBytes(0, WORD), top, |before|);
    assert m[0..top - Size(argv)] == m[..top - Size(argv)];
    assert before[0..top - Size(argv)] == before[..top - Size(argv)];
    assert m[top..|before|] == m[top..] && before[top..|before|] == before[top..];
  }

  lemma ZeroWord()
    ensures 0 < Pow256(WORD)
  {
  }

  /** Memory after the null slot and `i` passes of the loop. */
  function Laid(mem: seq<byte>, top: nat, argv: seq<seq<byte>>, i: nat): (r: seq<byte>)
    requires Size(argv) <= top <= |mem| && i <= |argv|
    ensures |r| == |mem|
  {
    if i == 0 then Patched(mem, top - WORD, LeBytes(0, WORD)) else Next(Laid(mem, top, argv, i - 1), top, argv, i - 1)
  }

  lemma {:induction false} LaidReached(mem: seq<byte>, top: nat, argv: seq<seq<byte>>, i: nat)
    requires Size(argv) <= top <= |mem| && i <= |argv| && top <= Pow256(WORD)
    ensures Reached(mem, Laid(mem, top, argv, i), top, argv, i)
  {
    hide Reached, Next, Patched, LeBytes, Size, Pow256;
    if i == 0 {
      ReachedStart(mem, top, argv);
    } else {
      LaidReached(mem, top, argv, i - 1);
      ReachedNext(mem, Laid(mem, top, argv, i - 1), top, argv, i - 1);
    }
  }

  /** The loop lays out the whole vector and writes nothing but the stretch it needs. */
  lemma LaidInPlace(mem: seq<byte>, top: nat, argv: seq<seq<byte>>)
    requires Size(argv) <= top <= |mem| && top <= Pow256(WORD)
    ensures InPlace(Laid(mem, top, argv, |argv|), top, argv)
    ensures forall x :: 0 <= x < |mem| && !(top - Size(argv) <= x < top) ==> Laid(mem, top, argv, |argv|)[x] == mem[x]
  {
    hide Laid, Size, Placed, Le, Pow256;
    var m := Laid(mem, top, argv, |argv|);
    LaidReached(mem, top, argv, |argv|);
    forall x | 0 <= x < |mem| && !(top - Size(argv) <= x < top) ensures m[x] == mem[x] {
      if x < top {
        assert m[..top - Size(argv)][x] == mem[..top - Size(argv)][x];
      } else {
        assert m[top..][x - top] == mem[top..][x - top];
      }
    }
  }

  // ---- the vector is its bytes ----

  /** Whether the vector is in place depends on the bytes of its stretch alone. */
  lemma InPlaceFrame(m: seq<byte>, m': seq<byte>, top: nat, argv: seq<seq<byte>>)
    requires Size(argv) <= top <= |m| && |m'| == |m| && InPlace(m, top, argv)
    requires m[top - Size(argv)..top] == m'[top - Size(argv)..top]
    ensures InPlace(m', top, argv)
  {
    hide Le, Room;
    forall i | 0 <= i < |argv| ensures Placed(m', top, argv, i) {
      assert Placed(m, top, argv, i);
      Inside(argv, top, i);
      var slot, o := Vec(argv, top) + WORD * i, Addr(argv, top, i);
      SameSlice(m, m', top - Size(argv), top, slot, slot + WORD);
      SameSlice(m, m', top - Size(argv), top, o, o + |argv[i]| + 1);
      LeFrame(m', m, slot, WORD);
    }
    SameSlice(m, m', top - Size(argv), top, top - WORD, top);
    LeFrame(m', m, top - WORD, WORD);
  }

  lemma SameSlice(m: seq<byte>, m': seq<byte>, lo: nat, hi: nat, a: nat, b: nat)
    requires lo <= a <= b <= hi <= |m| && |m'| == |m| && m[lo..hi] == m'[lo..hi]
    ensures m[a..b] == m'[a..b]
  {
    forall x | a <= x < b ensures m[x] == m'[x] {
      assert m[lo..hi][x - lo] == m'[lo..hi][x - lo];
    }
  }

  lemma JoinSlices(m: seq<byte>, m': seq<byte>, a: nat, b: nat, c: nat)
    requires a <= b <= c <= |m| && |m'| == |m| && m[a..b] == m'[a..b] && m[b..c] == m'[b..c]
    ensures m[a..c] == m'[a..c]
  {
    assert m[a..c] == m[a..b] + m[b..c] && m'[a..c] == m'[a..b] + m'[b..c];
  }

  /** Two memories that hold the strings agree on them. */
  lemma {:induction false} StringsUnique(m: seq<byte>, m': seq<byte>, top: nat, argv: seq<seq<byte>>, n: nat)
    requires Size(argv) <= top <= |m| && |m'| == |m| && n <= |argv| && Room(argv, n) <= Vec(argv, top)
    requires AllPlaced(m, top, argv, |argv|) && AllPlaced(m', top, argv, |argv|)
    ensures m[Vec(argv, top) - Room(argv, n)..Vec(argv, top)] == m'[Vec(argv, top) - Room(argv, n)..Vec(argv, top)]
  {
    hide Le;
    if n > 0 {
      StringsUnique(m, m', top, argv, n - 1);
      assert Placed(m, top, argv, n - 1) && Placed(m', top, argv, n - 1);
      Inside(argv, top, n - 1);
      JoinSlices(m, m', Vec(argv, top) - Room(argv, n), Vec(argv, top) - Room(argv, n - 1), Vec(argv, top));
    }
  }

  lemma {:induction false} SlotsUnique(m: seq<byte>, m': seq<byte>, top: nat, argv: seq<seq<byte>>, n: nat)
    requires Size(argv) <= top <= |m| && |m'| == |m| && n <= |argv|
    requires AllPlaced(m, top, argv, |argv|) && AllPlaced(m', top, argv, |argv|)
    ensures m[Vec(argv, top)..Vec(argv, top) + WORD * n] == m'[Vec(argv, top)..Vec(argv, top) + WORD * n]
  {
    hide Le, Room;
    if n > 0 {
      SlotsUnique(m, m', top, argv, n - 1);
      assert Placed(m, top, argv, n - 1) && Placed(m', top, argv, n - 1);
      var slot := Vec(argv, top) + WORD * (n - 1);
      LeUnique(m, m', slot, WORD);
      JoinSlices(m, m', Vec(argv, top), slot, slot + WORD);
    }
  }

  /** Two memories with the vector in place agree on its whole stretch. */
  lemma InPlaceUnique(m: seq<byte>, m': seq<byte>, top: nat, argv: seq<seq<byte>>)
    requires Size(argv) <= top <= |m| && |m'| == |m| && InPlace(m, top, argv) && InPlace(m', top, argv)
    ensures m[top - Size(argv)..top] == m'[top - Size(argv)..top]
  {
    hide Le, AllPlaced;
    StringsUnique(m, m', top, argv, |argv|);
    SlotsUnique(m, m', top, argv, |argv|);
    LeUnique(m, m', top - WORD, WORD);
    JoinSlices(m, m', top - Size(argv), Vec(argv, top), top - WORD);
    JoinSlices(m, m', top - Size(argv), top - WORD, top);
  }

  // ---- the kernel stack ----

  /** Word `index` above the kernel stack pointer, and what is stored there. */
  datatype Word = Word(index: nat, value: nat)

  /** What `proc_fill_stack` is given, apart from the argument vector. `status` is the status
      register with its bits set. */
  datatype Start = Start(entry: nat, status: nat, pageTable: nat, procEntry: nat)

  predicate StartOk(st: Start) {
    st.entry < Pow256(WORD) && st.status < Pow256(WORD) && st.pageTable < Pow256(WORD) && st.procEntry < Pow256(WORD)
  }

  /** The stores of `proc_fill_stack`, in order. */
  function Stores(newArgv: nat, argc: nat, usp: nat, st: Start): seq<Word> {
    [Word(31, newArgv), Word(30, argc), Word(27, st.entry), Word(26, st.status),
     Word(25, usp - usp % 16), Word(16, 8 * 0x1000_0000_0000_0000 + st.pageTable / PAGE), Word(15, st.procEntry)]
  }

  ghost predicate StoresOk(ws: seq<Word>) {
    && (forall i :: 0 <= i < |ws| ==> ws[i].index < 32 && ws[i].value < Pow256(WORD))
    && (forall i, j :: 0 <= i < j < |ws| ==> ws[i].index != ws[j].index)
  }

  function Stored(mem: seq<byte>, ksp: nat, ws: seq<Word>): (r: seq<byte>)
    requires ksp + FRAME <= |mem| && forall i :: 0 <= i < |ws| ==> ws[i].index < 32
    ensures |r| == |mem|
    decreases |ws|
  {
    if ws == [] then mem
    else Stored(Patched(mem, ksp + WORD * ws[0].index, LeBytes(ws[0].value, WORD)), ksp, ws[1..])
  }

  /** Address `x` belongs to one of the words stored. */
  ghost predicate Hit(ksp: nat, ws: seq<Word>, x: int) {
    exists i :: 0 <= i < |ws| && ksp + WORD * ws[i].index <= x < ksp + WORD * ws[i].index + WORD
  }

  lemma {:induction false} StoredElsewhere(mem: seq<byte>, ksp: nat, ws: seq<Word>, x: nat)
    requires ksp + FRAME <= |mem| && (forall i :: 0 <= i < |ws| ==> ws[i].index < 32) && x < |mem| && !Hit(ksp, ws, x)
    ensures Stored(mem, ksp, ws)[x] == mem[x]
    decreases |ws|
  {
    hide Patched, LeBytes;
    if ws != [] {
      var at := ksp + WORD * ws[0].index;
      PatchedByte(mem, at, LeBytes(ws[0].value, WORD), x);
      assert !Hit(ksp, ws[1..], x) by {
        forall i | 0 <= i < |ws[1..]| ensures !(ksp + WORD * ws[1..][i].index <= x < ksp + WORD * ws[1..][i].index + WORD) {
          assert ws[1..][i] == ws[i + 1];
        }
      }
      StoredElsewhere(Patched(mem, at, LeBytes(ws[0].value, WORD)), ksp, ws[1..], x);
    }
  }

  /** Every word stored stands there in the end. */
  lemma {:induction false} StoredWord(mem: seq<byte>, ksp: nat, ws: seq<Word>, i: nat)
    requires ksp + FRAME <= |mem| && StoresOk(ws) && i < |ws|
    ensures Stored(mem, ksp, ws)[ksp + WORD * ws[i].index..ksp + WORD * ws[i].index + WORD] == LeBytes(ws[i].value, WORD)
    decreases |ws|
  {
    hide Patched, LeBytes, Pow256;
    var m := Patched(mem, ksp + WORD * ws[0].index, LeBytes(ws[0].value, WORD));
    if i > 0 {
      assert StoresOk(ws[1..]);
      StoredWord(m, ksp, ws[1..], i - 1);
    } else {
      var at, r := ksp + WORD * ws[0].index, Stored(m, ksp, ws[1..]);
      forall x | at <= x < at + WORD ensures r[x] == m[x] {
        assert !Hit(ksp, ws[1..], x);
        StoredElsewhere(m, ksp, ws[1..], x);
      }
      assert r[at..at + WORD] == m[at..at + WORD];
    }
  }

  // ---- both stacks ----

  /** Two different pages in a memory of 64-bit addresses; the vector does not run below zero. */
  ghost predicate StacksOk(size: nat, base: nat, kern: nat, argv: seq<seq<byte>>) {
    && base % PAGE == 0 && kern % PAGE == 0 && base != kern
    && base + PAGE <= size && kern + PAGE <= size && size <= Pow256(WORD)
    && Size(argv) <= base + PAGE
  }

  function KernelSp(kern: nat): nat {
    kern + PAGE - FRAME
  }

  function Words(base: nat, argv: seq<seq<byte>>, st: Start): seq<Word>
    requires Size(argv) <= base + PAGE
  {
    Stores(Vec(argv, base + PAGE), |argv|, base + PAGE - Size(argv), st)
  }

  /** Memory after `init_stacks`: the vector below the end of page `base`, then the words on
      page `kern`. */
  function Built(mem: seq<byte>, base: nat, kern: nat, argv: seq<seq<byte>>, st: Start): (r: seq<byte>)
    requires base + PAGE <= |mem| && kern + PAGE <= |mem| && Size(argv) <= base + PAGE
    ensures |r| == |mem|
  {
    Stored(Laid(mem, base + PAGE, argv, |argv|), KernelSp(kern), Words(base, argv, st))
  }

  /** The words stored on the kernel stack reach into the vector. */
  predicate Overwritten(base: nat, kern: nat, argv: seq<seq<byte>>) {
    kern < base && Size(argv) > base - kern + 6 * WORD
  }

  lemma WordLimit()
    ensures Pow256(WORD) == 0x1_0000_0000_0000_0000 && Pow256(WORD - 1) == 0x100_0000_0000_0000
  {
    assert Pow256(3) == 0x100_0000 && Pow256(6) == 0x1_0000_0000_0000;
  }

  lemma WordsOk(size: nat, base: nat, kern: nat, argv: seq<seq<byte>>, st: Start)
    requires StacksOk(size, base, kern, argv) && StartOk(st)
    ensures StoresOk(Words(base, argv, st))
  {
    hide Pow256, Room;
    WordLimit();
  }

  /** The words lie between 184 and 48 bytes below the end of the kernel page, the highest
      right up to it. */
  lemma HitRange(base: nat, kern: nat, argv: seq<seq<byte>>, st: Start, x: int)
    requires Size(argv) <= base + PAGE
    ensures Hit(KernelSp(kern), Words(base, argv, st), x) ==> kern + PAGE - 184 <= x < kern + PAGE - 48
    ensures kern + PAGE - 56 <= x < kern + PAGE - 48 ==> Hit(KernelSp(kern), Words(base, argv, st), x)
  {
    hide Room;
    var ws := Words(base, argv, st);
    assert ws[0].index == 31;
  }

  /** Pages do not overlap, so a store meets the vector exactly if the kernel page lies below
      and the vector is longer than the distance to the highest word. */
  lemma OverwrittenExactly(size: nat, base: nat, kern: nat, argv: seq<seq<byte>>, st: Start)
    requires StacksOk(size, base, kern, argv)
    ensures (exists x :: base + PAGE - Size(argv) <= x < base + PAGE && Hit(KernelSp(kern), Words(base, argv, st), x))
      <==> Overwritten(base, kern, argv)
    ensures Overwritten(base, kern, argv) ==> Size(argv) > PAGE
  {
    hide Room, Hit, Words, Pow256;
    PagesApart(base, kern);
    forall x { HitRange(base, kern, argv, st, x); }
    if Overwritten(base, kern, argv) {
      var x := kern + PAGE - 49;
      assert Hit(KernelSp(kern), Words(base, argv, st), x);
    }
  }

  lemma PagesApart(base: nat, kern: nat)
    requires base % PAGE == 0 && kern % PAGE == 0 && base != kern
    ensures base + PAGE <= kern || kern + PAGE <= base
  {
  }

  /** What `init_stacks` leaves in memory: the seven words on the kernel stack; the vector in
      place if and only if each of its bytes that a word covers is what the word has there;
      and every other byte as it was. */
  lemma BuiltExactly(mem: seq<byte>, base: nat, kern: nat, argv: seq<seq<byte>>, st: Start)
    requires StacksOk(|mem|, base, kern, argv) && StartOk(st)
    ensures forall i :: 0 <= i < 7 ==> WordStands(Built(mem, base, kern, argv, st), KernelSp(kern), Words(base, argv, st)[i])
    ensures InPlace(Built(mem, base, kern, argv, st), base + PAGE, argv) <==>
      forall x :: base + PAGE - Size(argv) <= x < base + PAGE && Hit(KernelSp(kern), Words(base, argv, st), x) ==>
        Built(mem, base, kern, argv, st)[x] == Laid(mem, base + PAGE, argv, |argv|)[x]
    ensures forall x :: 0 <= x < |mem| ==>
      || base + PAGE - Size(argv) <= x < base + PAGE
      || Hit(KernelSp(kern), Words(base, argv, st), x)
      || Built(mem, base, kern, argv, st)[x] == mem[x]
  {
    hide Room, Laid, Stored, Pow256, Hit, InPlace, StartOk;
    var top, ksp, ws := base + PAGE, KernelSp(kern), Words(base, argv, st);
    var laid, m, low := Laid(mem, top, argv, |argv|), Built(mem, base, kern, argv, st), top - Size(argv);
    WordsOk(|mem|, base, kern, argv, st);
    LaidInPlace(mem, top, argv);
    forall i | 0 <= i < 7 ensures WordStands(m, ksp, ws[i]) {
      StoredWord(laid, ksp, ws, i);
      LeRoundTrip(m, ksp + WORD * ws[i].index, ws[i].value, WORD);
    }
    forall x | 0 <= x < |mem| && !Hit(ksp, ws, x) ensures m[x] == laid[x] {
      StoredElsewhere(laid, ksp, ws, x);
    }
    SameStretch(laid, m, top, argv);
    if forall x :: low <= x < top && Hit(ksp, ws, x) ==> m[x] == laid[x] {
      assert forall x :: low <= x < top ==> m[x] == laid[x];
    }
  }

  /** Given one memory with the vector in place, it is in place in another exactly if they agree
      on its stretch. */
  lemma SameStretch(laid: seq<byte>, m: seq<byte>, top: nat, argv: seq<seq<byte>>)
    requires |m| == |laid| && Size(argv) <= top <= |m| <= Pow256(WORD) && InPlace(laid, top, argv)
    ensures InPlace(m, top, argv) <==> forall x :: top - Size(argv) <= x < top ==> m[x] == laid[x]
  {
    hide Pow256, InPlace, Size;
    var low := top - Size(argv);
    if InPlace(m, top, argv) {
      InPlaceUnique(m, laid, top, argv);
      forall x | low <= x < top ensures m[x] == laid[x] {
        assert m[low..top][x - low] == laid[low..top][x - low];
      }
    }
    if forall x :: low <= x < top ==> m[x] == laid[x] {
      assert m[low..top] == laid[low..top];
      InPlaceFrame(laid, m, top, argv);
    }
  }

  ghost predicate WordStands(mem: seq<byte>, ksp: nat, w: Word)
    requires ksp + FRAME <= |mem| && w.index < 32
  {
    Le(mem, ksp + WORD * w.index, WORD) == w.value
  }

  /** A vector of at most a page, and any vector the words do not reach, stays in place. */
  lemma BuiltInPlace(mem: seq<byte>, base: nat, kern: nat, argv: seq<seq<byte>>, st: Start)
    requires StacksOk(|mem|, base, kern, argv) && StartOk(st) && !Overwritten(base, kern, argv)
    ensures InPlace(Built(mem, base, kern, argv, st), base + PAGE, argv)
  {
    hide Room, Built, Laid, Pow256, Hit, InPlace, StartOk, Words;
    OverwrittenExactly(|mem|, base, kern, argv, st);
    BuiltExactly(mem, base, kern, argv, st);
  }

  /** Otherwise the top byte of the vector's own address, zero for a physical address, lands
      on a byte of the vector. */
  lemma ByteCleared(mem: seq<byte>, base: nat, kern: nat, argv: seq<seq<byte>>, st: Start)
    requires StacksOk(|mem|, base, kern, argv) && StartOk(st) && Overwritten(base, kern, argv)
    requires base + PAGE <= Pow256(WORD - 1)
    ensures base + PAGE - Size(argv) <= kern + PAGE - 49 < base + PAGE
    ensures Built(mem, base, kern, argv, st)[kern + PAGE - 49] == 0
  {
    hide Room, Laid, Stored, Pow256, LeBytes, StartOk;
    WordsOk(|mem|, base, kern, argv, st);
    var laid, ksp, ws := Laid(mem, base + PAGE, argv, |argv|), KernelSp(kern), Words(base, argv, st);
    var m, at := Stored(laid, ksp, ws), ksp + WORD * 31;
    StoredWord(laid, ksp, ws, 0);
    LeTopZero(ws[0].value, WORD);
    assert m[at..at + WORD][WORD - 1] == m[at + WORD - 1];
  }

  /** The input on which it shows: the user page right above the kernel page, as the page
      allocator hands them out first, and one argument of 4128 letters. Its first letter is gone. */
  lemma LongArgumentDamaged(mem: seq<byte>, st: Start) returns (argv: seq<seq<byte>>)
    requires |mem| == 3 * PAGE && StartOk(st)
    ensures argv == [seq(4128, i => 65)] && StacksOk(|mem|, 2 * PAGE, PAGE, argv)
    ensures Addr(argv, 3 * PAGE, 0) == 2 * PAGE - 49 && Built(mem, 2 * PAGE, PAGE, argv, st)[2 * PAGE - 49] == 0
    ensures !InPlace(Built(mem, 2 * PAGE, PAGE, argv, st), 3 * PAGE, argv)
  {
    hide Built, Pow256, StartOk;
    argv := [seq(4128, i => 65)];
    assert Room(argv, 1) == 4129;
    WordLimit();
    ByteCleared(mem, 2 * PAGE, PAGE, argv, st);
    if InPlace(Built(mem, 2 * PAGE, PAGE, argv, st), 3 * PAGE, argv) {
      FirstLetter(Built(mem, 2 * PAGE, PAGE, argv, st), 3 * PAGE, argv, 0);
    }
  }

  lemma FirstLetter(mem: seq<byte>, top: nat, argv: seq<seq<byte>>, i: nat)
    requires Size(argv) <= top <= |mem| && InPlace(mem, top, argv) && i < |argv| && argv[i] != []
    ensures 0 <= Addr(argv, top, i) < |mem| && mem[Addr(argv, top, i)] == argv[i][0]
  {
    hide Le;
    Inside(argv, top, i);
    assert Placed(mem, top, argv, i);
    var o := Addr(argv, top, i);
    assert mem[o] == mem[o..o + |argv[i]| + 1][0];
  }

  // ---- what the program finds ----

  /** The string at address `a`: the bytes up to the first zero. */
  function ReadString(mem: seq<byte>, a: nat): seq<byte>
    decreases |mem| - a
  {
    if a >= |mem| || mem[a] == 0 then [] else [mem[a]] + ReadString(mem, a + 1)
  }

  /** The strings that the `n` pointers at address `v` lead to. */
  function ReadStrings(mem: seq<byte>, v: nat, n: nat): seq<seq<byte>>
    requires v + WORD * n <= |mem|
  {
    seq(n, i requires 0 <= i < n => ReadString(mem, Le(mem, v + WORD * i, WORD)))
  }

  lemma {:induction false} StringReadsBack(mem: seq<byte>, a: nat, s: seq<byte>)
    requires a + |s| + 1 <= |mem| && mem[a..a + |s| + 1] == s + [0] && 0 !in s
    ensures ReadString(mem, a) == s
    decreases |s|
  {
    assert mem[a] == mem[a..a + |s| + 1][0] == (s + [0])[0];
    if s != [] {
      assert mem[a + 1..a + 1 + |s[1..]| + 1] == mem[a..a + |s| + 1][1..] == s[1..] + [0];
      StringReadsBack(mem, a + 1, s[1..]);
      assert s == [s[0]] + s[1..];
    }
  }

  /** The saved registers, word by word: the argument vector in word 31, the argument count in
      30, the entry address in 27, the status in 26, an aligned user stack pointer in 25, the
      address-translation register in 16, and the return address into the kernel in 15. */
  lemma SavedRegisters(mem: seq<byte>, base: nat, kern: nat, argv: seq<seq<byte>>, st: Start)
    requires StacksOk(|mem|, base, kern, argv) && StartOk(st)
    ensures
      var m, f := Built(mem, base, kern, argv, st), kern + 4096 - 304;
      && Le(m, f + 8 * 31, 8) == base + 4096 - 8 * (|argv| + 1)
      && Le(m, f + 8 * 30, 8) == |argv|
      && Le(m, f + 8 * 27, 8) == st.entry
      && Le(m, f + 8 * 26, 8) == st.status
      && Le(m, f + 8 * 16, 8) == 0x8000_0000_0000_0000 + st.pageTable / 4096
      && Le(m, f + 8 * 15, 8) == st.procEntry
      && var sp := Le(m, f + 8 * 25, 8);
      && sp % 16 == 0 && sp <= base + 4096 - Size(argv) < sp + 16
      && (base <= sp <==> Size(argv) <= 4096)
  {
    hide Le, Room, Pow256, Laid, Stored, Hit, InPlace, StartOk;
    BuiltExactly(mem, base, kern, argv, st);
    var m, ws, ksp := Built(mem, base, kern, argv, st), Words(base, argv, st), KernelSp(kern);
    assert WordStands(m, ksp, ws[0]) && WordStands(m, ksp, ws[1]) && WordStands(m, ksp, ws[2]) && WordStands(m, ksp, ws[3]);
    assert WordStands(m, ksp, ws[4]) && WordStands(m, ksp, ws[5]) && WordStands(m, ksp, ws[6]);
    AlignDown(base, base + PAGE - Size(argv));
  }

  /** The vector at `v` with `argc` pointers and a null pointer leads to the strings `argv`,
      packed from the first to the last below it, all at or above `sp`. */
  ghost predicate Finds(m: seq<byte>, v: nat, argc: nat, sp: nat, argv: seq<seq<byte>>) {
    && v + 8 * argc + 8 <= |m| && argc == |argv| && sp <= v
    && ReadStrings(m, v, argc) == argv && Le(m, v + 8 * argc, 8) == 0
    && forall i :: 0 <= i < argc ==> Packed(m, v, argv, i, sp)
  }

  /** Argument `i` ends where the one before it starts, the first where the vector does. */
  ghost predicate Packed(m: seq<byte>, v: nat, argv: seq<seq<byte>>, i: nat, sp: nat)
    requires i < |argv| && v + 8 * |argv| <= |m|
  {
    && sp <= Le(m, v + 8 * i, 8)
    && Le(m, v + 8 * i, 8) + |argv[i]| + 1 == if i == 0 then v else Le(m, v + 8 * (i - 1), 8)
  }

  lemma ArgumentReadsBack(m: seq<byte>, top: nat, argv: seq<seq<byte>>, i: nat)
    requires Size(argv) <= top <= |m| && AllPlaced(m, top, argv, |argv|) && i < |argv| && 0 !in argv[i]
    ensures ReadString(m, Le(m, Vec(argv, top) + WORD * i, WORD)) == argv[i]
    ensures Packed(m, Vec(argv, top), argv, i, top - Size(argv))
  {
    hide Le, ReadString;
    assert Placed(m, top, argv, i);
    Inside(argv, top, i);
    StringReadsBack(m, Addr(argv, top, i), argv[i]);
    if i > 0 {
      assert Placed(m, top, argv, i - 1);
    }
  }

  lemma VectorReadsBack(m: seq<byte>, top: nat, argv: seq<seq<byte>>)
    requires Size(argv) <= top <= |m| && InPlace(m, top, argv)
    requires forall i :: 0 <= i < |argv| ==> 0 !in argv[i]
    ensures Finds(m, Vec(argv, top), |argv|, top - Size(argv), argv)
  {
    hide Le, ReadString, Room, AllPlaced, Packed;
    var v, low := Vec(argv, top), top - Size(argv);
    forall i | 0 <= i < |argv|
      ensures Packed(m, v, argv, i, low) && ReadString(m, Le(m, v + WORD * i, WORD)) == argv[i]
    {
      ArgumentReadsBack(m, top, argv, i);
    }
    assert ReadStrings(m, v, |argv|) == argv;
    assert v + WORD * |argv| == top - WORD;
    hide ReadStrings;
    assert Finds(m, v, |argv|, low, argv);
  }

  lemma LowerStack(m: seq<byte>, v: nat, argc: nat, sp: nat, sp': nat, argv: seq<seq<byte>>)
    requires Finds(m, v, argc, sp, argv) && sp' <= sp
    ensures Finds(m, v, argc, sp', argv)
  {
    hide Le, ReadStrings;
    forall i | 0 <= i < argc ensures Packed(m, v, argv, i, sp') {
      assert Packed(m, v, argv, i, sp);
    }
  }

  /** So a program whose arguments no register overwrites, all of at most a page among them,
      finds its arguments again. */
  lemma ProgramFindsArguments(mem: seq<byte>, base: nat, kern: nat, argv: seq<seq<byte>>, st: Start)
    requires StacksOk(|mem|, base, kern, argv) && StartOk(st) && !Overwritten(base, kern, argv)
    requires forall i :: 0 <= i < |argv| ==> 0 !in argv[i]
    ensures
      var m, f := Built(mem, base, kern, argv, st), kern + 4096 - 304;
      Finds(m, Le(m, f + 8 * 31, 8), Le(m, f + 8 * 30, 8), Le(m, f + 8 * 25, 8), argv)
  {
    hide Le, Pow256, Built, StartOk, Finds, Room, InPlace;
    var m, f := Built(mem, base, kern, argv, st), kern + 4096 - 304;
    SavedRegisters(mem, base, kern, argv, st);
    BuiltInPlace(mem, base, kern, argv, st);
    VectorReadsBack(m, base + PAGE, argv);
    LowerStack(m, Vec(argv, base + PAGE), |argv|, base + PAGE - Size(argv), Le(m, f + 8 * 25, 8), argv);
  }

  // ---- in place ----

  /** `mem_copy` into memory. */
  method CopyIn(mem: array<byte>, at: nat, s: seq<byte>)
    requires at + |s| <= mem.Length
    modifies mem
    ensures mem[..] == Patched(old(mem[..]), at, s)
  {
    ghost var before := mem[..];
    for i := 0 to |s|
      invariant mem[..] == Patched(before, at, s[..i])
    {
      mem[at + i] := s[i];
      assert s[..i + 1] == s[..i] + [s[i]];
    }
    assert s[..|s|] == s;
  }

  /** The stack work of `init_stacks`, for arguments of any length: nothing checks that they
      fit in the page. */
  method InitStack(mem: array<byte>, base: nat, kern: nat, argv: seq<seq<byte>>, st: Start)
    returns (newArgv: nat, usp: nat, ksp: nat)
    requires StacksOk(mem.Length, base, kern, argv) && StartOk(st)
    modifies mem
    ensures newArgv == Vec(argv, base + PAGE) && usp == base + PAGE - Size(argv) && ksp == KernelSp(kern)
    ensures mem[..] == Built(old(mem[..]), base, kern, argv, st)
    ensures !Overwritten(base, kern, argv) ==> InPlace(mem[..], base + PAGE, argv)
    ensures base <= usp - usp % 16 <==> Size(argv) <= PAGE
  {
    hide LeBytes, Patched, InPlace, Pow256, Next, Laid, Stored, StartOk;
    ghost var top, before := base + PAGE, mem[..];
    usp := base + PAGE - WORD * (|argv| + 1);
    newArgv := usp;
    CopyIn(mem, newArgv + WORD * |argv|, LeBytes(0, WORD));
    LaidStart(before, top, argv);
    var i := 0;
    while i < |argv|
      invariant 0 <= i <= |argv| && usp == Vec(argv, top) - Room(argv, i)
      invariant mem[..] == Laid(before, top, argv, i)
    {
      Inside(argv, top, i);
      var len := |argv[i]|;
      usp := usp - (len + 1);
      PutArgument(mem, top, argv, i, newArgv, usp);
      LaidNext(before, top, argv, i);
      i := i + 1;
    }
    ksp := FillStack(mem, kern, usp, |argv|, newArgv, st);
    AlignDown(base, usp);
    if !Overwritten(base, kern, argv) {
      BuiltInPlace(before, base, kern, argv, st);
    }
  }

  lemma LaidStart(mem: seq<byte>, top: nat, argv: seq<seq<byte>>)
    requires Size(argv) <= top <= |mem|
    ensures Laid(mem, top, argv, 0) == Patched(mem, top - WORD, LeBytes(0, WORD))
  {
  }

  lemma LaidNext(mem: seq<byte>, top: nat, argv: seq<seq<byte>>, i: nat)
    requires Size(argv) <= top <= |mem| && i < |argv|
    ensures Laid(mem, top, argv, i + 1) == Next(Laid(mem, top, argv, i), top, argv, i)
  {
  }

  method PutArgument(mem: array<byte>, ghost top: nat, argv: seq<seq<byte>>, i: nat, newArgv: nat, usp: nat)
    requires Size(argv) <= top <= mem.Length && i < |argv| && newArgv == Vec(argv, top) && usp == Addr(argv, top, i)
    modifies mem
    ensures mem[..] == Next(old(mem[..]), top, argv, i)
  {
    hide LeBytes, Patched, Room;
    Inside(argv, top, i);
    CopyIn(mem, newArgv + WORD * i, LeBytes(usp, WORD));
    CopyIn(mem, usp, argv[i] + [0]);
  }

  /** `proc_fill_stack`: the kernel stack pointer goes down 38 words, and seven are stored. */
  method FillStack(mem: array<byte>, kern: nat, usp: nat, argc: nat, newArgv: nat, st: Start) returns (ksp: nat)
    requires kern + PAGE <= mem.Length
    modifies mem
    ensures ksp == KernelSp(kern) && mem[..] == Stored(old(mem[..]), ksp, Stores(newArgv, argc, usp, st))
  {
    hide LeBytes, Patched, Stored;
    ksp := kern + PAGE - FRAME;
    ghost var ws := Stores(newArgv, argc, usp, st);
    assert ws[1..][1..] == ws[2..] && ws[2..][1..] == ws[3..] && ws[3..][1..] == ws[4..];
    assert ws[4..][1..] == ws[5..] && ws[5..][1..] == ws[6..] && ws[6..][1..] == [];
    Store(mem, ksp, 31, newArgv, ws);
    Store(mem, ksp, 30, argc, ws[1..]);
    Store(mem, ksp, 27, st.entry, ws[2..]);
    Store(mem, ksp, 26, st.status, ws[3..]);
    Store(mem, ksp, 25, usp - usp % 16, ws[4..]);
    Store(mem, ksp, 16, 8 * 0x1000_0000_0000_0000 + st.pageTable / PAGE, ws[5..]);
    Store(mem, ksp, 15, st.procEntry, ws[6..]);
    NothingStored(mem[..], ksp);
  }

  lemma NothingStored(mem: seq<byte>, ksp: nat)
    requires ksp + FRAME <= |mem|
    ensures Stored(mem, ksp, []) == mem
  {
  }

  /** A word of the frame. */
  method Store(mem: array<byte>, ksp: nat, index: nat, value: nat, ghost ws: seq<Word>)
    requires ksp + FRAME <= mem.Length && ws != [] && ws[0] == Word(index, value)
    requires forall i :: 0 <= i < |ws| ==> ws[i].index < 32
    modifies mem
    ensures Stored(mem[..], ksp, ws[1..]) == Stored(old(mem[..]), ksp, ws)
  {
    CopyIn(mem, ksp + WORD * index, LeBytes(value, WORD));
  }

  lemma AlignDown(base: nat, usp: nat)
    requires base % PAGE == 0
    ensures (usp - usp % 16) % 16 == 0 && (base <= usp - usp % 16 <==> base <= usp)
  {
    var m, q := 256 * (base / PAGE), usp / 16;
    assert base == 16 * m && usp - usp % 16 == 16 * q;
    Sixteens(m, q, usp % 16);
    assert usp == 16 * q + usp % 16;
  }

  lemma Sixteens(m: nat, q: nat, r: nat)
    requires r < 16
    ensures (16 * q) % 16 == 0 && (16 * m <= 16 * q <==> 16 * m <= 16 * q + r)
  {
  }
}
