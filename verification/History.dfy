/** What the run so far says about each process: who exited with what, who was reaped
    by whom and with which code. A history variable of the model; no code reads it. */
module History {
  import opened Sched
  import opened ProcTree

  /** Processes are named by birth number, because addresses and pids are reused.
      `status` is the argument register of the exit call. In a reaping, `parent` is the
      parent pointer of the reaped process and `reaper` the process that reaps. */
  datatype Event = Exited(birth: nat, status: nat) | Reaped(birth: nat, parent: nat, reaper: nat, code: int)

  /** The conversion of the 64-bit argument register to `i32`. */
  function ToI32(a: nat): int {
    var low := a % 0x1_0000_0000;
    if low < 0x8000_0000 then low else low - 0x1_0000_0000
  }

  predicate ExitAt(log: seq<Event>, i: int, b: int) {
    0 <= i < |log| && log[i].Exited? && log[i].birth == b
  }

  predicate ReapAt(log: seq<Event>, i: int, b: int) {
    0 <= i < |log| && log[i].Reaped? && log[i].birth == b
  }

  /** Nobody exits twice and nobody is reaped twice. */
  ghost predicate Once(log: seq<Event>) {
    && (forall i, j, b :: ExitAt(log, i, b) && ExitAt(log, j, b) ==> i == j)
    && (forall i, j, b :: ReapAt(log, i, b) && ReapAt(log, j, b) ==> i == j)
  }

  /** A reaping is by the parent of that moment, after the exit, and delivers the low
      eight bits of the status the process exited with. */
  ghost predicate Answered(log: seq<Event>) {
    forall j, b :: ReapAt(log, j, b) ==>
      log[j].parent == log[j].reaper && exists i :: ExitAt(log, i, b) && i < j && log[j].code == log[i].status % 256
  }

  /** What the log says of the processes that exist: live ones have no event, zombies
      have exactly their exit, with the status still in their record. */
  ghost predicate Current(log: seq<Event>, t: Procs, zs: set<Ptr>) {
    && (forall p, i :: p in t && ReapAt(log, i, t[p].birth) ==> false)
    && (forall p, i :: p in t && ExitAt(log, i, t[p].birth) ==> p in zs && t[p].exitStatus == ToI32(log[i].status))
    && (forall p :: p in t && p in zs ==> exists i :: ExitAt(log, i, t[p].birth))
  }

  predicate BornAs(t: Procs, p: Ptr, b: int) {
    p in t && t[p].birth == b
  }

  /** The process born as number `b` exists, or has been reaped. */
  ghost predicate Accounted(log: seq<Event>, t: Procs, b: int) {
    (exists p :: BornAs(t, p, b)) || exists i :: ReapAt(log, i, b)
  }

  /** Births are unique, and every process ever created exists or has been reaped. */
  ghost predicate Conserved(log: seq<Event>, t: Procs, births: nat) {
    && (forall p, b :: BornAs(t, p, b) ==> b < births)
    && (forall p, q, b :: BornAs(t, p, b) && BornAs(t, q, b) ==> p == q)
    && (forall i :: 0 <= i < |log| ==> log[i].birth < births)
    && (forall b :: 0 <= b < births ==> Accounted(log, t, b))
  }

  ghost predicate HistoryOk(log: seq<Event>, t: Procs, zs: set<Ptr>, births: nat) {
    Once(log) && Answered(log) && Current(log, t, zs) && Conserved(log, t, births)
  }

  /** Masking the converted status keeps the low eight bits of the register. */
  lemma MaskedStatus(a: nat)
    ensures ToI32(a) % 256 == a % 256
  {
    assert 0x1_0000_0000 == 256 * 0x100_0000;
    var q, r := a / 0x1_0000_0000, a % 0x1_0000_0000;
    assert a == 256 * (0x100_0000 * q) + r;
  }

  lemma ExitHistory(log: seq<Event>, t: Procs, t': Procs, zs: set<Ptr>, births: nat, c: Ptr, a: nat)
    requires HistoryOk(log, t, zs, births) && c in t && c !in zs && t'.Keys == t.Keys
    requires forall p :: p in t ==> t'[p].birth == t[p].birth
    requires forall p :: p in t ==> t'[p].exitStatus == if p == c then ToI32(a) else t[p].exitStatus
    ensures HistoryOk(log + [Exited(t[c].birth, a)], t', zs + {c}, births)
  {
    var b, n, log' := t[c].birth, |log|, log + [Exited(t[c].birth, a)];
    assert BornAs(t, c, b);
    assert forall p, x :: BornAs(t', p, x) <==> BornAs(t, p, x);
    assert forall i, x :: ReapAt(log', i, x) <==> ReapAt(log, i, x);
    assert forall i, x :: ExitAt(log', i, x) <==> ExitAt(log, i, x) || (i == n && x == b);
    assert Once(log');
    assert Answered(log') by {
      forall j, x | ReapAt(log', j, x)
        ensures log'[j].parent == log'[j].reaper && exists i :: ExitAt(log', i, x) && i < j && log'[j].code == log'[i].status % 256
      {
        var i :| ExitAt(log, i, x) && i < j && log[j].code == log[i].status % 256;
        assert ExitAt(log', i, x);
      }
    }
    assert Current(log', t', zs + {c}) by {
      assert ExitAt(log', n, b);
      forall p, i | p in t' && ExitAt(log', i, t'[p].birth)
        ensures p in zs + {c} && t'[p].exitStatus == ToI32(log'[i].status)
      {
        if i == n { assert BornAs(t, p, b); }
      }
      forall p | p in t' && p in zs + {c} ensures exists i :: ExitAt(log', i, t'[p].birth) {
        if p != c {
          var i :| ExitAt(log, i, t[p].birth);
          assert ExitAt(log', i, t'[p].birth);
        }
      }
    }
    assert Conserved(log', t', births) by {
      forall x | 0 <= x < births ensures Accounted(log', t', x) {
        assert Accounted(log, t, x);
        if q :| BornAs(t, q, x) {
          assert BornAs(t', q, x);
        } else {
          var i :| ReapAt(log, i, x);
          assert ReapAt(log', i, x);
        }
      }
    }
  }

  lemma ReapHistory(log: seq<Event>, t: Procs, t': Procs, zs: set<Ptr>, births: nat, z: Ptr, reaper: nat)
    requires HistoryOk(log, t, zs, births) && z in t && z in zs && t'.Keys == t.Keys - {z}
    requires forall p :: p in t' ==> t'[p].birth == t[p].birth && t'[p].exitStatus == t[p].exitStatus
    ensures HistoryOk(log + [Reaped(t[z].birth, reaper, reaper, t[z].exitStatus % 256)], t', zs - {z}, births)
  {
    var b, n := t[z].birth, |log|;
    var log' := log + [Reaped(b, reaper, reaper, t[z].exitStatus % 256)];
    assert BornAs(t, z, b);
    assert forall p, x :: BornAs(t', p, x) <==> BornAs(t, p, x) && p != z;
    assert forall i, x :: ExitAt(log', i, x) <==> ExitAt(log, i, x);
    assert forall i, x :: ReapAt(log', i, x) <==> ReapAt(log, i, x) || (i == n && x == b);
    assert forall i :: !ReapAt(log, i, b);
    assert Once(log');
    assert Answered(log') by {
      forall j, x | ReapAt(log', j, x)
        ensures log'[j].parent == log'[j].reaper && exists i :: ExitAt(log', i, x) && i < j && log'[j].code == log'[i].status % 256
      {
        if j == n {
          var i :| ExitAt(log, i, b);
          MaskedStatus(log[i].status);
          assert ExitAt(log', i, x);
        } else {
          var i :| ExitAt(log, i, x) && i < j && log[j].code == log[i].status % 256;
          assert ExitAt(log', i, x);
        }
      }
    }
    assert Current(log', t', zs - {z}) by {
      forall p, i | p in t' && ReapAt(log', i, t'[p].birth) ensures false {
        assert BornAs(t, p, t'[p].birth);
      }
      forall p | p in t' && p in zs - {z} ensures exists i :: ExitAt(log', i, t'[p].birth) {
        var i :| ExitAt(log, i, t[p].birth);
        assert ExitAt(log', i, t'[p].birth);
      }
    }
    assert Conserved(log', t', births) by {
      forall x | 0 <= x < births ensures Accounted(log', t', x) {
        assert Accounted(log, t, x);
        if x == b {
          assert ReapAt(log', n, b);
        } else if q :| BornAs(t, q, x) {
          assert BornAs(t', q, x);
        } else {
          var i :| ReapAt(log, i, x);
          assert ReapAt(log', i, x);
        }
      }
    }
  }

  lemma SpawnHistory(log: seq<Event>, t: Procs, t': Procs, zs: set<Ptr>, births: nat, p: Ptr)
    requires HistoryOk(log, t, zs, births) && p !in t && p !in zs && t'.Keys == t.Keys + {p}
    requires forall q :: q in t ==> t'[q].birth == t[q].birth && t'[q].exitStatus == t[q].exitStatus
    requires t'[p].birth == births
    ensures HistoryOk(log, t', zs, births + 1)
  {
    assert forall q, x :: BornAs(t', q, x) <==> BornAs(t, q, x) || (q == p && x == births);
    assert forall i :: !ReapAt(log, i, births) && !ExitAt(log, i, births);
    assert Current(log, t', zs);
    assert Conserved(log, t', births + 1) by {
      forall x | 0 <= x < births + 1 ensures Accounted(log, t', x) {
        assert x < births ==> Accounted(log, t, x);
        if x == births {
          assert BornAs(t', p, x);
        } else if q :| BornAs(t, q, x) {
          assert BornAs(t', q, x);
        }
      }
    }
  }

  /** The record of a zombie holds the code its exit calls for. */
  lemma CodeInRecord(log: seq<Event>, t: Procs, zs: set<Ptr>, z: Ptr)
    requires Current(log, t, zs) && z in t && z in zs
    ensures exists i :: ExitAt(log, i, t[z].birth) && t[z].exitStatus % 256 == log[i].status % 256
  {
    hide ToI32;
    var i :| ExitAt(log, i, t[z].birth);
    CodeAt(log, t, zs, z, i);
  }

  lemma CodeAt(log: seq<Event>, t: Procs, zs: set<Ptr>, z: Ptr, i: int)
    requires Current(log, t, zs) && z in t && ExitAt(log, i, t[z].birth)
    ensures t[z].exitStatus % 256 == log[i].status % 256
  {
    hide ToI32;
    MaskedStatus(log[i].status);
  }

  lemma BirthsBelow(log: seq<Event>, t: Procs, births: nat)
    requires Conserved(log, t, births)
    ensures forall p :: p in t ==> t[p].birth < births
  {
    assert forall p :: p in t ==> BornAs(t, p, t[p].birth);
  }
}
