/** The pid allocation of `src/proc.c`. */
module Pids {
  import opened Queues

  const PROC_TABLE_SIZE: nat := 256

  type Table = seq<Option<nat>>

  /** The least free slot in `[lo, hi)`. */
  function FirstFree(table: Table, lo: nat, hi: nat): (r: Option<nat>)
    requires lo <= hi <= |table|
    ensures r.Some? ==> lo <= r.value < hi && table[r.value] == None
    ensures r.Some? ==> forall i :: lo <= i < r.value ==> table[i].Some?
    ensures r.None? ==> forall i :: lo <= i < hi ==> table[i].Some?
    decreases hi - lo
  {
    if lo == hi then None
    else if table[lo] == None then Some(lo)
    else FirstFree(table, lo + 1, hi)
  }

  /** Position of slot `i` in the scan that starts after `last` and wraps around. */
  function ScanRank(last: nat, i: nat): int {
    if i > last then i - last else i - last + PROC_TABLE_SIZE
  }

  /** `new_pid`: scan up from the slot after `last`, then from zero up to `last`. */
  function NewPid(table: Table, last: nat): Option<nat>
    requires |table| == PROC_TABLE_SIZE && last < PROC_TABLE_SIZE
  {
    var up := FirstFree(table, last + 1, PROC_TABLE_SIZE);
    if up.Some? then up else FirstFree(table, 0, last)
  }

  /** The pid handed out is the free slot that comes first in the cyclic scan; the scan
      fails exactly when every slot but `last` itself is taken. */
  lemma NewPidExact(table: Table, last: nat)
    requires |table| == PROC_TABLE_SIZE && last < PROC_TABLE_SIZE
    ensures NewPid(table, last) == None <==> forall i :: 0 <= i < PROC_TABLE_SIZE && i != last ==> table[i].Some?
    ensures NewPid(table, last).Some? ==>
      var pid := NewPid(table, last).value;
      && pid < PROC_TABLE_SIZE && pid != last && table[pid] == None
      && forall i :: 0 <= i < PROC_TABLE_SIZE && i != last && table[i] == None ==> ScanRank(last, pid) <= ScanRank(last, i)
  {
    var up := FirstFree(table, last + 1, PROC_TABLE_SIZE);
    if up.None? && FirstFree(table, 0, last).Some? {
      assert table[FirstFree(table, 0, last).value] == None;
    }
  }
}
