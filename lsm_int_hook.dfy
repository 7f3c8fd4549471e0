/**
 * The BPF program attached to the file_mprotect hook: it passes an earlier
 * verdict through, and otherwise denies with -EPERM, counting the denial, when a
 * vma inside the heap is protected by the monitored process.
 */
module LsmIntHook {

  type U32 = x: int | 0 <= x < 0x1_0000_0000
  type U64 = x: int | 0 <= x < 0x1_0000_0000_0000_0000
  /** The C `int` of the hook's return value. */
  type I32 = x: int | -0x8000_0000 <= x < 0x8000_0000

  const EPERM: I32 := 1

  datatype MmStruct = MmStruct(startBrk: U64, brk: U64)

  datatype VmAreaStruct = VmAreaStruct(vmStart: U64, vmEnd: U64, vmMm: MmStruct)

  /** The program's global `result`. */
  datatype LsmProgResult = LsmProgResult(monitoredPid: U32, count: nat)

  /** The arguments of one invocation of the hook, with the value bpf_get_current_pid_tgid() returns during it. */
  datatype HookCall = HookCall(vma: VmAreaStruct, reqprot: U64, prot: U64, ret: I32, pidTgid: U64)

  /** The vma lies within the process's heap, [start_brk, brk]. */
  predicate IsHeap(vma: VmAreaStruct) {
    vma.vmStart >= vma.vmMm.startBrk && vma.vmEnd <= vma.vmMm.brk
  }

  /** Address `a` lies in the vma, [vm_start, vm_end). */
  predicate InVma(vma: VmAreaStruct, a: int) {
    vma.vmStart <= a < vma.vmEnd
  }

  /** Address `a` lies in the heap, [start_brk, brk). */
  predicate InHeap(mm: MmStruct, a: int) {
    mm.startBrk <= a < mm.brk
  }

  /** For a non-empty vma, the heap test holds exactly when every address of the vma is a heap address. */
  lemma IsHeapCoversVma(vma: VmAreaStruct)
    requires vma.vmStart < vma.vmEnd
    ensures IsHeap(vma) <==> forall a :: InVma(vma, a) ==> InHeap(vma.vmMm, a)
  {
    if forall a :: InVma(vma, a) ==> InHeap(vma.vmMm, a) {
      assert InVma(vma, vma.vmStart) && InVma(vma, vma.vmEnd - 1);
    }
  }

  /** The assignment to a `__u32` keeps the low 32 bits of the pid_tgid value. */
  function CurrentPid(pidTgid: U64): (pid: U32)
    ensures exists tgid: U32 :: pidTgid == tgid * 0x1_0000_0000 + pid
  {
    var pid := pidTgid % 0x1_0000_0000;
    var hi := pidTgid / 0x1_0000_0000;
    assert hi < 0x1_0000_0000;
    assert pidTgid == hi * 0x1_0000_0000 + pid;
    pid
  }

  /** bpf_get_current_pid_tgid returns tgid << 32 | pid; the hook reads back the pid. */
  lemma CurrentPidOfPidTgid(tgid: U32, pid: U32)
    ensures 0 <= tgid * 0x1_0000_0000 + pid < 0x1_0000_0000_0000_0000
    ensures CurrentPid(tgid * 0x1_0000_0000 + pid) == pid
  {
  }

  /** This invocation is the one the program denies: no earlier denial, heap vma, monitored pid. */
  predicate Denies(result: LsmProgResult, c: HookCall) {
    c.ret == 0 && IsHeap(c.vma) && result.monitoredPid == CurrentPid(c.pidTgid)
  }

  /** The value test_int_hook returns. */
  function HookReturn(result: LsmProgResult, c: HookCall): (r: I32)
    ensures r == c.ret || r == -EPERM
    ensures c.ret != 0 ==> r == c.ret
    ensures c.ret == 0 ==> (r == -EPERM <==> IsHeap(c.vma) && result.monitoredPid == CurrentPid(c.pidTgid))
    ensures c.ret == 0 && r != -EPERM ==> r == 0
  {
    if Denies(result, c) then -EPERM else c.ret
  }

  /** The global `result` after the invocation. */
  function NextResult(result: LsmProgResult, c: HookCall): (next: LsmProgResult)
    ensures next.monitoredPid == result.monitoredPid
    ensures next.count == result.count + (if c.ret == 0 && HookReturn(result, c) == -EPERM then 1 else 0)
  {
    if Denies(result, c) then result.(count := result.count + 1) else result
  }

  /** `result` after a sequence of invocations. */
  function Run(result: LsmProgResult, calls: seq<HookCall>): LsmProgResult
    decreases |calls|
  {
    if calls == [] then result else Run(NextResult(result, calls[0]), calls[1..])
  }

  /** How many of the invocations this program itself denied. */
  function DenialsIssued(result: LsmProgResult, calls: seq<HookCall>): nat
    decreases |calls|
  {
    if calls == [] then 0
    else
      (if calls[0].ret == 0 && HookReturn(result, calls[0]) == -EPERM then 1 else 0)
      + DenialsIssued(NextResult(result, calls[0]), calls[1..])
  }

  /** Over any run, `count` grows by exactly the number of denials issued, and the monitored pid never changes. */
  lemma {:induction false} RunCountsDenials(result: LsmProgResult, calls: seq<HookCall>)
    ensures Run(result, calls).monitoredPid == result.monitoredPid
    ensures Run(result, calls).count == result.count + DenialsIssued(result, calls)
    decreases |calls|
  {
    if calls != [] {
      RunCountsDenials(NextResult(result, calls[0]), calls[1..]);
    }
  }

  /** The loaded program, holding its global `result`. */
  class IntHookProg {
    var result: LsmProgResult

    /** The initial value of the global. */
    constructor ()
      ensures result == LsmProgResult(0, 0)
    {
      result := LsmProgResult(0, 0);
    }

    /** test_int_hook, attached to lsm/file_mprotect; `pidTgid` is what bpf_get_current_pid_tgid() returns. */
    method TestIntHook(vma: VmAreaStruct, reqprot: U64, prot: U64, ret: I32, pidTgid: U64) returns (r: I32)
      modifies this
      ensures r == HookReturn(old(result), HookCall(vma, reqprot, prot, ret, pidTgid))
      ensures result == NextResult(old(result), HookCall(vma, reqprot, prot, ret, pidTgid))
    {
      if ret != 0 {
        return ret;
      }
      var pid := CurrentPid(pidTgid);
      var isHeap := IsHeap(vma);
      r := ret;
      if isHeap && result.monitoredPid == pid {
        result := result.(count := result.count + 1);
        r := -EPERM;
      }
    }
  }
}
