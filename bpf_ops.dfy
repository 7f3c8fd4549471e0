/**
 * The verifier operations of the BPF LSM program type: the whitelist of helper
 * functions a program attached to an LSM hook may call.
 */
module BpfOps {
  import opened Optional

  /**
   * enum bpf_func_id: the four helpers the whitelist names, and every other
   * helper of the enumeration. The number of `FuncOther` is only a label that
   * tells those other helpers apart; it is not the enumerator's numeric value,
   * so `FuncOther(1)` is some other helper, never map_lookup_elem.
   */
  datatype BpfFuncId =
    | FuncMapLookupElem
    | FuncGetCurrentPidTgid
    | FuncSleepEnable
    | FuncSleepDisable
    | FuncOther(id: nat)

  /** The helper prototypes the whitelist hands out. */
  datatype BpfFuncProto =
    | MapLookupElemProto
    | GetCurrentPidTgidProto
    | SleepEnableProto
    | SleepDisableProto

  /** The program being verified; the whitelist does not look at it. */
  datatype BpfProg = BpfProg(id: nat)

  /** The helpers a BPF LSM program may call. */
  const AllowedHelpers: set<BpfFuncId> := {FuncMapLookupElem, FuncGetCurrentPidTgid, FuncSleepEnable, FuncSleepDisable}

  /** The helper each prototype implements. */
  function ProtoHelper(p: BpfFuncProto): (f: BpfFuncId)
    ensures f in AllowedHelpers
  {
    match p
    case MapLookupElemProto => FuncMapLookupElem
    case GetCurrentPidTgidProto => FuncGetCurrentPidTgid
    case SleepEnableProto => FuncSleepEnable
    case SleepDisableProto => FuncSleepDisable
  }

  /** get_bpf_func_proto: the prototype of an allowed helper, or None (NULL) for a helper that is not permitted. */
  function GetBpfFuncProto(funcId: BpfFuncId, prog: BpfProg): (r: Option<BpfFuncProto>)
    ensures r.Some? <==> funcId in AllowedHelpers
    ensures r.Some? ==> ProtoHelper(r.value) == funcId
  {
    match funcId
    case FuncMapLookupElem => Some(MapLookupElemProto)
    case FuncGetCurrentPidTgid => Some(GetCurrentPidTgidProto)
    case FuncSleepEnable => Some(SleepEnableProto)
    case FuncSleepDisable => Some(SleepDisableProto)
    case FuncOther(_) => None
  }

  /** Each allowed helper gets its own prototype back; no prototype is handed out for two helpers. */
  lemma ProtoRoundTrip(p: BpfFuncProto, f: BpfFuncId, g: BpfFuncId, prog: BpfProg)
    ensures GetBpfFuncProto(ProtoHelper(p), prog) == Some(p)
    ensures GetBpfFuncProto(f, prog).Some? && GetBpfFuncProto(f, prog) == GetBpfFuncProto(g, prog) ==> f == g
  {
  }

  /** The verdict depends on the helper only, never on the program. */
  lemma GetBpfFuncProtoIgnoresProg(funcId: BpfFuncId, p: BpfProg, q: BpfProg)
    ensures GetBpfFuncProto(funcId, p) == GetBpfFuncProto(funcId, q)
  {
  }

  /** Exactly four helpers are allowed. */
  lemma AllowedHelpersCount()
    ensures |AllowedHelpers| == 4
  {
  }

  /** struct bpf_verifier_ops; its is_valid_access member (btf_ctx_access) is not modelled. */
  datatype BpfVerifierOps = BpfVerifierOps(getFuncProto: (BpfFuncId, BpfProg) -> Option<BpfFuncProto>)

  /** lsm_verifier_ops. */
  const LsmVerifierOps := BpfVerifierOps(GetBpfFuncProto)

  /** Resolving a helper through lsm_verifier_ops admits exactly the whitelist. */
  function ResolveHelper(funcId: BpfFuncId, prog: BpfProg): (r: Option<BpfFuncProto>)
    ensures r == GetBpfFuncProto(funcId, prog)
    ensures r.Some? <==> funcId in AllowedHelpers
  {
    LsmVerifierOps.getFuncProto(funcId, prog)
  }
}
