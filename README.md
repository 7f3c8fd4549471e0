# LSM static call table, file_mprotect policy program and BPF LSM helper whitelist

This project models three pieces of a Linux kernel tree that lets BPF programs act as security modules:

- **The LSM static call table** (`include/linux/lsm_hooks.h`). Every LSM hook owns a fixed row of `MAX_LSM_COUNT` slots (`struct lsm_static_call`). Each slot holds the `security_hook_list` entry its call points at, plus an `active` static key. Modules build entries with `LSM_HOOK_INIT` or `LSM_HOOK_INIT_DISABLED` and register them through `security_add_hooks`. Once the LSMs are initialized, the callbacks are copied into the rows "filled backwards", so that a row's used slots are its tail. Dispatch can then start at the first used slot, `MAX_LSM_COUNT - n`, and run every slot from there to the end. The header also defines the ordering classes (`enum lsm_order`), the `LSM_FLAG_*` bits and `struct lsm_info`.
- **The `file_mprotect` test program** (`tools/testing/selftests/bpf/progs/lsm_int_hook.c`). It passes an earlier non-zero verdict through unchanged. Otherwise it denies with `-EPERM` when the vma lies inside the heap and the current pid is the monitored one, and counts each such denial in the global `result`.
- **The helper whitelist** (`security/bpf/ops.c`). `get_bpf_func_proto` maps four helper ids to their prototypes and every other id to NULL. `lsm_verifier_ops` resolves helpers through it.

Files and modules:

- `optional.dfy` (`Optional`): the `Option` type that stands for a nullable pointer.
- `lsm_hooks.dfy` (`LsmHooks`): the entry and slot datatypes and the pure layout of a filled row with its lemmas. The class `StaticCallsTable` holds one `array2` of slots, with one row per hook, plus the per-hook registration lists. Its methods are `AddHooks`, `FillRow`, `Populate` and `Dispatch`. The module also holds the order and flag constants.
- `lsm_int_hook.dfy` (`LsmIntHook`): the heap test, the pid truncation, and the verdict and state update as functions. The class `IntHookProg` holds `result`, and its method `TestIntHook` is proved against those functions.
- `bpf_ops.dfy` (`BpfOps`): the helper ids, the prototypes, `GetBpfFuncProto` and `lsm_verifier_ops`.

Modelling decisions:

- `MAX_LSM_COUNT` is the `maxLsmCount` parameter of the table's constructor, required to be positive. Every proof therefore holds for any capacity. The number of hooks is a parameter too, and a hook is a row index.
- The body of `security_add_hooks` is not part of this model; only its declaration is. Two comments constrain its effect:
  - `security/bpf/lsm.c:10-12`: static hooks are appended to the per-hook lists.
  - `include/linux/lsm_hooks.h:76-83`: once the LSMs are initialized, the callbacks are copied into the table, filled backwards.

  Neither comment says which entry takes slot `MAX_LSM_COUNT - 1`. The model chooses to put the last-registered entry there: `AddHooks` appends each entry to its hook's list, in order, with the owner name set, and `Populate` then copies each list into its row, from the last slot downward. With this choice a row runs in registration order. Another fill matches the comments equally well: each callback, as it is registered, takes the highest free slot. That fill would run a row in reverse registration order. The contiguity, key and dispatch properties proved here hold for either fill; only the in-row order depends on the choice.
- A hook with more entries than its row has slots is a fatal configuration error. `Populate` returns `false` and writes nothing.
- The return value of a C `int` is modelled as a 32-bit range. `bpf_get_current_pid_tgid()` and the vma are inputs. `EPERM` is 1.

## Model

| member | source | states |
|---|---|---|
| LsmHooks.LsmHookInit | include/linux/lsm_hooks.h:134-139 | the entry points at the hook's row, carries the callback, and is enabled by default |
| LsmHooks.LsmHookInitDisabled | include/linux/lsm_hooks.h:141-146 | the entry points at the hook's row, carries the callback, and is disabled by default |
| LsmHooks.HookInitVariants | include/linux/lsm_hooks.h:134-146 | the two initialisers differ only in `default_state`, and both point at the same row |
| LsmHooks.SlotFor | include/linux/lsm_hooks.h:62-74 | a slot a callback is copied into holds that entry, and its key is on exactly when the entry's default state is on |
| LsmHooks.LayoutOccupancy | include/linux/lsm_hooks.h:76-86 | in a row filled with n entries, slot i is used iff i >= MAX_LSM_COUNT - n; every lower slot is unused; every key agrees with its entry's default state |
| LsmHooks.OccupantsOfLayout | include/linux/lsm_hooks.h:76-82 | walking a filled row from its first slot to its last meets exactly the filled entries, each once, in order |
| LsmHooks.ActiveCallbacksMembers | include/linux/lsm_hooks.h:99-100 | a callback is among those called iff some entry carrying it is enabled by default; there are never more calls than entries |
| LsmHooks.ActiveCallbacksPositions | include/linux/lsm_hooks.h:99-100 | the exact value of the called sequence: the callbacks of the entries at positions ks, where ks lists every position whose entry is enabled by default, in increasing order, and no other; so k enabled entries cost exactly k calls, each enabled entry is called once, in entry order, and a disabled entry never |
| LsmHooks.ActiveCallbacksAllEnabled | include/linux/lsm_hooks.h:134-139 | when every entry was made with `LSM_HOOK_INIT`, every entry's callback runs, in order |
| LsmHooks.RegisteredMembers | include/linux/lsm_hooks.h:150-151 | an entry registered for hook h is exactly one of the given entries that points at h, marked as owned by the registering LSM |
| LsmHooks.StaticCallsTable.Row | include/linux/lsm_hooks.h:84-86 | every hook's row has exactly MAX_LSM_COUNT slots |
| LsmHooks.StaticCallsTable.constructor | include/linux/lsm_hooks.h:84-89 | a table of MAX_LSM_COUNT unused slots per hook, with empty registration lists |
| LsmHooks.StaticCallsTable.AddHooks | include/linux/lsm_hooks.h:150-151 | each hook's list becomes its old list followed by the new entries for that hook, in order, owned by `lsm`; the slots are untouched |
| LsmHooks.StaticCallsTable.FillRow | include/linux/lsm_hooks.h:76-83 | a loop from the last slot downward fills row h with its entries, the last entry in slot MAX_LSM_COUNT - 1; every other hook's row is unchanged |
| LsmHooks.StaticCallsTable.Populate | include/linux/lsm_hooks.h:76-89 | it succeeds iff every hook has at most MAX_LSM_COUNT entries; on failure nothing is written; on success each row's used slots are exactly its last n, and every key is on iff its slot's entry is enabled by default |
| LsmHooks.StaticCallsTable.Dispatch | include/linux/lsm_hooks.h:79-82 | the walk from slot MAX_LSM_COUNT - n to the end visits exactly the hook's registered entries, once each, in registration order (the model's fill order), and calls exactly the enabled ones |
| LsmHooks.StaticCallsTable.RowIsLayout | include/linux/lsm_hooks.h:76-86 | after population a row is the backward-filled layout of its entries, and its occupants are exactly those entries |
| LsmHooks.OrderValue | include/linux/lsm_hooks.h:156-160 | the enum values lie in -1..1 |
| LsmHooks.OrderOfValue | include/linux/lsm_hooks.h:156-160 | a stored value denotes an ordering class iff it is -1, 0 or 1, and that class has that value |
| LsmHooks.OrderValueRoundTrip | include/linux/lsm_hooks.h:156-160 | value then class gives back the class |
| LsmHooks.OrderIsStrictTotal | include/linux/lsm_hooks.h:156-160 | FIRST < MUTABLE < LAST, and the comparison is irreflexive, total on distinct classes and transitive |
| LsmHooks.FlagsAreDistinctBits | include/linux/lsm_hooks.h:153-154 | `LSM_FLAG_LEGACY_MAJOR` and `LSM_FLAG_EXCLUSIVE` are each a single bit, and the two bits differ |
| LsmHooks.FlagsAreIndependent | include/linux/lsm_hooks.h:153-154 | setting one flag makes it test true and leaves the test of the other unchanged |
| LsmHooks.DefineLsm | include/linux/lsm_hooks.h:162-169 | an `lsm_info` initialiser that gives only the name and the init function keeps those two, and the zero-filled order and flags fields give order MUTABLE and no flags |
| LsmHooks.DefaultOrderIsMutable | include/linux/lsm_hooks.h:162-169 | an `lsm_info` with only a name and an init function has order MUTABLE and no flags |
| LsmIntHook.IsHeapCoversVma | tools/testing/selftests/bpf/progs/lsm_int_hook.c:45-46 | for a non-empty vma, `is_heap` (vm_start >= start_brk and vm_end <= brk) holds exactly when every address of the vma lies in the heap range [start_brk, brk) |
| LsmIntHook.CurrentPid | tools/testing/selftests/bpf/progs/lsm_int_hook.c:42 | the pid is the low 32 bits of the pid_tgid value |
| LsmIntHook.CurrentPidOfPidTgid | tools/testing/selftests/bpf/progs/lsm_int_hook.c:42 | from tgid * 2^32 + pid, the hook reads back exactly pid |
| LsmIntHook.HookReturn | tools/testing/selftests/bpf/progs/lsm_int_hook.c:39-53 | the result is the incoming `ret` or -EPERM; a non-zero `ret` is returned unchanged; with `ret` 0 the result is -EPERM iff the vma is in the heap and the monitored pid is the current pid, and 0 otherwise |
| LsmIntHook.NextResult | tools/testing/selftests/bpf/progs/lsm_int_hook.c:48-51 | `count` grows by one exactly when this hook issues the denial and is unchanged otherwise; `monitored_pid` is never written |
| LsmIntHook.RunCountsDenials | tools/testing/selftests/bpf/progs/lsm_int_hook.c:48-51 | over any sequence of invocations, `count` grows by exactly the number of denials the program issued, and `monitored_pid` stays the same |
| LsmIntHook.IntHookProg.constructor | tools/testing/selftests/bpf/progs/lsm_int_hook.c:16-19 | the program starts with `monitored_pid = 0` and `count = 0` |
| LsmIntHook.IntHookProg.TestIntHook | tools/testing/selftests/bpf/progs/lsm_int_hook.c:36-54 | the method returns `HookReturn` and leaves `result` as `NextResult` of the old value |
| BpfOps.ProtoHelper | security/bpf/ops.c:17-25 | every handed-out prototype belongs to an allowed helper |
| BpfOps.GetBpfFuncProto | security/bpf/ops.c:14-29 | a prototype is returned iff the helper is one of map_lookup_elem, get_current_pid_tgid, sleep_enable and sleep_disable, and it is that helper's own prototype; every other id gets None (NULL) |
| BpfOps.ProtoRoundTrip | security/bpf/ops.c:17-28 | each prototype is returned for its own helper, and no two helpers share a prototype |
| BpfOps.GetBpfFuncProtoIgnoresProg | security/bpf/ops.c:14-29 | the result depends on the helper id only, never on the program |
| BpfOps.AllowedHelpersCount | security/bpf/ops.c:17-28 | exactly four helpers are allowed |
| BpfOps.ResolveHelper | security/bpf/ops.c:31-33 | resolving through `lsm_verifier_ops` gives `get_bpf_func_proto`'s answer, so it admits exactly the whitelist |

## Left out

- Runtime code patching: the static call keys, trampolines and jump labels (include/linux/lsm_hooks.h:31-36, 62-74). A slot is its entry plus a boolean `active`. Retargeting a slot's call is the same as storing the entry, whose callback the call then runs.
- `LSM_LOOP_UNROLL` and `LSM_DEFINE_UNROLL` (include/linux/lsm_hooks.h:45-53) expand a macro MAX_LSM_COUNT times per hook. The expansion is not modelled; the walk over a row in `Dispatch` is an ordinary loop.
- The dynamic `bpf_lsm_hook_heads` lists and their SRCU read-side protection (security/bpf/lsm.c:16-20). They exist for concurrent readers, and their attach and detach code is not part of this model.
- `lsm_init` and `DEFINE_LSM(bpf)` (security/bpf/lsm.c:22-32). `lsm_init` registers an empty array, logs a line and returns 0. Registering an empty array leaves every list unchanged, which follows from `AddHooks`'s contract.
- `samples/bpf/krsi_user.c`: user-space loading, map updates, attaching and perf-buffer printing. It is I/O only.
- `struct lsm_blob_sizes`, `__randomize_layout`, section placement, `lsm_names`, `lsm_inode_alloc` and the `enabled` and `blobs` fields of `lsm_info`. These are memory-layout and linker details.
- The hook enumeration and per-hook signatures of `lsm_hook_defs.h`, which is not part of this model. A hook is an index and a callback an abstract id.
- Sorting modules by ordering class, and enforcing a single first, a single last and an exclusive module. That code is not part of this model, so only the constants the header defines are modelled. Within a row, the model's fill puts entries in the order in which `security_add_hooks` was called, as a modelling choice (see above).
- Combining the callbacks' return values (short-circuit on the first denial) happens in the hook callers in `security/security.c`, which is not part of this model. `Dispatch` states which callbacks a walk calls, not a combined verdict.
- StaticCallsTable.AddHooks: takes the entries as a sequence standing for the `hooks` array and its `count`, and returns the named entries in the per-hook lists rather than writing the owner into the caller's array in place.
- StaticCallsTable.Populate: the kernel panics when a row is full. The model returns `false` with the table unchanged, and says nothing about the state after the panic.
- LsmIntHook.NextResult: `struct lsm_prog_result` comes from `lsm_helpers.h`, which is not part of this model. `count` is an unbounded natural number, so a wrap-around of its C type is not modelled. `monitored_pid` is taken to be 32 bits wide, the width of the compared `pid`.
- `lsm_prog_ops` (security/bpf/ops.c:11-12) is empty. The `is_valid_access` member of `lsm_verifier_ops` is the external `btf_ctx_access` and is not modelled.
- `reqprot` and `prot` are taken as inputs and, as in the program, never read.
